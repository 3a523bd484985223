/** Idle connections kept for reuse: a pool for each address that has any, pools without any recycled. */
module ClientPools {
  import opened Bytes

  /** An address as text; a connection by its number. */
  type Addr = seq<Byte>
  type Conn = nat

  datatype Pool = Pool(addr: Addr, queue: seq<Conn>, qsize: int)

  /** All pools ever made, those not in use, the one of each address, the pool of each idle connection. */
  datatype State = State(heap: seq<Pool>, free: seq<int>, pools: map<Addr, int>, data: map<Conn, int>)

  predicate InUse(s: State, i: int) {
    0 <= i < |s.heap| && s.heap[i].addr in s.pools && s.pools[s.heap[i].addr] == i
  }

  /** Every pool is free or in use, not both, and in use under its own address. */
  ghost predicate PoolsOk(s: State) {
    && |s.heap| == |s.free| + |s.pools| && Distinct(s.free)
    && (forall k :: 0 <= k < |s.free| ==> 0 <= s.free[k] < |s.heap| && !InUse(s, s.free[k]))
    && (forall a :: a in s.pools ==> InUse(s, s.pools[a]) && s.heap[s.pools[a]].addr == a)
  }

  /** No pool in use is empty, and each knows its size. */
  ghost predicate QueuesOk(s: State) {
    forall i :: InUse(s, i) ==>
          s.heap[i].queue != [] && s.heap[i].qsize == |s.heap[i].queue| && Distinct(s.heap[i].queue)
  }

  /** The connections in the pools are those that know a pool, each in the one it knows. */
  ghost predicate DataOk(s: State) {
    && (forall i, k :: InUse(s, i) && 0 <= k < |s.heap[i].queue| ==> Knows(s, s.heap[i].queue[k], i))
    && (forall c :: c in s.data ==> InUse(s, s.data[c]) && c in s.heap[s.data[c]].queue)
  }

  predicate Knows(s: State, c: Conn, i: int) {
    c in s.data && s.data[c] == i
  }

  ghost predicate Ok(s: State) {
    PoolsOk(s) && QueuesOk(s) && DataOk(s)
  }

  /** The idle connections of an address, the last one put in first. */
  function Idle(s: State, a: Addr): seq<Conn> {
    if a in s.pools && 0 <= s.pools[a] < |s.heap| then s.heap[s.pools[a]].queue else []
  }

  // ---------------------------------------------------------------- a connection leaves

  function Left(s: State, i: int, k: nat): State
    requires 0 <= i < |s.heap| && k < |s.heap[i].queue|
  {
    var p := s.heap[i];
    var rest := Without(p.queue, k);
    var heap := s.heap[i := p.(queue := rest, qsize := p.qsize - 1)];
    if rest == [] then State(heap, [i] + s.free, s.pools - {p.addr}, s.data - {p.queue[k]})
    else State(heap, s.free, s.pools, s.data - {p.queue[k]})
  }

  lemma LeftInUse(s: State, i: int, k: nat)
    requires PoolsOk(s) && InUse(s, i) && k < |s.heap[i].queue|
    ensures forall j :: InUse(Left(s, i, k), j) <==> InUse(s, j) && (j != i || |s.heap[i].queue| > 1)
  {
  }

  lemma LeftPools(s: State, i: int, k: nat)
    requires PoolsOk(s) && InUse(s, i) && k < |s.heap[i].queue|
    ensures PoolsOk(Left(s, i, k))
  {
    hide Without;
    LeftInUse(s, i, k);
    var t, q := Left(s, i, k), s.heap[i].queue;
    WithoutNone(q, k);
    if |q| == 1 { OneLess(s.pools, s.heap[i].addr); }
    forall a | a in t.pools ensures InUse(t, t.pools[a]) && t.heap[t.pools[a]].addr == a { assert a in s.pools; }
  }

  lemma WithoutNone(q: seq<Conn>, k: nat)
    requires k < |q|
    ensures Without(q, k) == [] <==> |q| == 1
  {
  }

  lemma OneLess(m: map<Addr, int>, a: Addr)
    requires a in m
    ensures |m - {a}| == |m| - 1
  {
    assert m.Keys == (m - {a}).Keys + {a};
    assert |m| == |m.Keys| && |m - {a}| == |(m - {a}).Keys|;
  }

  lemma LeftKnown(s: State, i: int, k: nat, j: int, n: nat)
    requires Ok(s) && InUse(s, i) && k < |s.heap[i].queue| && InUse(s, j) && n < |Left(s, i, k).heap[j].queue|
    ensures Knows(Left(s, i, k), Left(s, i, k).heap[j].queue[n], j)
  {
    hide PoolsOk;
    var t, q := Left(s, i, k), s.heap[i].queue;
    assert Knows(s, q[k], i);
    if j == i {
      var o := if n < k then n else n + 1;
      assert Distinct(q) && q[o] != q[k];
      assert Knows(s, q[o], i);
      assert t.heap[i].queue == Without(q, k) && Without(q, k)[n] == q[o];
    } else {
      assert Knows(s, s.heap[j].queue[n], j);
    }
  }

  /** A connection that still knows a pool is still in it. */
  lemma LeftThere(s: State, i: int, k: nat, c: Conn)
    requires Ok(s) && InUse(s, i) && k < |s.heap[i].queue| && c in Left(s, i, k).data
    ensures InUse(Left(s, i, k), Left(s, i, k).data[c]) && c in Left(s, i, k).heap[Left(s, i, k).data[c]].queue
  {
    hide PoolsOk, QueuesOk;
    LeftInUse(s, i, k);
    var t, q := Left(s, i, k), s.heap[i].queue;
    assert c in s.data && c != q[k];
    if t.data[c] == i {
      var o :| 0 <= o < |q| && q[o] == c;
      assert Without(q, k)[if o < k then o else o - 1] == c;
    }
  }

  lemma LeftCount(s: State, i: int, k: nat)
    requires DataOk(s) && InUse(s, i) && k < |s.heap[i].queue|
    ensures |Left(s, i, k).data| == |s.data| - 1
  {
    var t, c := Left(s, i, k), s.heap[i].queue[k];
    assert Knows(s, c, i);
    assert s.data.Keys == t.data.Keys + {c};
    assert |t.data| == |t.data.Keys| && |s.data| == |s.data.Keys|;
  }

  lemma LeftData(s: State, i: int, k: nat)
    requires Ok(s) && InUse(s, i) && k < |s.heap[i].queue|
    ensures DataOk(Left(s, i, k)) && |Left(s, i, k).data| == |s.data| - 1
  {
    LeftInUse(s, i, k);
    LeftCount(s, i, k);
    var t := Left(s, i, k);
    forall j, n | InUse(t, j) && 0 <= n < |t.heap[j].queue|
        ensures Knows(t, t.heap[j].queue[n], j) { LeftKnown(s, i, k, j, n); }
    forall c | c in t.data ensures InUse(t, t.data[c]) && c in t.heap[t.data[c]].queue { LeftThere(s, i, k, c); }
  }

  lemma LeftQueues(s: State, i: int, k: nat)
    requires PoolsOk(s) && QueuesOk(s) && InUse(s, i) && k < |s.heap[i].queue|
    ensures QueuesOk(Left(s, i, k))
  {
    LeftInUse(s, i, k);
  }

  lemma LeftIdle(s: State, i: int, k: nat)
    requires PoolsOk(s) && InUse(s, i) && k < |s.heap[i].queue|
    ensures Idle(Left(s, i, k), s.heap[i].addr) == Without(s.heap[i].queue, k)
    ensures forall b :: b != s.heap[i].addr ==> Idle(Left(s, i, k), b) == Idle(s, b)
  {
  }

  /** The others of its address, and all other addresses, are left as they were; an empty pool goes to the free ones. */
  lemma LeftOk(s: State, i: int, k: nat)
    requires Ok(s) && InUse(s, i) && k < |s.heap[i].queue|
    ensures var t := Left(s, i, k);
            && Ok(t) && |t.data| == |s.data| - 1
            && Idle(t, s.heap[i].addr) == Without(s.heap[i].queue, k)
            && forall b :: b != s.heap[i].addr ==> Idle(t, b) == Idle(s, b)
  {
    hide Left, PoolsOk, QueuesOk, DataOk, InUse;
    LeftPools(s, i, k);
    LeftQueues(s, i, k);
    LeftData(s, i, k);
    LeftIdle(s, i, k);
  }

  // ---------------------------------------------------------------- a connection joins

  /** A pool for an address that has none: a free one or a new one. */
  function Opened(s: State, a: Addr): State {
    if s.free == [] then State(s.heap + [Pool(a, [], 0)], [], s.pools[a := |s.heap|], s.data)
    else if 0 <= s.free[0] < |s.heap| then
      State(s.heap[s.free[0] := Pool(a, [], 0)], s.free[1..], s.pools[a := s.free[0]], s.data)
    else s
  }

  function Joined(s: State, a: Addr, c: Conn): State {
    var t := if a in s.pools then s else Opened(s, a);
    var i := if a in t.pools then t.pools[a] else 0;
    if 0 <= i < |t.heap| then Headed(t, i, c) else t
  }

  /** The queues, but for the pool at hand. */
  ghost predicate QueuesBut(s: State, but: int) {
    forall i :: InUse(s, i) && i != but ==>
          s.heap[i].queue != [] && s.heap[i].qsize == |s.heap[i].queue| && Distinct(s.heap[i].queue)
  }

  lemma OpenedInUse(s: State, a: Addr)
    requires PoolsOk(s) && a !in s.pools
    ensures var t := Opened(s, a);
            && a in t.pools && InUse(t, t.pools[a]) && t.heap[t.pools[a]] == Pool(a, [], 0) && t.data == s.data
            && (forall j :: InUse(t, j) <==> InUse(s, j) || j == t.pools[a])
            && (forall j :: InUse(s, j) ==> j != t.pools[a] && t.heap[j] == s.heap[j])
  {
    assert s.free != [] ==> !InUse(s, s.free[0]);
  }

  lemma OpenedCounts(s: State, a: Addr)
    requires PoolsOk(s) && a !in s.pools
    ensures |Opened(s, a).heap| == |Opened(s, a).free| + |Opened(s, a).pools| && Distinct(Opened(s, a).free)
  {
    hide InUse;
    var t := Opened(s, a);
    assert t.pools.Keys == s.pools.Keys + {a};
    assert |t.pools| == |t.pools.Keys| && |s.pools| == |s.pools.Keys|;
  }

  lemma OpenedFree(s: State, a: Addr, k: nat)
    requires PoolsOk(s) && a !in s.pools && k < |Opened(s, a).free|
    ensures 0 <= Opened(s, a).free[k] < |Opened(s, a).heap| && !InUse(Opened(s, a), Opened(s, a).free[k])
  {
    OpenedInUse(s, a);
    assert Opened(s, a).free[k] == s.free[k+1] && !InUse(s, s.free[k+1]);
  }

  lemma OpenedPools(s: State, a: Addr)
    requires PoolsOk(s) && a !in s.pools
    ensures PoolsOk(Opened(s, a))
  {
    OpenedInUse(s, a);
    OpenedCounts(s, a);
    var t := Opened(s, a);
    forall k | 0 <= k < |t.free| ensures 0 <= t.free[k] < |t.heap| && !InUse(t, t.free[k]) { OpenedFree(s, a, k); }
    forall b | b in t.pools ensures InUse(t, t.pools[b]) && t.heap[t.pools[b]].addr == b { OpenedPool(s, a, b); }
  }

  lemma OpenedPool(s: State, a: Addr, b: Addr)
    requires PoolsOk(s) && a !in s.pools && b in Opened(s, a).pools
    ensures var t := Opened(s, a); InUse(t, t.pools[b]) && t.heap[t.pools[b]].addr == b
  {
    OpenedInUse(s, a);
    if b != a { assert InUse(s, s.pools[b]); }
  }

  lemma OpenedOk(s: State, a: Addr)
    requires Ok(s) && a !in s.pools
    ensures var t := Opened(s, a);
            && PoolsOk(t) && DataOk(t) && t.data == s.data && a in t.pools && InUse(t, t.pools[a])
            && t.heap[t.pools[a]] == Pool(a, [], 0) && QueuesBut(t, t.pools[a])
  {
    hide Opened, PoolsOk;
    OpenedInUse(s, a);
    OpenedPools(s, a);
    var t := Opened(s, a);
    forall j, k | InUse(t, j) && 0 <= k < |t.heap[j].queue| ensures Knows(t, t.heap[j].queue[k], j) {
      assert Knows(s, s.heap[j].queue[k], j);
    }
  }

  lemma OpenedIdle(s: State, a: Addr)
    requires PoolsOk(s) && a !in s.pools
    ensures forall b :: Idle(Opened(s, a), b) == Idle(s, b)
  {
    OpenedInUse(s, a);
    forall b | b in s.pools ensures Idle(Opened(s, a), b) == Idle(s, b) { assert InUse(s, s.pools[b]); }
  }

  function Headed(t: State, i: int, c: Conn): State
    requires 0 <= i < |t.heap|
  {
    var p := t.heap[i];
    State(t.heap[i := p.(queue := [c] + p.queue, qsize := p.qsize + 1)], t.free, t.pools, t.data[c := i])
  }

  lemma HeadedInUse(t: State, i: int, c: Conn)
    requires 0 <= i < |t.heap|
    ensures forall j :: InUse(Headed(t, i, c), j) <==> InUse(t, j)
    ensures PoolsOk(t) ==> PoolsOk(Headed(t, i, c))
  {
    var u := Headed(t, i, c);
    assert forall j :: InUse(u, j) <==> InUse(t, j);
  }

  lemma HeadedData(t: State, i: int, c: Conn)
    requires DataOk(t) && InUse(t, i) && c !in t.data
    ensures DataOk(Headed(t, i, c)) && |Headed(t, i, c).data| == |t.data| + 1
  {
    var u, p := Headed(t, i, c), t.heap[i];
    HeadedInUse(t, i, c);
    forall j, k | InUse(u, j) && 0 <= k < |u.heap[j].queue| ensures Knows(u, u.heap[j].queue[k], j) {
      if j != i { assert Knows(t, t.heap[j].queue[k], j); } else if k > 0 { assert Knows(t, p.queue[k-1], i); }
    }
    forall d | d in u.data ensures InUse(u, u.data[d]) && d in u.heap[u.data[d]].queue {
      if d == c { assert u.heap[i].queue[0] == c; }
    }
    assert u.data.Keys == t.data.Keys + {c};
    assert |t.data| == |t.data.Keys| && |u.data| == |u.data.Keys|;
  }

  lemma HeadedOk(t: State, i: int, c: Conn)
    requires PoolsOk(t) && DataOk(t) && InUse(t, i) && QueuesBut(t, i) && c !in t.data
    requires t.heap[i].qsize == |t.heap[i].queue| && Distinct(t.heap[i].queue)
    ensures Ok(Headed(t, i, c)) && |Headed(t, i, c).data| == |t.data| + 1
  {
    HeadedInUse(t, i, c);
    HeadedData(t, i, c);
    forall k | 0 <= k < |t.heap[i].queue| ensures t.heap[i].queue[k] != c { assert Knows(t, t.heap[i].queue[k], i); }
    assert QueuesOk(Headed(t, i, c)) by { hide PoolsOk, DataOk; }
  }

  lemma HeadedIdle(t: State, i: int, c: Conn)
    requires PoolsOk(t) && InUse(t, i)
    ensures Idle(Headed(t, i, c), t.heap[i].addr) == [c] + t.heap[i].queue
    ensures forall b :: b != t.heap[i].addr ==> Idle(Headed(t, i, c), b) == Idle(t, b)
  {
    forall b | b in t.pools ensures InUse(t, t.pools[b]) {}
  }

  lemma JoinedOk(s: State, a: Addr, c: Conn)
    requires Ok(s) && c !in s.data
    ensures var t := Joined(s, a, c);
            && Ok(t) && |t.data| == |s.data| + 1 && Idle(t, a) == [c] + Idle(s, a)
            && forall b :: b != a ==> Idle(t, b) == Idle(s, b)
  {
    hide PoolsOk, QueuesOk, DataOk, Idle, InUse, Opened, Headed;
    if a in s.pools { JoinedThere(s, a, c); } else { JoinedFirst(s, a, c); }
  }

  lemma JoinedThere(s: State, a: Addr, c: Conn)
    requires Ok(s) && c !in s.data && a in s.pools
    ensures var t := Joined(s, a, c);
            && Ok(t) && |t.data| == |s.data| + 1 && Idle(t, a) == [c] + Idle(s, a)
            && forall b :: b != a ==> Idle(t, b) == Idle(s, b)
  {
    HeadedOk(s, s.pools[a], c);
    HeadedIdle(s, s.pools[a], c);
  }

  lemma JoinedFirst(s: State, a: Addr, c: Conn)
    requires Ok(s) && c !in s.data && a !in s.pools
    ensures var t := Joined(s, a, c);
            && Ok(t) && |t.data| == |s.data| + 1 && Idle(t, a) == [c] + Idle(s, a)
            && forall b :: b != a ==> Idle(t, b) == Idle(s, b)
  {
    hide QueuesOk;
    OpenedOk(s, a);
    OpenedIdle(s, a);
    var t := Opened(s, a);
    HeadedOk(t, t.pools[a], c);
    HeadedIdle(t, t.pools[a], c);
  }

  // ---------------------------------------------------------------- counting

  /** The sizes of the first `n` pools, of those in use, added up. */
  function Sizes(s: State, n: nat): int
    requires n <= |s.heap|
  {
    if n == 0 then 0 else Sizes(s, n - 1) + (if InUse(s, n - 1) then s.heap[n-1].qsize else 0)
  }

  /** The idle connections of the first `n` pools. */
  function InFirst(s: State, n: nat): set<Conn> {
    set c | c in s.data && s.data[c] < n
  }

  function InPool(s: State, i: nat): set<Conn> {
    set c | c in s.data && s.data[c] == i
  }

  lemma DataInUse(s: State, c: Conn)
    requires DataOk(s) && c in s.data
    ensures 0 <= s.data[c] < |s.heap|
  {
  }

  /** The sizes count the idle connections, each once. */
  lemma {:induction false} SizesCount(s: State, n: nat)
    requires Ok(s) && n <= |s.heap|
    ensures Sizes(s, n) == |InFirst(s, n)|
  {
    hide PoolsOk, QueuesOk, DataOk, InUse;
    if n == 0 {
      forall c | c in s.data ensures s.data[c] >= 0 { DataInUse(s, c); }
      assert InFirst(s, 0) == {};
    } else {
      SizesCount(s, n - 1);
      assert InFirst(s, n) == InFirst(s, n - 1) + InPool(s, n - 1) && InFirst(s, n - 1) !! InPool(s, n - 1);
      PoolCount(s, n - 1);
    }
  }

  lemma PoolCount(s: State, i: nat)
    requires Ok(s) && i < |s.heap|
    ensures |InPool(s, i)| == if InUse(s, i) then s.heap[i].qsize else 0
  {
    hide PoolsOk;
    if InUse(s, i) {
      var q := s.heap[i].queue;
      MembersSize<Conn>(q);
      forall k | 0 <= k < |q| ensures q[k] in InPool(s, i) { assert Knows(s, q[k], i); }
      assert InPool(s, i) == Elements<Conn>(q);
    } else {
      assert InPool(s, i) == {};
    }
  }

  lemma AllInFirst(s: State)
    requires Ok(s)
    ensures |InFirst(s, |s.heap|)| == |s.data|
  {
    hide PoolsOk, QueuesOk;
    forall c | c in s.data ensures s.data[c] < |s.heap| { DataInUse(s, c); }
    assert InFirst(s, |s.heap|) == s.data.Keys;
    assert |s.data| == |s.data.Keys|;
  }

  // ---------------------------------------------------------------- as it runs

  lemma AddrInUse(s: State, a: Addr)
    requires Ok(s)
    ensures a in s.pools ==>
             InUse(s, s.pools[a]) && s.heap[s.pools[a]].addr == a && Idle(s, a) == s.heap[s.pools[a]].queue != []
  {
  }

  function IndexOf(q: seq<Conn>, c: Conn): (k: nat)
    requires c in q
    ensures k < |q| && q[k] == c && forall j :: 0 <= j < k ==> q[j] != c
  {
    if q[0] == c then 0 else 1 + IndexOf(q[1..], c)
  }

  lemma CloseKnown(s: State, c: Conn)
    requires Ok(s) && c in s.data
    ensures InUse(s, s.data[c]) && c in s.heap[s.data[c]].queue
    ensures Idle(s, s.heap[s.data[c]].addr) == s.heap[s.data[c]].queue
  {
  }

  class Pools {
    var heap: seq<Pool>
    var free: seq<int>
    var pools: map<Addr, int>
    var nalloc: int
    var nfree: int
    var idle: int
    var data: map<Conn, int>
    const keepalive: int

    constructor (keepalive: int)
      ensures Valid() && this.keepalive == keepalive && data == map[] && pools == map[]
    {
      this.keepalive := keepalive;
      heap, free, pools, nalloc, nfree, idle, data := [], [], map[], 0, 0, 0, map[];
    }

    function Now(): State
      reads this
    {
      State(heap, free, pools, data)
    }

    /** The pools are in order, and all counters right: pools made, pools free, connections idle. */
    ghost predicate Valid()
      reads this
    {
      Ok(Now()) && nalloc == |heap| && nfree == |free| && nalloc == nfree + |pools| && idle == |data|
    }

    /** The idle counter is the sum of the sizes of the pools in use. */
    lemma IdleIsTheSum()
      requires Valid()
      ensures idle == Sizes(Now(), |heap|)
    {
      hide Ok;
      SizesCount(Now(), |heap|);
      AllInFirst(Now());
    }

    /** A connection leaves its pool, which is recycled when it was the last. */
    method Remove(i: int, k: nat)
      requires Valid() && InUse(Now(), i) && k < |heap[i].queue|
      modifies this
      ensures Valid() && Now() == Left(old(Now()), i, k)
    {
      hide Ok;
      LeftOk(Now(), i, k);
      var p := heap[i];
      var rest := Without(p.queue, k);
      heap := heap[i := p.(queue := rest, qsize := p.qsize - 1)];
      idle, data := idle - 1, data - {p.queue[k]};
      if rest == [] {
        pools := pools - {p.addr};
        free, nfree := [i] + free, nfree + 1;
      }
    }

    /** A connection of that very address to use again, the last one put in, if there is any. */
    method GetConnection(a: Addr, unix: bool) returns (found: bool, c: Conn)
      requires Valid()
      modifies this
      ensures Valid() && (found <==> !unix && old(Idle(Now(), a)) != [])
      ensures !found ==> Now() == old(Now())
      ensures found ==> old(Idle(Now(), a)) == [c] + Idle(Now(), a) && c !in data && idle == old(idle) - 1
      ensures forall b :: b != a ==> Idle(Now(), b) == old(Idle(Now(), b))
    {
      hide QueuesOk, DataOk, PoolsOk;
      AddrInUse(Now(), a);
      if unix || a !in pools { return false, 0; }
      var i := pools[a];
      LeftOk(Now(), i, 0);
      found, c := true, heap[i].queue[0];
      assert heap[i].queue == [c] + Without(heap[i].queue, 0);
      Remove(i, 0);
    }

    /** An idle connection is closed: its server has closed it, has sent something, or it has been idle too long. */
    method Close(c: Conn) returns (ghost a: Addr, ghost n: nat)
      requires Valid() && c in data
      modifies this
      ensures Valid() && data.Keys == old(data).Keys - {c} && idle == old(idle) - 1
      ensures n < |old(Idle(Now(), a))| && old(Idle(Now(), a))[n] == c
               && Idle(Now(), a) == Without(old(Idle(Now(), a)), n)
      ensures forall b :: b != a ==> Idle(Now(), b) == old(Idle(Now(), b))
    {
      hide PoolsOk, QueuesOk, DataOk;
      var i := data[c];
      CloseKnown(Now(), c);
      a, n := heap[i].addr, IndexOf(heap[i].queue, c);
      LeftOk(Now(), i, n);
      var k := Search(heap[i].queue, c);
      Remove(i, k);
    }

    /** Where a connection stands in its queue. */
    static method Search(q: seq<Conn>, c: Conn) returns (k: nat)
      requires c in q
      ensures k < |q| && q[k] == c && k == IndexOf(q, c)
    {
      k := 0;
      while q[k] != c
        invariant k < |q| && forall j :: 0 <= j < k ==> q[j] != c
        decreases |q| - k
      {
        k := k + 1;
      }
    }

    /** A connection that is not needed any more is put into the pool of its address, unless there are too many idle. */
    method Keep(c: Conn, a: Addr, unix: bool) returns (kept: bool)
      requires Valid() && c !in data
      modifies this
      ensures Valid() && (kept <==> !unix && old(idle) <= keepalive)
      ensures !kept ==> Now() == old(Now())
      ensures kept ==> Idle(Now(), a) == [c] + old(Idle(Now(), a)) && idle == old(idle) + 1
      ensures forall b :: b != a ==> Idle(Now(), b) == old(Idle(Now(), b))
    {
      hide PoolsOk, QueuesOk, DataOk;
      if unix || idle > keepalive { return false; }
      JoinedOk(Now(), a, c);
      ghost var s := Now();
      if a !in pools { OpenPool(a); }
      var i := pools[a];
      var p := heap[i];
      heap := heap[i := p.(queue := [c] + p.queue, qsize := p.qsize + 1)];
      idle, data := idle + 1, data[c := i];
      assert Now() == Joined(s, a, c);
      kept := true;
    }

    /** A free pool, cleared, or a new one. */
    method OpenPool(a: Addr)
      requires Valid() && a !in pools
      modifies this
      ensures Now() == Opened(old(Now()), a) && data == old(data) && idle == old(idle)
      ensures a in pools && 0 <= pools[a] < |heap| && nalloc == |heap| && nfree == |free| && nalloc == nfree + |pools|
    {
      hide PoolsOk, QueuesOk, DataOk;
      OpenedOk(Now(), a);
      var i := |heap|;
      if free == [] {
        heap, nalloc := heap + [Pool(a, [], 0)], nalloc + 1;
      } else {
        i, free, nfree := free[0], free[1..], nfree - 1;
        heap := heap[i := Pool(a, [], 0)];
      }
      pools := pools[a := i];
    }
  }
}
