/**
 The shared-memory stream zone: a hash table from stream name to the process
 slot of the owning worker. Several worker processes use it at once; a bucket
 is guarded by its own lock, the free list and the counter by one mutex.

 Each worker is a program counter (`Pc`), and a run is any interleaving of their
 steps. A `Step` is one lock operation or one write that another worker could
 see happen between two others. Three steps gather more than one access, all of
 them to words that the lock or the mutex held then keeps from everybody else:
 `ScanStep` reads a node and its link, `GetTake` pops the free list, `GetFill`
 writes a node in hand.
 */
module StreamZone {
  import opened Bytes
  import opened Chains

  const NAME_LEN := 1024
  const ERROR := -1

  // ---------------------------------------------------------------- state

  /** The configuration: all parts are fixed once the zone exists. */
  datatype Config = Config(nbuckets: int, nstreams: int, nworkers: int, hash: seq<Byte> -> nat) {
    /** `buckets=` and `streams=` refuse anything not positive. */
    ghost predicate Valid() {
      nbuckets > 0 && nstreams > 0 && nworkers >= 0
    }

    function Bucket(name: seq<Byte>): (b: int)
      requires nbuckets > 0
      ensures 0 <= b < nbuckets
    {
      hash(name) % nbuckets
    }
  }

  /** The shared memory. Node `i` is `names[i]`, `slots[i]`, `next[i]`; its `idx` field is `i` itself. */
  datatype Mem = Mem(
    names: seq<seq<Byte>>, slots: seq<int>, next: seq<int>,
    heads: seq<int>, free: int, alloc: int)

  datatype Op = Insert(name: seq<Byte>) | Delete(name: seq<Byte>) | Clear

  /** Where a worker stands. `b` is a bucket, `n` the node in hand, `cur` the last node passed. */
  datatype Pc =
    | Idle
    | Want(op: Op, b: int)                        // about to lock the bucket
    | Scan(op: Op, b: int, cur: int, nxt: int)    // walking the bucket's chain
    | GetWant(op: Op, b: int)                     // get_node: about to lock the mutex
    | GetTake(op: Op, b: int)                     //   look at the free list, pop
    | GetFill(op: Op, b: int, n: int)             //   write name, slot, next
    | GetCount(op: Op, b: int, n: int)            //   ++alloc
    | GetDone(op: Op, b: int, n: int)             //   unlock the mutex
    | LinkNext(op: Op, b: int, n: int)            // node->next = bucket head
    | LinkHead(op: Op, b: int, n: int)            // bucket head = node
    | PutWant(op: Op, b: int, cur: int, n: int)   // put_node: about to lock the mutex
    | PutNext(op: Op, b: int, cur: int, n: int)   //   node->next = free list
    | PutHead(op: Op, b: int, cur: int, n: int)   //   free list = node
    | PutCount(op: Op, b: int, cur: int)          //   --alloc
    | PutDone(op: Op, b: int, cur: int)           //   unlock the mutex
    | Release(op: Op, b: int, res: int)           // about to unlock the bucket
    | Done(op: Op, res: int)                      // finished, result not yet taken

  datatype State = State(m: Mem, locks: seq<int>, mutex: int, pcs: seq<Pc>)

  // ---------------------------------------------------------------- steps

  /** Does the scan stop at node `i`? By name for insert and delete, by owner for clear. */
  predicate Hit(m: Mem, op: Op, w: int, i: int)
    requires 0 <= i < |m.names| == |m.slots|
  {
    if op.Clear? then m.slots[i] == w else m.names[i] == op.name
  }

  predicate Shape(c: Config, s: State) {
    && |s.m.names| == |s.m.slots| == |s.m.next| == c.nstreams
    && |s.m.heads| == |s.locks| == c.nbuckets
    && |s.pcs| == c.nworkers
  }

  /** The link that follows `cur` in bucket `b`. */
  function After(m: Mem, b: int, cur: int): int
    requires 0 <= b < |m.heads| && -1 <= cur < |m.next|
  {
    if cur == -1 then m.heads[b] else m.next[cur]
  }

  function SetAfter(m: Mem, b: int, cur: int, v: int): Mem
    requires 0 <= b < |m.heads| && -1 <= cur < |m.next|
  {
    if cur == -1 then m.(heads := m.heads[b := v]) else m.(next := m.next[cur := v])
  }

  /** Every index a program counter mentions is one the arrays have. */
  predicate PcOk(c: Config, pc: Pc) {
    match pc
    case Idle => true
    case Done(op, res) => true
    case Scan(op, b, cur, nxt) => 0 <= b < c.nbuckets && -1 <= cur < c.nstreams && -1 <= nxt < c.nstreams
    case GetWant(op, b) => 0 <= b < c.nbuckets && op.Insert?
    case GetTake(op, b) => 0 <= b < c.nbuckets && op.Insert?
    case GetFill(op, b, n) => 0 <= b < c.nbuckets && op.Insert? && 0 <= n < c.nstreams
    case GetCount(op, b, n) => 0 <= b < c.nbuckets && op.Insert? && 0 <= n < c.nstreams
    case GetDone(op, b, n) => 0 <= b < c.nbuckets && op.Insert? && -1 <= n < c.nstreams
    case LinkNext(op, b, n) => 0 <= b < c.nbuckets && op.Insert? && 0 <= n < c.nstreams
    case LinkHead(op, b, n) => 0 <= b < c.nbuckets && op.Insert? && 0 <= n < c.nstreams
    case PutWant(op, b, cur, n) => 0 <= b < c.nbuckets && !op.Insert? && -1 <= cur < c.nstreams && 0 <= n < c.nstreams
    case PutNext(op, b, cur, n) => 0 <= b < c.nbuckets && !op.Insert? && -1 <= cur < c.nstreams && 0 <= n < c.nstreams
    case PutHead(op, b, cur, n) => 0 <= b < c.nbuckets && !op.Insert? && -1 <= cur < c.nstreams && 0 <= n < c.nstreams
    case PutCount(op, b, cur) => 0 <= b < c.nbuckets && !op.Insert? && -1 <= cur < c.nstreams
    case PutDone(op, b, cur) => 0 <= b < c.nbuckets && !op.Insert? && -1 <= cur < c.nstreams
    case _ => 0 <= pc.b < c.nbuckets
  }

  /** Worker `w` is inside a call, and is not waiting for a lock that is taken. */
  predicate CanStep(c: Config, s: State, w: int) {
    && Shape(c, s) && 0 <= w < c.nworkers && PcOk(c, s.pcs[w])
    && -1 <= s.m.free < c.nstreams
    && match s.pcs[w]
       case Idle => false
       case Done(_, _) => false
       case Want(_, b) => s.locks[b] == -1
       case GetWant(_, _) => s.mutex == -1
       case PutWant(_, _, _, _) => s.mutex == -1
       case _ => true
  }

  /** What a scan does at the node it has reached: (new memory, new program counter). */
  function ScanStep(c: Config, m: Mem, w: int, op: Op, b: int, cur: int, nxt: int): (Mem, Pc)
    requires |m.names| == |m.slots| == |m.next| == c.nstreams && |m.heads| == c.nbuckets
    requires PcOk(c, Scan(op, b, cur, nxt))
  {
    if nxt == -1 then
      (m, if op.Insert? then GetWant(op, b) else Release(op, b, 0))
    else if !Hit(m, op, w, nxt) then
      (m, Scan(op, b, nxt, m.next[nxt]))
    else if op.Insert? then
      (m, Release(op, b, m.slots[nxt]))
    else if m.slots[nxt] != w then
      (m, Release(op, b, 0))
    else
      (SetAfter(m, b, cur, m.next[nxt]), PutWant(op, b, cur, nxt))
  }

  /** The next step of worker `w`. */
  function Step(c: Config, s: State, w: int): State
    requires CanStep(c, s, w)
  {
    var m := s.m;
    match s.pcs[w]
    case Want(op, b) =>
      s.(locks := s.locks[b := w], pcs := s.pcs[w := Scan(op, b, -1, m.heads[b])])
    case Scan(op, b, cur, nxt) =>
      var (m', pc') := ScanStep(c, m, w, op, b, cur, nxt);
      s.(m := m', pcs := s.pcs[w := pc'])
    case GetWant(op, b) =>
      s.(mutex := w, pcs := s.pcs[w := GetTake(op, b)])
    case GetTake(op, b) =>
      if m.free == -1 then
        s.(pcs := s.pcs[w := GetDone(op, b, -1)])
      else
        s.(m := m.(free := m.next[m.free]), pcs := s.pcs[w := GetFill(op, b, m.free)])
    case GetFill(op, b, n) =>
      var len := if |op.name| < NAME_LEN then |op.name| else NAME_LEN - 1;
      s.(m := m.(names := m.names[n := CString(op.name[..len])],
                 slots := m.slots[n := w],
                 next := m.next[n := -1]),
         pcs := s.pcs[w := GetCount(op, b, n)])
    case GetCount(op, b, n) =>
      s.(m := m.(alloc := m.alloc + 1), pcs := s.pcs[w := GetDone(op, b, n)])
    case GetDone(op, b, n) =>
      s.(mutex := -1, pcs := s.pcs[w := if n == -1 then Release(op, b, ERROR) else LinkNext(op, b, n)])
    case LinkNext(op, b, n) =>
      s.(m := m.(slots := m.slots[n := w], next := m.next[n := m.heads[b]]),
         pcs := s.pcs[w := LinkHead(op, b, n)])
    case LinkHead(op, b, n) =>
      s.(m := m.(heads := m.heads[b := n]), pcs := s.pcs[w := Release(op, b, w)])
    case PutWant(op, b, cur, n) =>
      s.(mutex := w, pcs := s.pcs[w := PutNext(op, b, cur, n)])
    case PutNext(op, b, cur, n) =>
      s.(m := m.(next := m.next[n := m.free]), pcs := s.pcs[w := PutHead(op, b, cur, n)])
    case PutHead(op, b, cur, n) =>
      s.(m := m.(free := n), pcs := s.pcs[w := PutCount(op, b, cur)])
    case PutCount(op, b, cur) =>
      s.(m := m.(alloc := m.alloc - 1), pcs := s.pcs[w := PutDone(op, b, cur)])
    case PutDone(op, b, cur) =>
      s.(mutex := -1,
         pcs := s.pcs[w := if op.Clear? then Scan(op, b, cur, After(m, b, cur)) else Release(op, b, 0)])
    case Release(op, b, res) =>
      s.(locks := s.locks[b := -1],
         pcs := s.pcs[w := if op.Clear? && b + 1 < c.nbuckets then Want(op, b + 1) else Done(op, res)])
  }

  /** A worker enters a call. A name that does not fit a node is refused before any lock is taken. */
  function CallPc(c: Config, op: Op): Pc
    requires c.nbuckets > 0
  {
    match op
    case Insert(name) => if |name| >= NAME_LEN then Done(op, ERROR) else Want(op, c.Bucket(name))
    case Delete(name) => Want(op, c.Bucket(name))
    case Clear => Want(op, 0)
  }

  datatype Event = Call(w: int, op: Op) | Work(w: int) | Return(w: int)

  ghost predicate Enabled(c: Config, s: State, e: Event) {
    && Shape(c, s) && 0 <= e.w < c.nworkers
    && match e
       case Call(w, op) => s.pcs[w] == Idle
       case Work(w) => CanStep(c, s, w)
       case Return(w) => s.pcs[w].Done?
  }

  function Apply(c: Config, s: State, e: Event): State
    requires c.Valid() && Enabled(c, s, e)
  {
    match e
    case Call(w, op) => s.(pcs := s.pcs[w := CallPc(c, op)])
    case Work(w) => Step(c, s, w)
    case Return(w) => s.(pcs := s.pcs[w := Idle])
  }

  // ---------------------------------------------------------------- layout

  /** Which list a node is on. */
  datatype Place = Free | InBucket(b: int) | InHand(w: int)

  /** The lists themselves: derived from the memory by following the links (see `LayoutIsTheMemory`). */
  datatype Layout = Layout(free: seq<int>, chains: seq<seq<int>>, place: seq<Place>)

  function Held(pc: Pc): int {
    match pc
    case GetFill(_, _, n) => n
    case GetCount(_, _, n) => n
    case GetDone(_, _, n) => n
    case LinkNext(_, _, n) => n
    case LinkHead(_, _, n) => n
    case PutWant(_, _, _, n) => n
    case PutNext(_, _, _, n) => n
    case PutHead(_, _, _, n) => n
    case _ => -1
  }

  predicate HasBucket(pc: Pc, b: int) {
    !pc.Idle? && !pc.Want? && !pc.Done? && pc.b == b
  }

  predicate HasMutex(pc: Pc) {
    pc.GetTake? || pc.GetFill? || pc.GetCount? || pc.GetDone? ||
    pc.PutNext? || pc.PutHead? || pc.PutCount? || pc.PutDone?
  }

  ghost predicate LocksOk(c: Config, s: State)
    requires Shape(c, s)
  {
    && (forall w :: 0 <= w < c.nworkers ==> PcOk(c, s.pcs[w]))
    && (forall w, b :: 0 <= w < c.nworkers && 0 <= b < c.nbuckets ==>
          (HasBucket(s.pcs[w], b) <==> s.locks[b] == w))
    && (forall b :: 0 <= b < c.nbuckets ==> -1 <= s.locks[b] < c.nworkers)
    && (forall w :: 0 <= w < c.nworkers ==> (HasMutex(s.pcs[w]) <==> s.mutex == w))
    && -1 <= s.mutex < c.nworkers
  }

  /**
   The partition: the free chain, every bucket chain and the nodes in workers'
   hands are exactly the nodes of the zone, each on one list and once.
   */
  ghost predicate Partition(c: Config, s: State, a: Layout)
    requires Shape(c, s)
  {
    Linked(c, s.m, a) && Placed(c, s, a)
  }

  /** The lists are what the links spell out. */
  ghost predicate Linked(c: Config, m: Mem, a: Layout)
    requires |m.heads| == c.nbuckets
  {
    && |a.chains| == c.nbuckets
    && IsChain(m.next, m.free, a.free)
    && (forall b :: 0 <= b < c.nbuckets ==> IsChain(m.next, m.heads[b], a.chains[b]))
  }

  /** Each node is on exactly the list its place names. */
  ghost predicate Placed(c: Config, s: State, a: Layout)
    requires Shape(c, s)
  {
    && |a.chains| == c.nbuckets && |a.place| == c.nstreams
    && (forall n :: 0 <= n < c.nstreams ==> (n in a.free <==> a.place[n] == Free))
    && (forall n, b :: 0 <= n < c.nstreams && 0 <= b < c.nbuckets ==>
          (n in a.chains[b] <==> a.place[n] == InBucket(b)))
    && (forall n, w :: 0 <= n < c.nstreams && 0 <= w < c.nworkers ==>
          (Held(s.pcs[w]) == n <==> a.place[n] == InHand(w)))
    && (forall n :: 0 <= n < c.nstreams ==>
          match a.place[n]
          case Free => true
          case InBucket(b) => 0 <= b < c.nbuckets
          case InHand(w) => 0 <= w < c.nworkers)
  }

  /** How far `alloc` is from the truth while somebody is inside the mutex. */
  function Lag(s: State): int {
    if 0 <= s.mutex < |s.pcs| then
      match s.pcs[s.mutex]
      case GetFill(_, _, _) => -1
      case GetCount(_, _, _) => -1
      case PutCount(_, _, _) => 1
      case _ => 0
    else 0
  }

  ghost predicate CountOk(c: Config, s: State, a: Layout) {
    s.m.alloc == c.nstreams - |a.free| + Lag(s)
  }

  /** `cur` and `nxt` are neighbours in the chain, and nothing up to `cur` is a hit. */
  ghost predicate ScanAt(m: Mem, chain: seq<int>, op: Op, w: int, cur: int, nxt: int, j: int)
    requires |m.names| == |m.slots|
  {
    && 0 <= j <= |chain|
    && cur == At(chain, j - 1) && nxt == At(chain, j)
    && forall k :: 0 <= k < j ==> 0 <= chain[k] < |m.names| && !Hit(m, op, w, chain[k])
  }

  ghost predicate Scanned(m: Mem, chain: seq<int>, op: Op, w: int, cur: int, nxt: int)
    requires |m.names| == |m.slots|
  {
    exists j :: ScanAt(m, chain, op, w, cur, nxt, j)
  }

  ghost predicate NoHit(m: Mem, chain: seq<int>, op: Op, w: int)
    requires |m.names| == |m.slots|
  {
    forall k :: 0 <= k < |chain| ==> 0 <= chain[k] < |m.names| && !Hit(m, op, w, chain[k])
  }

  /** What a worker in the middle of a call can rely on. */
  ghost predicate LocalOk(c: Config, s: State, a: Layout, w: int)
    requires Shape(c, s) && |a.chains| == c.nbuckets && 0 <= w < c.nworkers && PcOk(c, s.pcs[w])
  {
    var m := s.m;
    match s.pcs[w]
    case Idle => true
    case Done(op, res) => op.Clear? ==> Swept(c, s, a, w, c.nbuckets)
    case Want(op, b) => (op.Clear? ==> Swept(c, s, a, w, b)) && (op.Insert? ==> |op.name| < NAME_LEN)
    case Scan(op, b, cur, nxt) =>
      && Scanned(m, a.chains[b], op, w, cur, nxt)
      && (op.Clear? ==> Swept(c, s, a, w, b))
      && (op.Insert? ==> |op.name| < NAME_LEN)
    case GetWant(op, b) => NoHit(m, a.chains[b], op, w) && |op.name| < NAME_LEN
    case GetTake(op, b) => NoHit(m, a.chains[b], op, w) && |op.name| < NAME_LEN
    case GetFill(op, b, n) => NoHit(m, a.chains[b], op, w) && |op.name| < NAME_LEN
    case GetCount(op, b, n) => NoHit(m, a.chains[b], op, w) && |op.name| < NAME_LEN && m.names[n] == CString(op.name)
    case GetDone(op, b, n) =>
      n >= 0 ==> NoHit(m, a.chains[b], op, w) && |op.name| < NAME_LEN && m.names[n] == CString(op.name)
    case LinkNext(op, b, n) => NoHit(m, a.chains[b], op, w) && |op.name| < NAME_LEN && m.names[n] == CString(op.name)
    case LinkHead(op, b, n) =>
      && NoHit(m, a.chains[b], op, w) && |op.name| < NAME_LEN
      && m.names[n] == CString(op.name) && m.slots[n] == w && m.next[n] == m.heads[b]
    case PutWant(op, b, cur, n) => op.Clear? ==> Resumable(c, s, a, w, op, b, cur)
    case PutNext(op, b, cur, n) => op.Clear? ==> Resumable(c, s, a, w, op, b, cur)
    case PutHead(op, b, cur, n) => m.next[n] == m.free && (op.Clear? ==> Resumable(c, s, a, w, op, b, cur))
    case PutCount(op, b, cur) => op.Clear? ==> Resumable(c, s, a, w, op, b, cur)
    case PutDone(op, b, cur) => op.Clear? ==> Resumable(c, s, a, w, op, b, cur)
    case Release(op, b, res) => op.Clear? ==> Swept(c, s, a, w, b + 1)
  }

  /** The buckets below `b` hold nothing of worker `w`. */
  ghost predicate Swept(c: Config, s: State, a: Layout, w: int, b: int)
    requires Shape(c, s) && |a.chains| == c.nbuckets
  {
    forall b' :: 0 <= b' < b && b' < c.nbuckets ==> NoHit(s.m, a.chains[b'], Clear, w)
  }

  /** After the node in hand is put away the scan can go on from `cur`. */
  ghost predicate Resumable(c: Config, s: State, a: Layout, w: int, op: Op, b: int, cur: int)
    requires Shape(c, s) && |a.chains| == c.nbuckets && 0 <= b < c.nbuckets && -1 <= cur < c.nstreams
  {
    Swept(c, s, a, w, b) && Scanned(s.m, a.chains[b], op, w, cur, After(s.m, b, cur))
  }

  ghost predicate Inv(c: Config, s: State, a: Layout) {
    && c.Valid() && Shape(c, s) && LocksOk(c, s) && Partition(c, s, a) && CountOk(c, s, a)
    && forall w :: 0 <= w < c.nworkers ==> LocalOk(c, s, a, w)
  }

  // ---------------------------------------------------------------- the layout follows each step

  ghost function Drop(chain: seq<int>, n: int): seq<int>
    requires n in chain
  {
    var k :| 0 <= k < |chain| && chain[k] == n;
    Without(chain, k)
  }

  /** How one step of worker `w` moves nodes between lists. */
  ghost function NextLayout(c: Config, s: State, a: Layout, w: int): Layout
    requires CanStep(c, s, w) && |a.chains| == c.nbuckets && |a.place| == c.nstreams
    requires forall n :: n in a.free ==> 0 <= n < c.nstreams
  {
    match s.pcs[w]
    case Scan(op, b, cur, nxt) =>
      if nxt != -1 && !op.Insert? && Hit(s.m, op, w, nxt) && s.m.slots[nxt] == w && nxt in a.chains[b] then
        a.(chains := a.chains[b := Drop(a.chains[b], nxt)], place := a.place[nxt := InHand(w)])
      else a
    case GetTake(op, b) =>
      if a.free != [] && a.free[0] in a.free then a.(free := a.free[1..], place := a.place[a.free[0] := InHand(w)])
          else a
    case LinkHead(op, b, n) =>
      a.(chains := a.chains[b := [n] + a.chains[b]], place := a.place[n := InBucket(b)])
    case PutHead(op, b, cur, n) =>
      a.(free := [n] + a.free, place := a.place[n := Free])
    case _ => a
  }

  /** Everything a step of worker `v` touches is in its hand, in a bucket it has locked, or under the mutex it holds. */
  ghost predicate Footprint(c: Config, s: State, s': State, a: Layout, a': Layout, v: int)
    requires Shape(c, s) && Shape(c, s') && |a.chains| == |a'.chains| == c.nbuckets && |a.place| == c.nstreams
    requires 0 <= v < c.nworkers
  {
    && (forall n :: 0 <= n < c.nstreams && s'.m.names[n] != s.m.names[n] ==> Held(s.pcs[v]) == n)
    && (forall n :: 0 <= n < c.nstreams && s'.m.slots[n] != s.m.slots[n] ==> Held(s.pcs[v]) == n)
    && (forall n :: 0 <= n < c.nstreams && s'.m.next[n] != s.m.next[n] ==>
          Held(s.pcs[v]) == n || (a.place[n].InBucket? && 0 <= a.place[n].b < c.nbuckets && s.locks[a.place[n].b] == v))
    && (forall b :: 0 <= b < c.nbuckets && s'.m.heads[b] != s.m.heads[b] ==> s.locks[b] == v)
    && (forall b :: 0 <= b < c.nbuckets && a'.chains[b] != a.chains[b] ==> s.locks[b] == v)
    && (s'.m.free != s.m.free ==> s.mutex == v)
    && (forall b, k :: 0 <= b < c.nbuckets && 0 <= k < |a'.chains[b]| ==> OldOrOwn(c, s', a, v, b, a'.chains[b][k]))
    && (forall w :: 0 <= w < c.nworkers && w != v ==> s'.pcs[w] == s.pcs[w])
  }

  /** A node now in bucket `b` was there before, or belongs to `v`. */
  ghost predicate OldOrOwn(c: Config, s': State, a: Layout, v: int, b: int, n: int)
    requires Shape(c, s') && 0 <= b < |a.chains|
  {
    0 <= n < c.nstreams && (n in a.chains[b] || s'.m.slots[n] == v)
  }

  lemma SweptUndisturbed(c: Config, s: State, s': State, a: Layout, a': Layout, v: int, w: int, b: int)
    requires Shape(c, s) && Shape(c, s') && |a'.chains| == c.nbuckets && 0 <= v < c.nworkers
    requires Placed(c, s, a)
    requires Footprint(c, s, s', a, a', v) && 0 <= w < c.nworkers && w != v && Swept(c, s, a, w, b)
    ensures Swept(c, s', a', w, b)
  {
    forall b' | 0 <= b' < b && b' < c.nbuckets
      ensures NoHit(s'.m, a'.chains[b'], Clear, w)
    {
      assert NoHit(s.m, a.chains[b'], Clear, w);
      forall k | 0 <= k < |a'.chains[b']|
        ensures 0 <= a'.chains[b'][k] < c.nstreams && s'.m.slots[a'.chains[b'][k]] != w
      {
        var n := a'.chains[b'][k];
        assert OldOrOwn(c, s', a, v, b', n);
        if n in a.chains[b'] {
          assert a.place[n] == InBucket(b');
          var i :| 0 <= i < |a.chains[b']| && a.chains[b'][i] == n;
          assert !Hit(s.m, Clear, w, a.chains[b'][i]);
        }
      }
    }
  }

  /** The bucket `w` has locked, and the node in its hand, read the same after a step of `v`. */
  lemma BucketUndisturbed(c: Config, s: State, s': State, a: Layout, a': Layout, v: int, w: int, b: int)
    requires Shape(c, s) && Shape(c, s') && |a'.chains| == c.nbuckets && 0 <= v < c.nworkers
    requires Placed(c, s, a) && LocksOk(c, s) && Linked(c, s.m, a)
    requires Footprint(c, s, s', a, a', v) && 0 <= w < c.nworkers && w != v
    requires 0 <= b < c.nbuckets && HasBucket(s.pcs[w], b)
    ensures a'.chains[b] == a.chains[b] && s'.m.heads[b] == s.m.heads[b]
    ensures forall k :: 0 <= k < |a.chains[b]| ==> SameNode(c, s, s', a.chains[b][k])
  {
    assert s.locks[b] == w;
    forall k | 0 <= k < |a.chains[b]|
      ensures SameNode(c, s, s', a.chains[b][k])
    {
      var n := a.chains[b][k];
      assert n in a.chains[b] && a.place[n] == InBucket(b);
    }
  }

  ghost predicate SameNode(c: Config, s: State, s': State, n: int)
    requires Shape(c, s) && Shape(c, s')
  {
    0 <= n < c.nstreams && s'.m.names[n] == s.m.names[n] && s'.m.slots[n] == s.m.slots[n] && s'.m.next[n] == s.m.next[n]
  }

  lemma HandUndisturbed(c: Config, s: State, s': State, a: Layout, a': Layout, v: int, w: int)
    requires Shape(c, s) && Shape(c, s') && |a'.chains| == c.nbuckets && 0 <= v < c.nworkers
    requires Placed(c, s, a) && LocksOk(c, s)
    requires Footprint(c, s, s', a, a', v) && 0 <= w < c.nworkers && w != v
    requires 0 <= Held(s.pcs[w]) < c.nstreams
    ensures SameNode(c, s, s', Held(s.pcs[w]))
  {
    assert a.place[Held(s.pcs[w])] == InHand(w);
  }

  lemma ScannedTransfers(m: Mem, m': Mem, chain: seq<int>, op: Op, w: int, cur: int, nxt: int)
    requires |m.names| == |m.slots| == |m'.names| == |m'.slots|
    requires forall k :: 0 <= k < |chain| ==>
               0 <= chain[k] < |m.names| && m'.names[chain[k]] == m.names[chain[k]]
                   && m'.slots[chain[k]] == m.slots[chain[k]]
    requires Scanned(m, chain, op, w, cur, nxt)
    ensures Scanned(m', chain, op, w, cur, nxt)
  {
    var j :| ScanAt(m, chain, op, w, cur, nxt, j);
    assert ScanAt(m', chain, op, w, cur, nxt, j);
  }

  /** Worker `v`'s step leaves every other worker's view intact. */
  lemma OthersUndisturbed(c: Config, s: State, s': State, a: Layout, a': Layout, v: int, w: int)
    requires Shape(c, s) && Shape(c, s') && |a'.chains| == c.nbuckets && 0 <= v < c.nworkers
    requires Placed(c, s, a) && LocksOk(c, s) && Linked(c, s.m, a)
    requires Footprint(c, s, s', a, a', v) && 0 <= w < c.nworkers && w != v
    requires LocalOk(c, s, a, w)
    ensures LocalOk(c, s', a', w)
  {
    hide IsChain;
    var pc := s.pcs[w];
    forall b | Swept(c, s, a, w, b) ensures Swept(c, s', a', w, b) {
      SweptUndisturbed(c, s, s', a, a', v, w, b);
    }
    if Held(pc) != -1 {
      HandUndisturbed(c, s, s', a, a', v, w);
    }
    if !pc.Idle? && !pc.Want? && !pc.Done? {
      var b := pc.b;
      BucketUndisturbed(c, s, s', a, a', v, w, b);
      if pc.Scan? && Scanned(s.m, a.chains[b], pc.op, w, pc.cur, pc.nxt) {
        ScannedTransfers(s.m, s'.m, a.chains[b], pc.op, w, pc.cur, pc.nxt);
      }
      if (pc.PutWant? || pc.PutNext? || pc.PutHead? || pc.PutCount? || pc.PutDone?)
        && Scanned(s.m, a.chains[b], pc.op, w, pc.cur, After(s.m, b, pc.cur)) {
        ScanCurInChain(s.m, a.chains[b], pc.op, w, pc.cur, After(s.m, b, pc.cur));
        assert After(s'.m, b, pc.cur) == After(s.m, b, pc.cur);
        ScannedTransfers(s.m, s'.m, a.chains[b], pc.op, w, pc.cur, After(s.m, b, pc.cur));
      }
    }
  }

  lemma ScanCurInChain(m: Mem, chain: seq<int>, op: Op, w: int, cur: int, nxt: int)
    requires |m.names| == |m.slots| && Scanned(m, chain, op, w, cur, nxt)
    ensures cur != -1 ==> cur in chain
  {
    var j :| ScanAt(m, chain, op, w, cur, nxt, j);
    if cur != -1 { assert chain[j-1] in chain; }
  }

  // ---------------------------------------------------------------- each step keeps the partition

  lemma DropMembers(next: seq<int>, head: int, chain: seq<int>, n: int)
    requires IsChain(next, head, chain) && n in chain
    ensures forall x :: x in Drop(chain, n) <==> x in chain && x != n
  {
    ChainIsAcyclic(next, head, chain);
    var k :| 0 <= k < |chain| && chain[k] == n && Drop(chain, n) == Without(chain, k);
    WithoutMembers(chain, k);
  }

  /** Unlinking the hit of a scan. */
  lemma UnlinkKeepsLinks(c: Config, m: Mem, a: Layout, op: Op, w: int, b: int, cur: int, nxt: int)
    requires |m.names| == |m.slots| == |m.next| == c.nstreams && |m.heads| == c.nbuckets
    requires Linked(c, m, a) && 0 <= b < c.nbuckets && -1 <= cur < c.nstreams && 0 <= nxt < c.nstreams
    requires Scanned(m, a.chains[b], op, w, cur, nxt)
    requires forall b' :: 0 <= b' < c.nbuckets && b' != b ==> (cur !in a.chains[b'])
    requires cur !in a.free
    ensures nxt in a.chains[b]
    ensures Linked(c, SetAfter(m, b, cur, m.next[nxt]), a.(chains := a.chains[b := Drop(a.chains[b], nxt)]))
  {
    var chain := a.chains[b];
    var j :| ScanAt(m, chain, op, w, cur, nxt, j);
    assert chain[j] == nxt;
    ChainIsAcyclic(m.next, m.heads[b], chain);
    var k :| 0 <= k < |chain| && chain[k] == nxt && Drop(chain, nxt) == Without(chain, k);
    assert k == j;
    ChainUnlink(m.next, m.heads[b], chain, j);
    if cur != -1 {
      assert chain[j-1] == cur;
      ChainFrame(m.next, m.free, a.free, cur, m.next[nxt]);
      forall b' | 0 <= b' < c.nbuckets && b' != b
        ensures IsChain(m.next[cur := m.next[nxt]], m.heads[b'], a.chains[b'])
      {
        ChainFrame(m.next, m.heads[b'], a.chains[b'], cur, m.next[nxt]);
      }
    }
  }

  /** Rewriting the link of a node in hand. */
  lemma HandWriteKeepsLinks(c: Config, s: State, a: Layout, w: int, v: int)
    requires Shape(c, s) && Linked(c, s.m, a) && Placed(c, s, a) && 0 <= w < c.nworkers
    requires 0 <= Held(s.pcs[w]) < c.nstreams
    ensures Linked(c, s.m.(next := s.m.next[Held(s.pcs[w]) := v]), a)
  {
    var n := Held(s.pcs[w]);
    assert a.place[n] == InHand(w);
    ChainFrame(s.m.next, s.m.free, a.free, n, v);
    forall b | 0 <= b < c.nbuckets ensures IsChain(s.m.next[n := v], s.m.heads[b], a.chains[b]) {
      ChainFrame(s.m.next, s.m.heads[b], a.chains[b], n, v);
    }
  }

  lemma StepKeepsLinks(c: Config, s: State, a: Layout, w: int)
    requires CanStep(c, s, w) && Partition(c, s, a) && LocalOk(c, s, a, w)
    ensures forall n :: n in a.free ==> 0 <= n < c.nstreams
    ensures Linked(c, Step(c, s, w).m, NextLayout(c, s, a, w))
  {
    var m := s.m;
    match s.pcs[w]
    case Scan(op, b, cur, nxt) =>
      if nxt != -1 && !op.Insert? && Hit(m, op, w, nxt) && m.slots[nxt] == w {
        ScanCurInChain(m, a.chains[b], op, w, cur, nxt);
        if cur != -1 { assert a.place[cur] == InBucket(b); }
        UnlinkKeepsLinks(c, m, a, op, w, b, cur, nxt);
      }
    case GetTake(op, b) =>
      if m.free != -1 {
        ChainTail(m.next, m.free, a.free, 1);
        assert m.next[a.free[0]] == At(a.free, 1);
      }
    case GetFill(op, b, n) => HandWriteKeepsLinks(c, s, a, w, -1);
    case LinkNext(op, b, n) => HandWriteKeepsLinks(c, s, a, w, m.heads[b]);
    case LinkHead(op, b, n) => ChainPush(m.next, m.heads[b], a.chains[b], n);
    case PutNext(op, b, cur, n) => HandWriteKeepsLinks(c, s, a, w, m.free);
    case PutHead(op, b, cur, n) => ChainPush(m.next, m.free, a.free, n);
    case _ =>
  }

  /** Node `n` changes lists, between the hand of `w` and a chain. */
  lemma MoveKeepsPlaces(c: Config, s: State, s': State, a: Layout, a': Layout, n: int, w: int)
    requires Shape(c, s) && Shape(c, s') && Placed(c, s, a) && 0 <= n < c.nstreams && 0 <= w < c.nworkers
    requires s'.pcs == s.pcs[w := s'.pcs[w]]
    requires |a'.chains| == c.nbuckets && |a'.place| == c.nstreams && a'.place == a.place[n := a'.place[n]]
    requires forall x :: x != n ==> (x in a'.free <==> x in a.free)
    requires forall b, x :: 0 <= b < c.nbuckets && x != n ==> (x in a'.chains[b] <==> x in a.chains[b])
    requires n in a'.free <==> a'.place[n] == Free
    requires forall b :: 0 <= b < c.nbuckets ==> (n in a'.chains[b] <==> a'.place[n] == InBucket(b))
    requires match a'.place[n]
             case Free => Held(s.pcs[w]) == n && Held(s'.pcs[w]) == -1
             case InBucket(b) => 0 <= b < c.nbuckets && Held(s.pcs[w]) == n && Held(s'.pcs[w]) == -1
             case InHand(v) => v == w && Held(s.pcs[w]) == -1 && Held(s'.pcs[w]) == n && !a.place[n].InHand?
    ensures Placed(c, s', a')
  {
    forall x, v | 0 <= x < c.nstreams && 0 <= v < c.nworkers
      ensures Held(s'.pcs[v]) == x <==> a'.place[x] == InHand(v)
    {
      assert Held(s.pcs[v]) == x <==> a.place[x] == InHand(v);
    }
  }

  lemma ChainNodes(c: Config, s: State, a: Layout)
    requires Shape(c, s) && Linked(c, s.m, a)
    ensures forall n :: n in a.free ==> 0 <= n < c.nstreams
    ensures forall b, k :: 0 <= b < c.nbuckets && 0 <= k < |a.chains[b]| ==>
              0 <= a.chains[b][k] < c.nstreams && a.chains[b][k] in a.chains[b]
  {
    forall b, k | 0 <= b < c.nbuckets && 0 <= k < |a.chains[b]|
      ensures 0 <= a.chains[b][k] < c.nstreams
    {
      assert IsChain(s.m.next, s.m.heads[b], a.chains[b]);
    }
  }

  lemma SamePlaces(c: Config, s: State, s': State, a: Layout, w: int)
    requires Shape(c, s) && Shape(c, s') && Placed(c, s, a) && 0 <= w < c.nworkers
    requires s'.pcs == s.pcs[w := s'.pcs[w]] && Held(s'.pcs[w]) == Held(s.pcs[w])
    ensures Placed(c, s', a)
  {
    forall x, v | 0 <= x < c.nstreams && 0 <= v < c.nworkers
      ensures Held(s'.pcs[v]) == x <==> a.place[x] == InHand(v)
    {
      assert Held(s.pcs[v]) == x <==> a.place[x] == InHand(v);
    }
  }

  predicate MovesNode(c: Config, s: State, w: int)
    requires CanStep(c, s, w)
  {
    match s.pcs[w]
    case Scan(op, b, cur, nxt) => nxt != -1 && !op.Insert? && Hit(s.m, op, w, nxt) && s.m.slots[nxt] == w
    case GetTake(op, b) => s.m.free != -1
    case LinkHead(op, b, n) => true
    case PutHead(op, b, cur, n) => true
    case _ => false
  }

  /** Most steps move no node. */
  lemma StaysPut(c: Config, s: State, a: Layout, w: int)
    requires CanStep(c, s, w) && |a.chains| == c.nbuckets && |a.place| == c.nstreams
    requires forall n :: n in a.free ==> 0 <= n < c.nstreams
    requires s.m.free == At(a.free, 0) && !MovesNode(c, s, w)
    ensures NextLayout(c, s, a, w) == a
    ensures Shape(c, Step(c, s, w))
    ensures Step(c, s, w).pcs == s.pcs[w := Step(c, s, w).pcs[w]]
    ensures Held(Step(c, s, w).pcs[w]) == Held(s.pcs[w])
    ensures Step(c, s, w).m.free == s.m.free && Step(c, s, w).m.heads == s.m.heads
  {
  }

  lemma UnlinkKeepsPlaces(c: Config, s: State, a: Layout, w: int)
    requires CanStep(c, s, w) && Partition(c, s, a) && LocalOk(c, s, a, w)
    requires s.pcs[w].Scan? && MovesNode(c, s, w)
    requires forall n :: n in a.free ==> 0 <= n < c.nstreams
    ensures Shape(c, Step(c, s, w))
    ensures Placed(c, Step(c, s, w), NextLayout(c, s, a, w))
  {
    var b, nxt := s.pcs[w].b, s.pcs[w].nxt;
    var j :| ScanAt(s.m, a.chains[b], s.pcs[w].op, w, s.pcs[w].cur, nxt, j);
    assert a.chains[b][j] == nxt && a.place[nxt] == InBucket(b);
    DropMembers(s.m.next, s.m.heads[b], a.chains[b], nxt);
    MoveKeepsPlaces(c, s, Step(c, s, w), a, NextLayout(c, s, a, w), nxt, w);
  }

  lemma TakeKeepsPlaces(c: Config, s: State, a: Layout, w: int)
    requires CanStep(c, s, w) && Partition(c, s, a)
    requires s.pcs[w].GetTake? && MovesNode(c, s, w)
    requires forall n :: n in a.free ==> 0 <= n < c.nstreams
    ensures Shape(c, Step(c, s, w))
    ensures Placed(c, Step(c, s, w), NextLayout(c, s, a, w))
  {
    ChainIsAcyclic(s.m.next, s.m.free, a.free);
    WithoutMembers(a.free, 0);
    assert Without(a.free, 0) == a.free[1..];
    assert a.free[0] in a.free;
    MoveKeepsPlaces(c, s, Step(c, s, w), a, NextLayout(c, s, a, w), s.m.free, w);
  }

  lemma PushKeepsPlaces(c: Config, s: State, a: Layout, w: int)
    requires CanStep(c, s, w) && Partition(c, s, a)
    requires s.pcs[w].LinkHead? || s.pcs[w].PutHead?
    requires forall n :: n in a.free ==> 0 <= n < c.nstreams
    ensures Shape(c, Step(c, s, w))
    ensures Placed(c, Step(c, s, w), NextLayout(c, s, a, w))
  {
    hide IsChain;
    var n, a' := s.pcs[w].n, NextLayout(c, s, a, w);
    assert a.place[n] == InHand(w) by { assert Held(s.pcs[w]) == n; }
    PushMembers(a.free, n);
    if s.pcs[w].LinkHead? {
      var b := s.pcs[w].b;
      PushMembers(a.chains[b], n);
      assert a'.chains == a.chains[b := [n] + a.chains[b]] && a'.free == a.free && a'.place[n] == InBucket(b);
    } else {
      assert a'.chains == a.chains && a'.free == [n] + a.free && a'.place[n] == Free;
    }
    MoveKeepsPlaces(c, s, Step(c, s, w), a, a', n, w);
  }

  lemma PushMembers(c: seq<int>, n: int)
    ensures forall x :: x in [n] + c <==> x == n || x in c
  {
  }

  lemma StepKeepsPlaces(c: Config, s: State, a: Layout, w: int)
    requires CanStep(c, s, w) && Partition(c, s, a) && LocalOk(c, s, a, w)
    requires forall n :: n in a.free ==> 0 <= n < c.nstreams
    ensures Shape(c, Step(c, s, w))
    ensures Placed(c, Step(c, s, w), NextLayout(c, s, a, w))
  {
    if !MovesNode(c, s, w) {
      StaysPut(c, s, a, w);
      SamePlaces(c, s, Step(c, s, w), a, w);
    } else if s.pcs[w].Scan? {
      UnlinkKeepsPlaces(c, s, a, w);
    } else if s.pcs[w].GetTake? {
      TakeKeepsPlaces(c, s, a, w);
    } else {
      PushKeepsPlaces(c, s, a, w);
    }
  }

  /** The links a step reads are indices of nodes, or the end mark. */
  lemma LinksInRange(c: Config, s: State, a: Layout)
    requires Shape(c, s) && Linked(c, s.m, a)
    ensures -1 <= s.m.free < c.nstreams
    ensures forall b :: 0 <= b < c.nbuckets ==> -1 <= s.m.heads[b] < c.nstreams
    ensures forall b, n :: 0 <= b < c.nbuckets && n in a.chains[b] ==>
             0 <= n < c.nstreams && -1 <= s.m.next[n] < c.nstreams
  {
    forall b | 0 <= b < c.nbuckets ensures -1 <= s.m.heads[b] < c.nstreams {
      assert IsChain(s.m.next, s.m.heads[b], a.chains[b]);
    }
    forall b, n | 0 <= b < c.nbuckets && n in a.chains[b]
      ensures 0 <= n < c.nstreams && -1 <= s.m.next[n] < c.nstreams
    {
      assert IsChain(s.m.next, s.m.heads[b], a.chains[b]);
      var k :| 0 <= k < |a.chains[b]| && a.chains[b][k] == n;
      assert s.m.next[a.chains[b][k]] == At(a.chains[b], k + 1);
    }
  }

  lemma NextPcOk(c: Config, s: State, a: Layout, w: int)
    requires c.Valid() && CanStep(c, s, w) && Linked(c, s.m, a) && LocalOk(c, s, a, w)
    ensures Shape(c, Step(c, s, w)) && PcOk(c, Step(c, s, w).pcs[w])
  {
    LinksInRange(c, s, a);
    NextPcInRange(c, s, w) by {
      var pc := s.pcs[w];
      match pc
      case Scan(op, b, cur, nxt) =>
        var j :| ScanAt(s.m, a.chains[b], op, w, cur, nxt, j);
        if nxt != -1 { assert a.chains[b][j] in a.chains[b]; }
      case PutDone(op, b, cur) =>
        if op.Clear? {
          ScanCurInChain(s.m, a.chains[b], op, w, cur, After(s.m, b, cur));
        }
      case _ =>
    }
  }

  lemma NextPcInRange(c: Config, s: State, w: int)
    requires c.Valid() && CanStep(c, s, w)
    requires match s.pcs[w]
             case Scan(op, b, cur, nxt) => nxt != -1 ==> -1 <= s.m.next[nxt] < c.nstreams
             case PutDone(op, b, cur) => op.Clear? ==> -1 <= After(s.m, b, cur) < c.nstreams
             case Want(op, b) => -1 <= s.m.heads[b] < c.nstreams
             case _ => true
    ensures Shape(c, Step(c, s, w)) && PcOk(c, Step(c, s, w).pcs[w])
  {
  }

  /** What a step does to the bucket locks and the mutex, against what the new program counter says it holds. */
  lemma StepLocks(c: Config, s: State, w: int)
    requires c.Valid() && CanStep(c, s, w)
    ensures var s' := Step(c, s, w); var pc, pc' := s.pcs[w], s'.pcs[w];
      && s'.pcs == s.pcs[w := pc']
      && (pc.Want? ==> pc'.Scan? && pc'.b == pc.b && s'.locks == s.locks[pc.b := w] && s'.mutex == s.mutex)
      && (pc.Release? ==> (pc'.Want? || pc'.Done?) && s'.locks == s.locks[pc.b := -1] && s'.mutex == s.mutex)
      && (!pc.Want? && !pc.Release? ==>
            !pc'.Idle? && !pc'.Want? && !pc'.Done? && pc'.b == pc.b && s'.locks == s.locks)
      && (!HasMutex(pc) && HasMutex(pc') ==> s.mutex == -1 && s'.mutex == w)
      && (HasMutex(pc) && !HasMutex(pc') ==> s'.mutex == -1)
      && (HasMutex(pc) == HasMutex(pc') ==> s'.mutex == s.mutex)
  {
  }

  lemma StepKeepsLocks(c: Config, s: State, w: int)
    requires c.Valid() && CanStep(c, s, w) && LocksOk(c, s)
    requires Shape(c, Step(c, s, w)) && PcOk(c, Step(c, s, w).pcs[w])
    ensures LocksOk(c, Step(c, s, w))
  {
    var s' := Step(c, s, w);
    StepLocks(c, s, w);
    KeepsLocks(c, s, s', w);
  }

  lemma KeepsLocks(c: Config, s: State, s': State, w: int)
    requires Shape(c, s) && Shape(c, s') && LocksOk(c, s) && 0 <= w < c.nworkers
    requires s'.pcs == s.pcs[w := s'.pcs[w]] && PcOk(c, s'.pcs[w]) && !s.pcs[w].Idle? && !s.pcs[w].Done?
    requires var pc, pc' := s.pcs[w], s'.pcs[w];
      && (pc.Want? ==>
            pc'.Scan? && pc'.b == pc.b && s.locks[pc.b] == -1 && s'.locks == s.locks[pc.b := w] && s'.mutex == s.mutex)
      && (pc.Release? ==> (pc'.Want? || pc'.Done?) && s'.locks == s.locks[pc.b := -1] && s'.mutex == s.mutex)
      && (!pc.Want? && !pc.Release? ==>
            !pc'.Idle? && !pc'.Want? && !pc'.Done? && pc'.b == pc.b && s'.locks == s.locks)
      && (!HasMutex(pc) && HasMutex(pc') ==> s.mutex == -1 && s'.mutex == w)
      && (HasMutex(pc) && !HasMutex(pc') ==> s'.mutex == -1)
      && (HasMutex(pc) == HasMutex(pc') ==> s'.mutex == s.mutex)
    ensures LocksOk(c, s')
  {
    forall v, b | 0 <= v < c.nworkers && 0 <= b < c.nbuckets
      ensures HasBucket(s'.pcs[v], b) <==> s'.locks[b] == v
    {
      assert HasBucket(s.pcs[v], b) <==> s.locks[b] == v;
      assert HasBucket(s.pcs[w], b) <==> s.locks[b] == w;
    }
  }

  lemma StepKeepsCount(c: Config, s: State, a: Layout, w: int)
    requires CanStep(c, s, w) && LocksOk(c, s) && Partition(c, s, a) && CountOk(c, s, a)
    ensures forall n :: n in a.free ==> 0 <= n < c.nstreams
    ensures CountOk(c, Step(c, s, w), NextLayout(c, s, a, w))
  {
  }

  /** A step that moves no node writes at most one link, of the node in hand. */
  lemma QuietFootprint(c: Config, s: State, a: Layout, w: int)
    requires CanStep(c, s, w) && Shape(c, Step(c, s, w)) && Placed(c, s, a) && s.m.free == At(a.free, 0)
    requires forall n :: n in a.free ==> 0 <= n < c.nstreams
    requires forall b, k :: 0 <= b < c.nbuckets && 0 <= k < |a.chains[b]| ==>
              0 <= a.chains[b][k] < c.nstreams && a.chains[b][k] in a.chains[b]
    requires !MovesNode(c, s, w)
    ensures Footprint(c, s, Step(c, s, w), a, a, w)
  {
    StaysPut(c, s, a, w);
    HandWrites(c, s, w);
    var s' := Step(c, s, w);
    forall b, k | 0 <= b < c.nbuckets && 0 <= k < |a.chains[b]| ensures OldOrOwn(c, s', a, w, b, a.chains[b][k]) {
    }
  }

  lemma HandWrites(c: Config, s: State, w: int)
    requires CanStep(c, s, w) && !MovesNode(c, s, w)
    ensures var m, m', n := s.m, Step(c, s, w).m, Held(s.pcs[w]);
      && |m'.names| == |m'.slots| == |m'.next| == c.nstreams
      && forall i :: 0 <= i < c.nstreams && i != n ==>
            m'.names[i] == m.names[i] && m'.slots[i] == m.slots[i] && m'.next[i] == m.next[i]
  {
  }

  lemma MoveFootprint(c: Config, s: State, a: Layout, w: int)
    requires CanStep(c, s, w) && Shape(c, Step(c, s, w)) && LocksOk(c, s) && Partition(c, s, a) && LocalOk(c, s, a, w)
    requires forall n :: n in a.free ==> 0 <= n < c.nstreams
    requires forall b, k :: 0 <= b < c.nbuckets && 0 <= k < |a.chains[b]| ==>
              0 <= a.chains[b][k] < c.nstreams && a.chains[b][k] in a.chains[b]
    requires MovesNode(c, s, w) && !s.pcs[w].Scan?
    ensures Footprint(c, s, Step(c, s, w), a, NextLayout(c, s, a, w), w)
  {
    var s', a' := Step(c, s, w), NextLayout(c, s, a, w);
    var b := s.pcs[w].b;
    assert HasBucket(s.pcs[w], b) <==> s.locks[b] == w;
    assert HasMutex(s.pcs[w]) <==> s.mutex == w;
    if s.pcs[w].LinkHead? {
      var n := s.pcs[w].n;
      forall k | 0 <= k < |a'.chains[b]| ensures OldOrOwn(c, s', a, w, b, a'.chains[b][k]) {
        if k > 0 { assert a'.chains[b][k] == a.chains[b][k-1]; }
      }
    }
    forall b', k | 0 <= b' < c.nbuckets && 0 <= k < |a'.chains[b']|
        ensures OldOrOwn(c, s', a, w, b', a'.chains[b'][k]) {
    }
  }

  lemma UnlinkFootprint(c: Config, s: State, a: Layout, w: int)
    requires CanStep(c, s, w) && Shape(c, Step(c, s, w)) && LocksOk(c, s) && Partition(c, s, a) && LocalOk(c, s, a, w)
    requires forall n :: n in a.free ==> 0 <= n < c.nstreams
    requires forall b, k :: 0 <= b < c.nbuckets && 0 <= k < |a.chains[b]| ==>
              0 <= a.chains[b][k] < c.nstreams && a.chains[b][k] in a.chains[b]
    requires MovesNode(c, s, w) && s.pcs[w].Scan?
    ensures Footprint(c, s, Step(c, s, w), a, NextLayout(c, s, a, w), w)
  {
    var s', a' := Step(c, s, w), NextLayout(c, s, a, w);
    var op, b, cur, nxt := s.pcs[w].op, s.pcs[w].b, s.pcs[w].cur, s.pcs[w].nxt;
    assert HasBucket(s.pcs[w], b) <==> s.locks[b] == w;
    ScanCurInChain(s.m, a.chains[b], op, w, cur, nxt);
    var j :| ScanAt(s.m, a.chains[b], op, w, cur, nxt, j);
    assert a.chains[b][j] == nxt;
    DropMembers(s.m.next, s.m.heads[b], a.chains[b], nxt);
    if cur != -1 { assert a.place[cur] == InBucket(b); }
    forall b', k | 0 <= b' < c.nbuckets && 0 <= k < |a'.chains[b']|
        ensures OldOrOwn(c, s', a, w, b', a'.chains[b'][k]) {
      assert a'.chains[b'][k] in a'.chains[b'];
    }
  }

  lemma StepHasFootprint(c: Config, s: State, a: Layout, w: int)
    requires CanStep(c, s, w) && Shape(c, Step(c, s, w)) && LocksOk(c, s) && Partition(c, s, a) && LocalOk(c, s, a, w)
    requires forall n :: n in a.free ==> 0 <= n < c.nstreams
    ensures Footprint(c, s, Step(c, s, w), a, NextLayout(c, s, a, w), w)
  {
    ChainNodes(c, s, a);
    if !MovesNode(c, s, w) {
      StaysPut(c, s, a, w);
      QuietFootprint(c, s, a, w);
    } else if s.pcs[w].Scan? {
      UnlinkFootprint(c, s, a, w);
    } else {
      MoveFootprint(c, s, a, w);
    }
  }

  // ---------------------------------------------------------------- the stepping worker's own view

  /** A scan that has met the end mark has met every node. */
  lemma ScanEnds(m: Mem, chain: seq<int>, op: Op, w: int, cur: int)
    requires |m.names| == |m.slots| && Scanned(m, chain, op, w, cur, -1)
    requires forall k :: 0 <= k < |chain| ==> 0 <= chain[k]
    ensures NoHit(m, chain, op, w)
  {
    var j :| ScanAt(m, chain, op, w, cur, -1, j);
  }

  lemma ScanAdvances(m: Mem, chain: seq<int>, op: Op, w: int, cur: int, nxt: int)
    requires |m.names| == |m.slots| && Scanned(m, chain, op, w, cur, nxt)
    requires 0 <= nxt < |m.names| && !Hit(m, op, w, nxt) && nxt < |m.next|
    requires exists head :: IsChain(m.next, head, chain)
    ensures Scanned(m, chain, op, w, nxt, m.next[nxt])
  {
    var j :| ScanAt(m, chain, op, w, cur, nxt, j);
    assert m.next[chain[j]] == At(chain, j + 1);
    assert ScanAt(m, chain, op, w, nxt, m.next[nxt], j + 1);
  }

  /** After an unlink the scan stands where it stood, in the shorter chain. */
  lemma ScanResumes(m: Mem, m': Mem, head: int, chain: seq<int>, op: Op, w: int, cur: int, nxt: int)
    requires |m.names| == |m.slots| == |m.next| && m'.names == m.names && m'.slots == m.slots
    requires Scanned(m, chain, op, w, cur, nxt) && nxt != -1 && IsChain(m.next, head, chain)
    ensures nxt in chain && 0 <= nxt < |m.next|
    ensures Scanned(m', Drop(chain, nxt), op, w, cur, m.next[nxt])
  {
    hide Hit, Drop;
    var j :| ScanAt(m, chain, op, w, cur, nxt, j);
    assert chain[j] == nxt;
    ChainIsAcyclic(m.next, head, chain);
    DropIs(chain, j);
    assert m.next[chain[j]] == At(chain, j + 1);
    ScanSkips(m, m', chain, op, w, cur, nxt, j);
  }

  lemma DropIs(chain: seq<int>, j: int)
    requires Distinct(chain) && 0 <= j < |chain|
    ensures Drop(chain, chain[j]) == Without(chain, j)
  {
    var k :| 0 <= k < |chain| && chain[k] == chain[j] && Drop(chain, chain[j]) == Without(chain, k);
    assert k == j;
  }

  lemma ScanSkips(m: Mem, m': Mem, chain: seq<int>, op: Op, w: int, cur: int, nxt: int, j: int)
    requires |m.names| == |m.slots| && m'.names == m.names && m'.slots == m.slots
    requires ScanAt(m, chain, op, w, cur, nxt, j) && j < |chain|
    ensures ScanAt(m', Without(chain, j), op, w, cur, At(chain, j + 1), j)
  {
    var d := Without(chain, j);
    assert At(d, j) == At(chain, j + 1) && At(d, j - 1) == At(chain, j - 1);
    forall i | 0 <= i < j ensures 0 <= d[i] < |m'.names| && !Hit(m', op, w, d[i]) { assert d[i] == chain[i]; }
  }

  /** Memory that differs only at the node in hand looks the same to every chain. */
  lemma HandIsElsewhere(c: Config, s: State, s': State, a: Layout, w: int)
    requires Shape(c, s) && Shape(c, s') && Partition(c, s, a) && 0 <= w < c.nworkers
    requires forall i :: 0 <= i < c.nstreams && i != Held(s.pcs[w]) ==>
               s'.m.names[i] == s.m.names[i] && s'.m.slots[i] == s.m.slots[i] && s'.m.next[i] == s.m.next[i]
    ensures forall b, k :: 0 <= b < c.nbuckets && 0 <= k < |a.chains[b]| ==> SameNode(c, s, s', a.chains[b][k])
  {
    ChainNodes(c, s, a);
    forall b, k | 0 <= b < c.nbuckets && 0 <= k < |a.chains[b]| ensures SameNode(c, s, s', a.chains[b][k]) {
      assert a.place[a.chains[b][k]] == InBucket(b);
    }
  }

  ghost predicate SameChains(c: Config, s: State, s': State, a: Layout)
    requires Shape(c, s) && Shape(c, s') && |a.chains| == c.nbuckets
  {
    forall b, k :: 0 <= b < c.nbuckets && 0 <= k < |a.chains[b]| ==> SameNode(c, s, s', a.chains[b][k])
  }

  lemma NoHitKept(c: Config, s: State, s': State, a: Layout, op: Op, w: int, b: int)
    requires Shape(c, s) && Shape(c, s') && |a.chains| == c.nbuckets && SameChains(c, s, s', a)
    requires 0 <= b < c.nbuckets && NoHit(s.m, a.chains[b], op, w)
    ensures NoHit(s'.m, a.chains[b], op, w)
  {
    forall k | 0 <= k < |a.chains[b]| ensures !Hit(s'.m, op, w, a.chains[b][k]) {
      assert SameNode(c, s, s', a.chains[b][k]);
    }
  }

  lemma SweptKept(c: Config, s: State, s': State, a: Layout, w: int, b: int)
    requires Shape(c, s) && Shape(c, s') && |a.chains| == c.nbuckets && SameChains(c, s, s', a)
    requires Swept(c, s, a, w, b)
    ensures Swept(c, s', a, w, b)
  {
    forall b' | 0 <= b' < b && b' < c.nbuckets ensures NoHit(s'.m, a.chains[b'], Clear, w) {
      NoHitKept(c, s, s', a, Clear, w, b');
    }
  }

  lemma ResumableKept(c: Config, s: State, s': State, a: Layout, w: int, op: Op, b: int, cur: int)
    requires Shape(c, s) && Shape(c, s') && |a.chains| == c.nbuckets && SameChains(c, s, s', a)
    requires 0 <= b < c.nbuckets && -1 <= cur < c.nstreams && s'.m.heads == s.m.heads
    requires Resumable(c, s, a, w, op, b, cur)
    ensures Resumable(c, s', a, w, op, b, cur)
  {
    SweptKept(c, s, s', a, w, b);
    var nxt := After(s.m, b, cur);
    ScanCurInChain(s.m, a.chains[b], op, w, cur, nxt);
    forall k | 0 <= k < |a.chains[b]|
      ensures var n := a.chains[b][k];
              0 <= n < c.nstreams && s'.m.names[n] == s.m.names[n] && s'.m.slots[n] == s.m.slots[n]
    {
      assert SameNode(c, s, s', a.chains[b][k]);
    }
    ScannedTransfers(s.m, s'.m, a.chains[b], op, w, cur, nxt);
    if cur != -1 {
      var k :| 0 <= k < |a.chains[b]| && a.chains[b][k] == cur;
      assert SameNode(c, s, s', a.chains[b][k]);
    }
  }

  lemma ScanKeepsOwn(c: Config, s: State, a: Layout, w: int)
    requires CanStep(c, s, w) && s.pcs[w].Scan? && Partition(c, s, a) && LocalOk(c, s, a, w)
    requires forall n :: n in a.free ==> 0 <= n < c.nstreams
    requires Shape(c, Step(c, s, w)) && PcOk(c, Step(c, s, w).pcs[w])
    requires |NextLayout(c, s, a, w).chains| == c.nbuckets
    ensures LocalOk(c, Step(c, s, w), NextLayout(c, s, a, w), w)
  {
    var Scan(op, b, cur, nxt) := s.pcs[w];
    var chain := a.chains[b];
    var s', a' := Step(c, s, w), NextLayout(c, s, a, w);
    ChainNodes(c, s, a);
    assert IsChain(s.m.next, s.m.heads[b], chain);
    if nxt == -1 {
      ScanEnds(s.m, chain, op, w, cur);
    } else if MovesNode(c, s, w) {
      ScanResumes(s.m, s'.m, s.m.heads[b], chain, op, w, cur, nxt);
      if op.Clear? {
        forall b' | 0 <= b' < b && b' < c.nbuckets ensures NoHit(s'.m, a'.chains[b'], Clear, w) {
          assert NoHit(s.m, a.chains[b'], Clear, w);
        }
      }
    } else if !Hit(s.m, op, w, nxt) {
      ScanAdvances(s.m, chain, op, w, cur, nxt);
    }
  }

  lemma StepKeepsOwn(c: Config, s: State, a: Layout, w: int)
    requires CanStep(c, s, w) && !s.pcs[w].Scan? && Partition(c, s, a) && LocalOk(c, s, a, w)
    requires forall n :: n in a.free ==> 0 <= n < c.nstreams
    requires Shape(c, Step(c, s, w)) && PcOk(c, Step(c, s, w).pcs[w])
    requires |NextLayout(c, s, a, w).chains| == c.nbuckets
    ensures LocalOk(c, Step(c, s, w), NextLayout(c, s, a, w), w)
  {
    var s' := Step(c, s, w);
    assert SameChains(c, s, s', a) by {
      HandOnly(c, s, w);
      HandIsElsewhere(c, s, s', a, w);
    }
    var pc := s.pcs[w];
    if pc.PutWant? || pc.PutNext? || pc.PutHead? || pc.PutCount? || pc.PutDone? {
      PutKeepsOwn(c, s, a, w);
    } else if pc.Want? || pc.Release? || pc.LinkHead? {
      EdgeKeepsOwn(c, s, a, w);
    } else {
      GetKeepsOwn(c, s, a, w);
    }
  }

  lemma EdgeKeepsOwn(c: Config, s: State, a: Layout, w: int)
    requires CanStep(c, s, w) && Partition(c, s, a) && LocalOk(c, s, a, w)
    requires s.pcs[w].Want? || s.pcs[w].Release? || s.pcs[w].LinkHead?
    requires forall n :: n in a.free ==> 0 <= n < c.nstreams
    requires Shape(c, Step(c, s, w)) && PcOk(c, Step(c, s, w).pcs[w])
    requires SameChains(c, s, Step(c, s, w), a) && |NextLayout(c, s, a, w).chains| == c.nbuckets
    ensures LocalOk(c, Step(c, s, w), NextLayout(c, s, a, w), w)
  {
    var s' := Step(c, s, w);
    match s.pcs[w]
    case Want(op, b) =>
      assert IsChain(s.m.next, s.m.heads[b], a.chains[b]);
      assert ScanAt(s'.m, a.chains[b], op, w, -1, s.m.heads[b], 0);
      if op.Clear? { SweptKept(c, s, s', a, w, b); }
    case Release(op, b, res) => if op.Clear? { SweptKept(c, s, s', a, w, b + 1); }
    case LinkHead(op, b, n) =>
  }

  lemma GetKeepsOwn(c: Config, s: State, a: Layout, w: int)
    requires CanStep(c, s, w) && Partition(c, s, a) && LocalOk(c, s, a, w)
    requires var pc := s.pcs[w];
             pc.GetWant? || pc.GetTake? || pc.GetFill? || pc.GetCount? || pc.GetDone? || pc.LinkNext?
    requires forall n :: n in a.free ==> 0 <= n < c.nstreams
    requires Shape(c, Step(c, s, w)) && PcOk(c, Step(c, s, w).pcs[w])
    requires SameChains(c, s, Step(c, s, w), a) && |NextLayout(c, s, a, w).chains| == c.nbuckets
    ensures LocalOk(c, Step(c, s, w), NextLayout(c, s, a, w), w)
  {
    var s' := Step(c, s, w);
    var op, b := s.pcs[w].op, s.pcs[w].b;
    if NoHit(s.m, a.chains[b], op, w) { NoHitKept(c, s, s', a, op, w, b); }
    assert op.name[..|op.name|] == op.name;
  }

  lemma PutKeepsOwn(c: Config, s: State, a: Layout, w: int)
    requires CanStep(c, s, w) && Partition(c, s, a) && LocalOk(c, s, a, w)
    requires var pc := s.pcs[w]; pc.PutWant? || pc.PutNext? || pc.PutHead? || pc.PutCount? || pc.PutDone?
    requires forall n :: n in a.free ==> 0 <= n < c.nstreams
    requires Shape(c, Step(c, s, w)) && PcOk(c, Step(c, s, w).pcs[w])
    requires SameChains(c, s, Step(c, s, w), a) && |NextLayout(c, s, a, w).chains| == c.nbuckets
    ensures LocalOk(c, Step(c, s, w), NextLayout(c, s, a, w), w)
  {
    var pc := s.pcs[w];
    if pc.op.Clear? { ResumableKept(c, s, Step(c, s, w), a, w, pc.op, pc.b, pc.cur); }
  }

  lemma HandOnly(c: Config, s: State, w: int)
    requires CanStep(c, s, w) && !s.pcs[w].Scan?
    ensures var m, m', n := s.m, Step(c, s, w).m, Held(s.pcs[w]);
      && |m'.names| == |m'.slots| == |m'.next| == c.nstreams
      && forall i :: 0 <= i < c.nstreams && i != n ==>
            m'.names[i] == m.names[i] && m'.slots[i] == m.slots[i] && m'.next[i] == m.next[i]
  {
  }

  // ---------------------------------------------------------------- the invariant of every run

  lemma WorkKeepsInv(c: Config, s: State, a: Layout, w: int)
    requires Inv(c, s, a) && CanStep(c, s, w)
    ensures forall n :: n in a.free ==> 0 <= n < c.nstreams
    ensures Inv(c, Step(c, s, w), NextLayout(c, s, a, w))
  {
    ChainNodes(c, s, a);
    var s', a' := Step(c, s, w), NextLayout(c, s, a, w);
    NextPcOk(c, s, a, w);
    StepKeepsLinks(c, s, a, w);
    StepKeepsPlaces(c, s, a, w);
    StepKeepsLocks(c, s, w);
    StepKeepsCount(c, s, a, w);
    StepHasFootprint(c, s, a, w);
    forall v | 0 <= v < c.nworkers ensures LocalOk(c, s', a', v) {
      assert LocalOk(c, s, a, v);
      if v != w {
        OthersUndisturbed(c, s, s', a, a', w, v);
      } else if s.pcs[w].Scan? {
        ScanKeepsOwn(c, s, a, w);
      } else {
        StepKeepsOwn(c, s, a, w);
      }
    }
  }

  lemma CallOrReturnKeepsLocks(c: Config, s: State, s': State, w: int)
    requires Shape(c, s) && Shape(c, s') && LocksOk(c, s) && 0 <= w < c.nworkers
    requires s' == s.(pcs := s.pcs[w := s'.pcs[w]]) && PcOk(c, s'.pcs[w])
    requires s.pcs[w].Idle? || s.pcs[w].Done?
    requires s'.pcs[w].Idle? || s'.pcs[w].Done? || s'.pcs[w].Want?
    ensures LocksOk(c, s')
  {
    forall v, b | 0 <= v < c.nworkers && 0 <= b < c.nbuckets
      ensures HasBucket(s'.pcs[v], b) <==> s'.locks[b] == v
    {
      assert HasBucket(s.pcs[v], b) <==> s.locks[b] == v;
    }
    assert s.mutex != w;
  }

  lemma CallOrReturnKeepsInv(c: Config, s: State, a: Layout, e: Event)
    requires Inv(c, s, a) && Enabled(c, s, e) && !e.Work?
    ensures Inv(c, Apply(c, s, e), a)
  {
    var s' := Apply(c, s, e);
    var w := e.w;
    CallOrReturnKeepsLocks(c, s, s', w);
    assert s.mutex != w by { assert HasMutex(s.pcs[w]) <==> s.mutex == w; }
    SamePlaces(c, s, s', a, w);
    forall v | 0 <= v < c.nworkers ensures LocalOk(c, s', a, v) {
      assert LocalOk(c, s, a, v);
      if v != w { SameView(c, s, s', a, v); }
    }
  }

  lemma SameView(c: Config, s: State, s': State, a: Layout, v: int)
    requires Shape(c, s) && Shape(c, s') && |a.chains| == c.nbuckets && 0 <= v < c.nworkers && PcOk(c, s.pcs[v])
    requires s'.m == s.m && s'.pcs[v] == s.pcs[v] && LocalOk(c, s, a, v)
    ensures LocalOk(c, s', a, v)
  {
    forall b | Swept(c, s, a, v, b) ensures Swept(c, s', a, v, b) {}
  }

  // ---------------------------------------------------------------- the zone at start

  function InitMem(c: Config): Mem
    requires c.nbuckets > 0 && c.nstreams > 0
  {
    Mem(seq(c.nstreams, i => []), seq(c.nstreams, i => -1),
        seq(c.nstreams, i => if i + 1 < c.nstreams then i + 1 else -1),
        seq(c.nbuckets, i => -1), 0, 0)
  }

  function InitState(c: Config): State
    requires c.nbuckets > 0 && c.nstreams > 0 && c.nworkers >= 0
  {
    State(InitMem(c), seq(c.nbuckets, i => -1), -1, seq(c.nworkers, i => Idle))
  }

  function InitLayout(c: Config): Layout
    requires c.nbuckets > 0 && c.nstreams > 0
  {
    Layout(seq(c.nstreams, i => i), seq(c.nbuckets, i => []), seq(c.nstreams, i => Free))
  }

  lemma InitInv(c: Config)
    requires c.Valid()
    ensures Inv(c, InitState(c), InitLayout(c))
  {
    var s, a := InitState(c), InitLayout(c);
    forall n | 0 <= n < c.nstreams ensures n in a.free {
      assert a.free[n] == n;
    }
    forall k | 0 <= k < |a.free| ensures 0 <= a.free[k] < c.nstreams && s.m.next[a.free[k]] == At(a.free, k + 1) {
    }
  }

  /** The loop of shm_init: nodes are chained from the last one down. */
  method ShmInit(c: Config) returns (m: Mem)
    requires c.nbuckets > 0 && c.nstreams > 0
    ensures m == InitMem(c)
  {
    var heads := new int[c.nbuckets];
    for i := 0 to c.nbuckets
      invariant forall k :: 0 <= k < i ==> heads[k] == -1
    {
      heads[i] := -1;
    }
    var names := new seq<Byte>[c.nstreams](_ => []);
    var slots := new int[c.nstreams];
    var next := new int[c.nstreams];
    var nxt, i := -1, c.nstreams;
    while i > 0
      invariant 0 <= i <= c.nstreams
      invariant nxt == if i < c.nstreams then i else -1
      invariant forall k :: 0 <= k < c.nstreams ==> names[k] == []
      invariant forall k :: 0 <= k < c.nbuckets ==> heads[k] == -1
      invariant forall k :: i <= k < c.nstreams ==>
                  slots[k] == -1 && next[k] == if k + 1 < c.nstreams then k + 1 else -1
    {
      i := i - 1;
      slots[i] := -1;
      next[i] := nxt;
      nxt := i;
    }
    m := Mem(names[..], slots[..], next[..], heads[..], i, 0);
  }

  // ---------------------------------------------------------------- every run

  ghost predicate Legal(c: Config, s: State, run: seq<Event>)
    requires c.Valid()
    decreases |run|
  {
    run == [] || (Enabled(c, s, run[0]) && Legal(c, Apply(c, s, run[0]), run[1..]))
  }

  function Outcome(c: Config, s: State, run: seq<Event>): State
    requires c.Valid() && Legal(c, s, run)
    decreases |run|
  {
    if run == [] then s else Outcome(c, Apply(c, s, run[0]), run[1..])
  }

  lemma {:induction false} RunKeepsInv(c: Config, s: State, a: Layout, run: seq<Event>) returns (a': Layout)
    requires Inv(c, s, a) && Legal(c, s, run)
    ensures Inv(c, Outcome(c, s, run), a')
    decreases |run|
  {
    if run == [] {
      a' := a;
    } else {
      if run[0].Work? {
        WorkKeepsInv(c, s, a, run[0].w);
        a' := RunKeepsInv(c, Step(c, s, run[0].w), NextLayout(c, s, a, run[0].w), run[1..]);
      } else {
        CallOrReturnKeepsInv(c, s, a, run[0]);
        a' := RunKeepsInv(c, Apply(c, s, run[0]), a, run[1..]);
      }
    }
  }

  /**
   Under every interleaving: the free chain, the bucket chains and the nodes in
   hand partition the zone, no chain has a cycle, and whenever the mutex is free
   `alloc` is the number of nodes not on the free chain.
   */
  lemma AlwaysPartitioned(c: Config, run: seq<Event>) returns (a: Layout)
    requires c.Valid() && Legal(c, InitState(c), run)
    ensures Shape(c, Outcome(c, InitState(c), run))
    ensures Partition(c, Outcome(c, InitState(c), run), a)
    ensures Distinct(a.free) && forall b :: 0 <= b < c.nbuckets ==> Distinct(a.chains[b])
    ensures Outcome(c, InitState(c), run).mutex == -1 ==>
              Outcome(c, InitState(c), run).m.alloc == c.nstreams - |a.free|
  {
    InitInv(c);
    a := RunKeepsInv(c, InitState(c), InitLayout(c), run);
    var s := Outcome(c, InitState(c), run);
    ChainIsAcyclic(s.m.next, s.m.free, a.free);
    forall b | 0 <= b < c.nbuckets ensures Distinct(a.chains[b]) {
      ChainIsAcyclic(s.m.next, s.m.heads[b], a.chains[b]);
    }
  }

  /** The lists are not a matter of choice: the shared memory determines them. */
  lemma LayoutIsTheMemory(c: Config, s: State, a: Layout, a': Layout)
    requires Shape(c, s) && Partition(c, s, a) && Partition(c, s, a')
    ensures a == a'
  {
    ChainIsUnique(s.m.next, s.m.free, a.free, a'.free);
    forall b | 0 <= b < c.nbuckets ensures a.chains[b] == a'.chains[b] {
      ChainIsUnique(s.m.next, s.m.heads[b], a.chains[b], a'.chains[b]);
    }
    assert a.chains == a'.chains;
    forall n | 0 <= n < c.nstreams ensures a.place[n] == a'.place[n] {
      match a.place[n]
      case Free =>
      case InBucket(b) => assert n in a.chains[b];
      case InHand(w) => assert Held(s.pcs[w]) == n;
    }
    assert a.place == a'.place;
  }

  // ---------------------------------------------------------------- progress

  /** Locks are taken in one order, so somebody inside a call can always move. */
  lemma NoDeadlock(c: Config, s: State, a: Layout, w: int) returns (v: int)
    requires Inv(c, s, a) && 0 <= w < c.nworkers && !s.pcs[w].Idle? && !s.pcs[w].Done?
    ensures CanStep(c, s, v)
  {
    LinksInRange(c, s, a);
    if s.mutex != -1 {
      v := s.mutex;
      assert HasMutex(s.pcs[v]);
    } else {
      v := w;
      if s.pcs[w].Want? && s.locks[s.pcs[w].b] != -1 {
        v := s.locks[s.pcs[w].b];
        assert HasBucket(s.pcs[v], s.pcs[w].b);
      }
    }
  }

  /** What is still ahead of a worker in its bucket: nodes to pass, then lock and list work. */
  ghost function Ahead(a: Layout, pc: Pc): int {
    match pc
    case Scan(op, b, cur, nxt) =>
      if 0 <= b < |a.chains| then 12 * Rest(a.chains[b], nxt) + 11 else 0
    case PutWant(op, b, cur, n) => PutAhead(a, op, b, cur) + 6
    case PutNext(op, b, cur, n) => PutAhead(a, op, b, cur) + 5
    case PutHead(op, b, cur, n) => PutAhead(a, op, b, cur) + 4
    case PutCount(op, b, cur) => PutAhead(a, op, b, cur) + 3
    case PutDone(op, b, cur) => PutAhead(a, op, b, cur) + 2
    case GetWant(op, b) => 10
    case GetTake(op, b) => 9
    case GetFill(op, b, n) => 8
    case GetCount(op, b, n) => 7
    case GetDone(op, b, n) => 6
    case LinkNext(op, b, n) => 5
    case LinkHead(op, b, n) => 4
    case Release(op, b, res) => 1
    case _ => 0
  }

  ghost function PutAhead(a: Layout, op: Op, b: int, cur: int): int {
    if op.Clear? && 0 <= b < |a.chains| then 12 * RestAfter(a.chains[b], cur) + 12 else 0
  }

  /** How many chain members are not before `n`. */
  ghost function Rest(chain: seq<int>, n: int): int {
    if n in chain then var k :| 0 <= k < |chain| && chain[k] == n; |chain| - k else 0
  }

  /** How many chain members come after `cur`. */
  ghost function RestAfter(chain: seq<int>, cur: int): int {
    if cur == -1 then |chain| else if cur in chain then Rest(chain, cur) - 1 else 0
  }

  lemma RestIs(m: Mem, head: int, chain: seq<int>, op: Op, w: int, cur: int, nxt: int, j: int)
    requires |m.names| == |m.slots| && IsChain(m.next, head, chain) && ScanAt(m, chain, op, w, cur, nxt, j)
    ensures Rest(chain, nxt) == |chain| - j == RestAfter(chain, cur)
  {
    ChainIsAcyclic(m.next, head, chain);
    if j < |chain| { assert chain[j] in chain; }
    if j > 0 { assert chain[j-1] in chain; }
  }

  lemma RestPasses(c: Config, s: State, a: Layout, w: int)
    requires CanStep(c, s, w) && s.pcs[w].Scan? && !MovesNode(c, s, w) && Partition(c, s, a) && LocalOk(c, s, a, w)
    requires s.pcs[w].nxt != -1 && !Hit(s.m, s.pcs[w].op, w, s.pcs[w].nxt)
    ensures 0 <= s.pcs[w].nxt < c.nstreams
    ensures Rest(a.chains[s.pcs[w].b], s.m.next[s.pcs[w].nxt]) == Rest(a.chains[s.pcs[w].b], s.pcs[w].nxt) - 1 >= 0
  {
    var Scan(op, b, cur, nxt) := s.pcs[w];
    var chain := a.chains[b];
    assert IsChain(s.m.next, s.m.heads[b], chain);
    var j :| ScanAt(s.m, chain, op, w, cur, nxt, j);
    RestIs(s.m, s.m.heads[b], chain, op, w, cur, nxt, j);
    assert s.m.next[chain[j]] == At(chain, j + 1);
    RestIs(s.m, s.m.heads[b], chain, op, w, nxt, s.m.next[nxt], j + 1);
  }

  lemma RestShrinks(c: Config, s: State, a: Layout, w: int)
    requires CanStep(c, s, w) && s.pcs[w].Scan? && MovesNode(c, s, w) && Partition(c, s, a) && LocalOk(c, s, a, w)
    ensures s.pcs[w].nxt in a.chains[s.pcs[w].b]
    ensures RestAfter(Drop(a.chains[s.pcs[w].b], s.pcs[w].nxt), s.pcs[w].cur) == Rest(a.chains[s.pcs[w].b],
             s.pcs[w].nxt) - 1 >= 0
  {
    var Scan(op, b, cur, nxt) := s.pcs[w];
    var chain := a.chains[b];
    var m, m' := s.m, Step(c, s, w).m;
    ChainNodes(c, s, a);
    ScanCurInChain(m, chain, op, w, cur, nxt);
    if cur != -1 { assert a.place[cur] == InBucket(b); }
    UnlinkKeepsLinks(c, m, a, op, w, b, cur, nxt);
    assert IsChain(m'.next, m'.heads[b], a.(chains := a.chains[b := Drop(chain, nxt)]).chains[b]);
    ScanResumes(m, m', m.heads[b], chain, op, w, cur, nxt);
    var j :| ScanAt(m, chain, op, w, cur, nxt, j);
    RestIs(m, m.heads[b], chain, op, w, cur, nxt, j);
    ChainIsAcyclic(m.next, m.heads[b], chain);
    var j' :| ScanAt(m', Drop(chain, nxt), op, w, cur, m.next[nxt], j');
    RestIs(m', m'.heads[b], Drop(chain, nxt), op, w, cur, m.next[nxt], j');
    assert |Drop(chain, nxt)| == |chain| - 1;
    assert j == j' by {
      if j > 0 && j' > 0 { DropBefore(chain, nxt, j, j'); }
    }
  }

  lemma DropBefore(chain: seq<int>, n: int, j: int, j': int)
    requires Distinct(chain) && 0 < j < |chain| && chain[j] == n && 0 < j' <= |Drop(chain, n)|
    requires chain[j-1] == Drop(chain, n)[j'-1]
    ensures j == j'
  {
    var k :| 0 <= k < |chain| && chain[k] == n && Drop(chain, n) == Without(chain, k);
    assert k == j;
    assert Drop(chain, n)[j'-1] == chain[if j' - 1 < j then j' - 1 else j'];
  }

  /** Inside its bucket a worker makes progress with each step, though it relinks the chain it walks. */
  lemma WorkGetsDone(c: Config, s: State, a: Layout, w: int)
    requires Inv(c, s, a) && CanStep(c, s, w) && !s.pcs[w].Want? && !s.pcs[w].Release?
    ensures forall n :: n in a.free ==> 0 <= n < c.nstreams
    ensures 0 <= Ahead(NextLayout(c, s, a, w), Step(c, s, w).pcs[w]) < Ahead(a, s.pcs[w])
  {
    ChainNodes(c, s, a);
    assert LocalOk(c, s, a, w);
    if s.pcs[w].Scan? {
      ScanGetsDone(c, s, a, w);
    } else {
      OtherWorkGetsDone(c, s, a, w);
    }
  }

  lemma ScanGetsDone(c: Config, s: State, a: Layout, w: int)
    requires CanStep(c, s, w) && s.pcs[w].Scan? && Partition(c, s, a) && LocalOk(c, s, a, w)
    requires forall n :: n in a.free ==> 0 <= n < c.nstreams
    ensures 0 <= Ahead(NextLayout(c, s, a, w), Step(c, s, w).pcs[w]) < Ahead(a, s.pcs[w])
  {
    var Scan(op, b, cur, nxt) := s.pcs[w];
    var j :| ScanAt(s.m, a.chains[b], op, w, cur, nxt, j);
    assert IsChain(s.m.next, s.m.heads[b], a.chains[b]);
    RestIs(s.m, s.m.heads[b], a.chains[b], op, w, cur, nxt, j);
    if MovesNode(c, s, w) {
      RestShrinks(c, s, a, w);
    } else if nxt != -1 && !Hit(s.m, op, w, nxt) {
      RestPasses(c, s, a, w);
    }
  }

  lemma OtherWorkGetsDone(c: Config, s: State, a: Layout, w: int)
    requires CanStep(c, s, w) && !s.pcs[w].Scan? && !s.pcs[w].Want? && !s.pcs[w].Release?
    requires Partition(c, s, a) && LocalOk(c, s, a, w)
    requires forall n :: n in a.free ==> 0 <= n < c.nstreams
    ensures 0 <= Ahead(NextLayout(c, s, a, w), Step(c, s, w).pcs[w]) < Ahead(a, s.pcs[w])
  {
    hide IsChain, At;
    var pc := s.pcs[w];
    if pc.PutDone? && pc.op.Clear? {
      var b, cur, nxt := pc.b, pc.cur, After(s.m, pc.b, pc.cur);
      var j :| ScanAt(s.m, a.chains[b], pc.op, w, cur, nxt, j);
      assert IsChain(s.m.next, s.m.heads[b], a.chains[b]);
      RestIs(s.m, s.m.heads[b], a.chains[b], pc.op, w, cur, nxt, j);
    } else if pc.PutWant? || pc.PutNext? || pc.PutHead? || pc.PutCount? {
      if pc.op.Clear? {
        var b, cur, nxt := pc.b, pc.cur, After(s.m, pc.b, pc.cur);
        var j :| ScanAt(s.m, a.chains[b], pc.op, w, cur, nxt, j);
        assert IsChain(s.m.next, s.m.heads[b], a.chains[b]);
        RestIs(s.m, s.m.heads[b], a.chains[b], pc.op, w, cur, nxt, j);
      }
    }
  }

  /** ... and nobody else can push it back. */
  lemma OthersDoNotDelay(c: Config, s: State, a: Layout, v: int, w: int)
    requires Inv(c, s, a) && CanStep(c, s, v) && 0 <= w < c.nworkers && w != v
    requires !s.pcs[w].Idle? && !s.pcs[w].Want? && !s.pcs[w].Done?
    ensures forall n :: n in a.free ==> 0 <= n < c.nstreams
    ensures Step(c, s, v).pcs[w] == s.pcs[w]
    ensures Ahead(NextLayout(c, s, a, v), s.pcs[w]) == Ahead(a, s.pcs[w])
  {
    WorkKeepsInv(c, s, a, v);
    StepHasFootprint(c, s, a, v);
    BucketUndisturbed(c, s, Step(c, s, v), a, NextLayout(c, s, a, v), v, w, s.pcs[w].b);
  }
}
