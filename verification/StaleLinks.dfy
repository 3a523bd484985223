/**
 Giving entries back along their links when the last link was not cleared. The
 entries in use are still linked by an earlier, refused configuration, so the
 walk goes on: to an entry that nobody meant to give back, or to one that has
 been given back already, and from there down the chain of free entries.
 */
module StaleLinks {
  import opened Bytes
  import opened Chains
  import opened StaticEntries

  // ---------------------------------------------------------------- free chains without an end

  /** A set of entries that the links from the first free one do not leave. */
  ghost predicate Trapped(e: Entries, ring: set<int>) {
    e.free in ring && forall i :: i in ring ==> 0 <= i < |e.next| && e.next[i] in ring
  }

  /** The free entries are linked in a circle. */
  ghost predicate Circular(e: Entries) {
    exists ring :: Trapped(e, ring)
  }

  lemma {:induction false} StaysInRing(e: Entries, ring: set<int>, fc: seq<int>, k: nat)
    requires Trapped(e, ring) && IsChain(e.next, e.free, fc) && k <= |fc|
    ensures At(fc, k) in ring
  {
    if k > 0 {
      StaysInRing(e, ring, fc, k - 1);
      assert e.next[fc[k-1]] == At(fc, k);
    }
  }

  /** Then they are no chain. */
  lemma CircularIsNoChain(e: Entries, fc: seq<int>)
    requires Circular(e)
    ensures !FreeOk(e, fc)
  {
    if FreeOk(e, fc) {
      var ring :| Trapped(e, ring);
      StaysInRing(e, ring, fc, |fc|);
    }
  }

  /** Giving back one more does not help. */
  lemma CircularStays(e: Entries, n: int)
    requires Circular(e) && 0 <= n < |e.next|
    ensures Circular(PutBack(e, n))
  {
    var ring :| Trapped(e, ring);
    assert Trapped(PutBack(e, n), ring + {n});
  }

  /** Giving back a free entry closes the circle. */
  lemma PutTwice(e: Entries, fc: seq<int>, n: int)
    requires IsChain(e.next, e.free, fc) && n in fc
    ensures 0 <= n < |e.next| && Circular(PutBack(e, n))
  {
    ChainIsAcyclic(e.next, e.free, fc);
    var k :| 0 <= k < |fc| && fc[k] == n;
    var ring := set i | 0 <= i <= k :: fc[i];
    var r := PutBack(e, n);
    forall x | x in ring ensures 0 <= x < |r.next| && r.next[x] in ring {
      var i :| 0 <= i <= k && fc[i] == x;
      if i < k {
        assert e.next[fc[i]] == At(fc, i + 1) == fc[i+1];
      } else {
        assert r.next[x] == fc[0];
      }
    }
    assert Trapped(r, ring);
  }

  // ---------------------------------------------------------------- where links lead

  /** The links of entries in use lead nowhere, or to entries in use. */
  ghost predicate Inward(e: Entries, m: map<Name, int>) {
    forall s :: s in m && 0 <= m[s] < |e.next| ==> e.next[m[s]] == -1 || EntryOf(e, m, e.next[m[s]])
  }

  lemma UnlinkedInward(e: Entries, m: map<Name, int>)
    requires Unlinked(e, m)
    ensures Inward(e, m)
  {
  }

  /** Linking keeps it so. */
  lemma ChainedInward(e: Entries, was: Entries, fc: seq<int>, m: map<Name, int>, streams: seq<Name>)
    requires Chained(e, was.next, Common(streams, m), m) && |e.stream| == |e.next| && MapOk(e, fc, m)
    requires Inward(was, m) && forall s :: s in m ==> 0 <= m[s] < |was.next|
    ensures Inward(e, m)
  {
    hide Common;
    var c := Common(streams, m);
    forall s | s in m ensures e.next[m[s]] == -1 || EntryOf(e, m, e.next[m[s]]) {
      if m[s] in c {
        var k :| 0 <= k < |c| && c[k] == m[s];
        if k < |c| - 1 {
          CommonIn(streams, m, k + 1);
          var t :| t in streams && t in m && m[t] == c[k+1];
          assert e.stream[m[t]] == t;
        } else {
          OldLink(e, was, fc, m, s);
        }
      } else {
        OldLink(e, was, fc, m, s);
      }
    }
  }

  lemma OldLink(e: Entries, was: Entries, fc: seq<int>, m: map<Name, int>, s: Name)
    requires |e.stream| == |e.next| && MapOk(e, fc, m) && Inward(was, m)
    requires s in m && 0 <= m[s] < |was.next| && m[s] < |e.next| && e.next[m[s]] == was.next[m[s]]
    ensures e.next[m[s]] == -1 || EntryOf(e, m, e.next[m[s]])
  {
    var x := was.next[m[s]];
    if x != -1 { assert e.stream[m[was.stream[x]]] == was.stream[x]; }
  }

  ghost predicate InUse(e: Entries, m: map<Name, int>, common: seq<int>) {
    forall k :: 0 <= k < |common| ==> EntryOf(e, m, common[k])
  }

  lemma InUsePlaces(e: Entries, m: map<Name, int>, common: seq<int>)
    requires InUse(e, m, common)
    ensures forall k :: 0 <= k < |common| ==> 0 <= common[k] < |e.stream|
  {
    forall k | 0 <= k < |common| ensures 0 <= common[k] < |e.stream| { assert EntryOf(e, m, common[k]); }
  }

  /** The link of the last entry that stays: where the walk goes on. */
  function Beyond(e: Entries, common: seq<int>): int {
    if common != [] && 0 <= common[|common|-1] < |e.next| then e.next[common[|common|-1]] else -1
  }

  /** The last entry that stays has a link already. */
  ghost predicate Stale(e: Entries, m: map<Name, int>, streams: seq<Name>) {
    Beyond(e, Common(streams, m)) != -1
  }

  /** What collecting has laid out for the walk. */
  lemma CollectedLinks(e: Entries, fc: seq<int>, m: map<Name, int>, w: map<Name, int>, was: Entries,
                       streams: seq<Name>, sl: int, last: int)
    requires Collected(e, fc, m, w, was, streams, sl, last) && Inward(was, m)
    ensures sl == At(Common(streams, m), 0) && InUse(e, m, Common(streams, m)) && Distinct(Common(streams, m))
             && Inward(e, m)
    ensures forall k :: 0 <= k < |Common(streams, m)| - 1 ==>
              0 <= Common(streams, m)[k] < |e.next| && e.next[Common(streams, m)[k]] == Common(streams, m)[k+1]
    ensures Stale(was, m, streams) <==> Beyond(e, Common(streams, m)) != -1
    ensures Stale(was, m, streams) ==> EntryOf(e, m, Beyond(e, Common(streams, m)))
  {
    hide IsChain, AllHanded, SameSessions, Common;
    var c := Common(streams, m);
    ChainedInward(e, was, fc, m, streams);
    CommonDistinct(e, fc, m, streams);
    forall k | 0 <= k < |c| ensures EntryOf(e, m, c[k]) {
      CommonIn(streams, m, k);
      var s :| s in streams && s in m && m[s] == c[k];
      assert e.stream[m[s]] == s;
    }
    if c != [] {
      var k := |c| - 1;
      assert EntryOf(e, m, c[k]);
      assert m[e.stream[c[k]]] == c[k];
    }
  }

  // ---------------------------------------------------------------- the walk

  ghost predicate Home(e: Entries, fc: seq<int>, m: map<Name, int>, x: int) {
    x == -1 || x in fc || EntryOf(e, m, x)
  }

  ghost predicate AllHome(e: Entries, fc: seq<int>, m: map<Name, int>) {
    forall s :: s in m && 0 <= m[s] < |e.next| ==> Home(e, fc, m, e.next[m[s]])
  }

  /** The links from the `k`-th entry on are as they were laid. */
  ghost predicate Ahead(next: seq<int>, common: seq<int>, tail: int, k: nat) {
    forall j :: k <= j < |common| ==> 0 <= common[j] < |next| && next[common[j]] == Later(common, tail, j + 1)
  }

  function Later(common: seq<int>, tail: int, k: nat): int {
    if k < |common| then common[k] else tail
  }

  /** Before the walk meets a free entry: every entry is free or in a map, as always. */
  ghost predicate OnWay(was: Entries, m: map<Name, int>, w: map<Name, int>, common: seq<int>, tail: int,
                        e: Entries, fc: seq<int>, cur: map<Name, int>, x: int, k: nat) {
    && Shape(e, fc, cur, w) && Untouched(was, e, w) && AllHome(e, fc, cur) && Home(e, fc, cur, x)
    && (k <= |common| ==>
          cur == LeftOver(m, common[..k]) && x == Later(common, tail, k) && Ahead(e.next, common, tail, k))
  }

  /** After it has: it follows what was the free chain then. */
  ghost predicate Trail(next: seq<int>, g: seq<int>, i: nat, x: int) {
    && i <= |g| && x == At(g, i) && Distinct(g)
    && forall j :: i <= j < |g| ==> 0 <= g[j] < |next| && next[g[j]] == At(g, j + 1)
  }

  /** The entry beyond: given back twice, or gone from the map though nobody ended its session. */
  ghost predicate Lost(was: Entries, common: seq<int>, tail: int, e: Entries, cur: map<Name, int>) {
    && (tail in common ==> Circular(e))
    && (tail !in common ==> 0 <= tail < |was.stream| && was.stream[tail] !in cur)
  }

  ghost predicate Part(cur: map<Name, int>, m: map<Name, int>) {
    forall s :: s in cur ==> s in m && cur[s] == m[s]
  }

  /** Nothing but links and the free chain is different. */
  ghost predicate SamePlaces(e: Entries, e': Entries) {
    e'.stream == e.stream && e'.session == e.session && |e'.next| == |e.next|
  }

  /** How far the walk has come: `k` entries given back; past a free entry, along `g` from `i` on. */
  datatype Way = Way(k: nat, turned: bool, g: seq<int>, i: nat)

  ghost predicate Walk(was: Entries, m: map<Name, int>, w: map<Name, int>, common: seq<int>, tail: int,
                       e: Entries, fc: seq<int>, cur: map<Name, int>, x: int, p: Way) {
    && SamePlaces(was, e) && |e.stream| == |e.session| == |e.next| && Part(cur, m) && |cur| <= |m|
    && (!p.turned ==> OnWay(was, m, w, common, tail, e, fc, cur, x, p.k))
    && (p.turned ==> p.k > |common| && Trail(e.next, p.g, p.i, x))
    && (p.k > |common| ==> tail != -1 && Lost(was, common, tail, e, cur))
  }

  lemma HomeStays(e: Entries, e': Entries, fc: seq<int>, cur: map<Name, int>, x: int, y: int)
    requires EntryOf(e, cur, x) && Home(e, fc, cur, y) && e'.stream == e.stream
    ensures Home(e', [x] + fc, cur - {e.stream[x]}, y)
  {
    assert forall z :: z in fc ==> z in [x] + fc;
    if EntryOf(e, cur, y) && e.stream[y] == e.stream[x] { assert ([x] + fc)[0] == y; }
  }

  /** Giving back an entry that is in use. */
  lemma PutAway(was: Entries, w: map<Name, int>, e: Entries, fc: seq<int>, cur: map<Name, int>, x: int)
    requires Shape(e, fc, cur, w) && Untouched(was, e, w) && AllHome(e, fc, cur) && EntryOf(e, cur, x)
    requires SamePlaces(was, e) && |e.session| == |e.next|
    ensures var e', cur' := PutBack(e, x), cur - {e.stream[x]};
      && Shape(e', [x] + fc, cur', w) && Untouched(was, e', w) && AllHome(e', [x] + fc, cur')
      && Home(e', [x] + fc, cur', e.next[x])
  {
    hide Untouched, IsChain;
    var s := e.stream[x];
    var e', cur' := PutBack(e, x), cur - {s};
    PutShape(e, fc, cur, w, s);
    StillUntouched(was, e, e', w, x);
    forall t | t in cur' ensures 0 <= cur'[t] < |e.next| && e'.next[cur'[t]] == e.next[cur[t]]
        && Home(e', [x] + fc, cur', e.next[cur[t]]) {
      assert e.stream[cur[t]] == t;
      HomeStays(e, e', fc, cur, x, e.next[cur[t]]);
    }
    HomeStays(e, e', fc, cur, x, e.next[x]);
  }

  lemma PartSize(cur: map<Name, int>, s: Name)
    ensures |cur - {s}| <= |cur| && (s in cur ==> |cur - {s}| < |cur|)
  {
    if s in cur { MapSize(cur, s, 0); } else { assert cur - {s} == cur; }
  }

  lemma LostStays(was: Entries, common: seq<int>, tail: int, e: Entries, cur: map<Name, int>, x: int, s: Name)
    requires Lost(was, common, tail, e, cur) && 0 <= x < |e.next|
    ensures Lost(was, common, tail, PutBack(e, x), cur - {s})
  {
    if tail in common { CircularStays(e, x); }
  }

  /** An entry that is meant to be given back. */
  lemma StepOn(was: Entries, m: map<Name, int>, w: map<Name, int>, common: seq<int>, tail: int,
               e: Entries, fc: seq<int>, cur: map<Name, int>, x: int, p: Way)
    requires Walk(was, m, w, common, tail, e, fc, cur, x, p) && p.k < |common| && Distinct(common)
    requires InUse(was, m, common)
    ensures 0 <= x < |e.next| && |cur - {e.stream[x]}| < |cur|
    ensures Walk(was, m, w, common, tail, PutBack(e, x), [x] + fc, cur - {e.stream[x]}, e.next[x], p.(k := p.k + 1))
  {
    hide Shape, Untouched, LeftOver, IsChain, AllHome, Home;
    assert EntryOf(was, m, common[p.k]);
    var s := e.stream[x];
    OnlyEntry(e, fc, cur, w, m, common, p.k, s);
    PutAway(was, w, e, fc, cur, x);
    PartSize(cur, s);
    var e' := PutBack(e, x);
    forall j | p.k + 1 <= j < |common| ensures 0 <= common[j] < |e'.next|
        && e'.next[common[j]] == Later(common, tail, j + 1) {
      assert common[j] != common[p.k];
    }
  }

  /** An entry that is not. */
  lemma StepAstray(was: Entries, m: map<Name, int>, w: map<Name, int>, common: seq<int>, tail: int,
                   e: Entries, fc: seq<int>, cur: map<Name, int>, x: int, p: Way)
    requires Walk(was, m, w, common, tail, e, fc, cur, x, p) && !p.turned && p.k >= |common| && EntryOf(e, cur, x)
    ensures 0 <= x < |e.next| && |cur - {e.stream[x]}| < |cur|
    ensures Walk(was, m, w, common, tail, PutBack(e, x), [x] + fc, cur - {e.stream[x]}, e.next[x], p.(k := p.k + 1))
  {
    hide Shape, Untouched, IsChain, AllHome, Home, Circular;
    var s := e.stream[x];
    PutAway(was, w, e, fc, cur, x);
    PartSize(cur, s);
    if p.k == |common| {
      assert common[..p.k] == common;
      assert x == tail && tail !in common;
    } else {
      LostStays(was, common, tail, e, cur, x, s);
    }
  }

  /** What is ahead on the free chain is not changed by giving one of its entries back. */
  lemma Downward(e: Entries, fc: seq<int>, x: int) returns (i: nat)
    requires IsChain(e.next, e.free, fc) && x in fc
    ensures 0 <= x < |e.next| && Trail(PutBack(e, x).next, fc, i, e.next[x])
  {
    var k :| 0 <= k < |fc| && fc[k] == x;
    ChainIsAcyclic(e.next, e.free, fc);
    i := k + 1;
    var next := PutBack(e, x).next;
    assert e.next[fc[k]] == At(fc, i);
    forall j | i <= j < |fc| ensures 0 <= fc[j] < |next| && next[fc[j]] == At(fc, j + 1) {
      assert fc[j] != fc[k];
      assert e.next[fc[j]] == At(fc, j + 1);
    }
  }

  /** A free entry: from here the walk goes down the free chain. */
  lemma StepBack(was: Entries, m: map<Name, int>, w: map<Name, int>, common: seq<int>, tail: int,
                 e: Entries, fc: seq<int>, cur: map<Name, int>, x: int, p: Way) returns (p': Way)
    requires Walk(was, m, w, common, tail, e, fc, cur, x, p) && !p.turned && p.k >= |common| && x in fc
    ensures 0 <= x < |e.next| && p'.turned
    ensures Walk(was, m, w, common, tail, PutBack(e, x), [x] + fc, cur - {e.stream[x]}, e.next[x], p')
  {
    hide Untouched, AllHome, Home, Circular, LeftOver, Ahead, MapOk, Apart, Trail, IsChain;
    var i := Downward(e, fc, x);
    PutTwice(e, fc, x);
    PartSize(cur, e.stream[x]);
    if p.k > |common| { LostStays(was, common, tail, e, cur, x, e.stream[x]); }
    p' := Way(p.k + 1, true, fc, i);
  }

  lemma TrailOn(e: Entries, g: seq<int>, i: nat, x: int)
    requires Trail(e.next, g, i, x) && x != -1
    ensures i < |g| && 0 <= x < |e.next| && Trail(PutBack(e, x).next, g, i + 1, e.next[x])
  {
    var next := PutBack(e, x).next;
    forall j | i + 1 <= j < |g| ensures 0 <= g[j] < |next| && next[g[j]] == At(g, j + 1) {
      assert g[j] != g[i];
    }
  }

  /** A free entry further down. */
  lemma StepDown(was: Entries, m: map<Name, int>, w: map<Name, int>, common: seq<int>, tail: int,
                 e: Entries, fc: seq<int>, cur: map<Name, int>, x: int, p: Way)
    requires Walk(was, m, w, common, tail, e, fc, cur, x, p) && p.turned && x != -1
    ensures 0 <= x < |e.next| && p.i < |p.g|
    ensures Walk(was, m, w, common, tail, PutBack(e, x), [x] + fc, cur - {e.stream[x]}, e.next[x],
             p.(k := p.k + 1, i := p.i + 1))
  {
    hide OnWay, Circular, Trail;
    TrailOn(e, p.g, p.i, x);
    LostStays(was, common, tail, e, cur, x, e.stream[x]);
    PartSize(cur, e.stream[x]);
  }

  /** Each step of the walk, and why it ends. */
  lemma WalkOn(was: Entries, m: map<Name, int>, w: map<Name, int>, common: seq<int>, tail: int,
               e: Entries, fc: seq<int>, cur: map<Name, int>, x: int, p: Way) returns (p': Way)
    requires Walk(was, m, w, common, tail, e, fc, cur, x, p) && Distinct(common) && x != -1
    requires InUse(was, m, common)
    ensures 0 <= x < |e.next| == |e.stream|
    ensures Walk(was, m, w, common, tail, PutBack(e, x), [x] + fc, cur - {e.stream[x]}, e.next[x], p')
    ensures if p.turned then p'.turned && p'.g == p.g && p.i < p'.i <= |p.g|
            else p'.turned || |cur - {e.stream[x]}| < |cur|
  {
    if p.turned {
      StepDown(was, m, w, common, tail, e, fc, cur, x, p);
      p' := p.(k := p.k + 1, i := p.i + 1);
    } else if p.k < |common| {
      StepOn(was, m, w, common, tail, e, fc, cur, x, p);
      p' := p.(k := p.k + 1);
    } else if x in fc {
      p' := StepBack(was, m, w, common, tail, e, fc, cur, x, p);
    } else {
      StepAstray(was, m, w, common, tail, e, fc, cur, x, p);
      p' := p.(k := p.k + 1);
    }
  }

  lemma WalkBegins(e: Entries, fc: seq<int>, m: map<Name, int>, w: map<Name, int>, common: seq<int>, sl: int)
    requires Shape(e, fc, m, w) && Inward(e, m) && sl == At(common, 0)
    requires InUse(e, m, common) && forall k :: 0 <= k < |common| - 1 ==>
             0 <= common[k] < |e.next| && e.next[common[k]] == common[k+1]
    ensures Walk(e, m, w, common, Beyond(e, common), e, fc, m, sl, Way(0, false, [], 0))
  {
    assert common[..0] == [];
    LeftOverAll(m);
    InUsePlaces(e, m, common);
  }

  /** At its end: all is well if there was no link beyond, and something is lost if there was. */
  lemma WalkEnds(was: Entries, m: map<Name, int>, w: map<Name, int>, common: seq<int>, tail: int,
                 e: Entries, fc: seq<int>, cur: map<Name, int>, p: Way)
    requires Walk(was, m, w, common, tail, e, fc, cur, -1, p)
    requires InUse(was, m, common)
    ensures SamePlaces(was, e) && Part(cur, m)
    ensures tail == -1 ==> Shape(e, fc, cur, w) && Untouched(was, e, w) && cur == LeftOver(m, common)
    ensures tail != -1 ==> Lost(was, common, tail, e, cur)
  {
    hide Shape, Untouched, AllHome, Home, Circular, LeftOver, Trail, Lost;
    InUsePlaces(was, m, common);
    assert common[..|common|] == common;
  }

  // ---------------------------------------------------------------- what is lost

  /** What a reload promises of the entries it does not keep: they are free, once each, and their sessions end. */
  ghost predicate Sound(was: Entries, e: Entries, m: map<Name, int>, streams: seq<Name>, ended: seq<int>) {
    (exists fc :: FreeOk(e, fc)) && EndedExactly(was, m, streams, ended)
  }

  ghost predicate EndedExactly(was: Entries, m: map<Name, int>, streams: seq<Name>, ended: seq<int>) {
    forall x :: x in ended <==> exists s :: s !in streams && HasSession(was, m, s, x)
  }

  /** A session is that of one stream. */
  lemma SessionOnce(was: Entries, c: Entries, mid: Entries, m: map<Name, int>, left: map<Name, int>, sessions: nat,
                    at: map<int, int>,
                    s: Name, x: int)
    requires AllOwned(was, m, sessions, at) && SameSessions(c, was, m) && c.session == mid.session && Part(left, m)
    requires forall s, t :: s in m && t in m && m[s] == m[t] ==> s == t
    requires HasSession(was, m, s, x)
    ensures forall t :: HasSession(mid, left, t, x) ==> t == s
  {
    forall t | HasSession(mid, left, t, x) ensures t == s {
      assert Owned(was, m, sessions, at, s) && Owned(was, m, sessions, at, t);
    }
  }

  /** A lost entry breaks one promise or the other. */
  lemma LostIsUnsound(was: Entries, c: Entries, mid: Entries, e: Entries, m: map<Name, int>, left: map<Name, int>,
                      streams: seq<Name>,
                      sessions: nat, at: map<int, int>, ended: seq<int>)
    requires AllOwned(was, m, sessions, at) && SameSessions(c, was, m) && c.session == mid.session
    requires forall s, t :: s in m && t in m && m[s] == m[t] ==> s == t
    requires EntryOf(c, m, Beyond(c, Common(streams, m)))
    requires Lost(c, Common(streams, m), Beyond(c, Common(streams, m)), mid, left) && Part(left, m)
             && AreSessions(ended, mid, left)
    requires Circular(mid) ==> Circular(e)
    ensures !Sound(was, e, m, streams, ended)
  {
    hide Common, Circular, FreeOk, Beyond;
    var tail := Beyond(c, Common(streams, m));
    if tail in Common(streams, m) {
      forall fc ensures !FreeOk(e, fc) { CircularIsNoChain(e, fc); }
    } else {
      var s := c.stream[tail];
      if s in streams { InCommon(m, streams, s); }
      assert Owned(was, m, sessions, at, s);
      var x := was.session[m[s]];
      assert HasSession(was, m, s, x);
      SessionOnce(was, c, mid, m, left, sessions, at, s, x);
      assert s !in streams && x !in ended;
    }
  }

  // ---------------------------------------------------------------- the steps of a reload, put together

  lemma DropKeeps(e: Entries, fc: seq<int>, m: map<Name, int>, w: map<Name, int>, s: Name)
    requires Placed(e, m) && s in m
    ensures SameBut(e, PutBack(e, m[s]), m[s])
    ensures Shape(e, fc, m, w) ==>
              Shape(PutBack(e, m[s]), [m[s]] + fc, m - {s}, w) && NotIn(m[s], m - {s}) && NotIn(m[s], w)
    ensures Circular(e) ==> Circular(PutBack(e, m[s]))
  {
    hide IsChain, Circular;
    if Shape(e, fc, m, w) { PutShape(e, fc, m, w, s); }
    if Circular(e) { CircularStays(e, m[s]); }
  }

  /** While sessions are ended: whatever held of the entries goes on to hold. */
  ghost predicate EndingOk(was: Entries, wasFree: seq<int>, m: map<Name, int>, w: map<Name, int>,
                           e: Entries, fc: seq<int>, cur: map<Name, int>) {
    && SamePlaces(was, e) && Placed(was, m) && Placed(e, cur)
    && (Shape(was, wasFree, m, w) ==> Shape(e, fc, cur, w) && Untouched(was, e, w))
    && (Circular(was) ==> Circular(e))
  }

  lemma EndingBegins(e: Entries, fc: seq<int>, m: map<Name, int>, w: map<Name, int>)
    requires Placed(e, m)
    ensures EndingOk(e, fc, m, w, e, fc, m)
  {
    hide Shape, Circular, Untouched;
    if Shape(e, fc, m, w) { Sizes(e, fc, m, w); }
  }

  lemma EndingPlace(was: Entries, wasFree: seq<int>, m: map<Name, int>, w: map<Name, int>,
                    e: Entries, fc: seq<int>, cur: map<Name, int>, ended: seq<int>, s: Name)
    requires EndingOk(was, wasFree, m, w, e, fc, cur) && EndedSoFar(was, m, cur, ended) && s in cur
    ensures Placed(e, cur) && 0 <= cur[s] < |was.session| && HasSession(was, m, s, was.session[cur[s]])
  {
    hide Shape, Circular, Untouched;
  }

  lemma EndingGoesOn(was: Entries, wasFree: seq<int>, m: map<Name, int>, w: map<Name, int>,
                     so: Entries, soFree: seq<int>, cur: map<Name, int>, e: Entries, fc: seq<int>, s: Name, n: int)
    requires EndingOk(was, wasFree, m, w, so, soFree, cur) && s in cur && SameBut(so, e, n)
    requires Shape(so, soFree, cur, w) ==> Shape(e, fc, cur - {s}, w) && NotIn(n, w)
    requires Circular(so) ==> Circular(e)
    ensures EndingOk(was, wasFree, m, w, e, fc, cur - {s}) && e.session == was.session
  {
    hide Shape, Circular, Untouched, NotIn;
    if Shape(was, wasFree, m, w) { StillUntouched(was, so, e, w, n); }
  }

  lemma EndingEnds(was: Entries, wasFree: seq<int>, m: map<Name, int>, w: map<Name, int>, e: Entries, fc: seq<int>)
    requires EndingOk(was, wasFree, m, w, e, fc, map[])
    ensures SamePlaces(was, e) && (Shape(was, wasFree, m, w) ==> Shape(e, fc, map[], w) && Untouched(was, e, w))
    ensures Circular(was) ==> Circular(e)
  {
  }

  lemma WaitingPlace(was: Entries, e: Entries, w: map<Name, int>, todo: set<Name>, before: nat, sessions: nat,
                     at: map<int, int>, s: Name)
    requires Waiting(was, e, w, todo, before, sessions, at) && s in w
    ensures 0 <= w[s] < |e.session| == |was.session|
  {
  }

  lemma ShapePlaces(e: Entries, fc: seq<int>, m: map<Name, int>, w: map<Name, int>)
    requires Shape(e, fc, m, w)
    ensures |e.stream| == |e.next| && MapOk(e, fc, m)
  {
  }

  lemma PartPlaced(e: Entries, e': Entries, m: map<Name, int>, left: map<Name, int>)
    requires Placed(e, m) && SamePlaces(e, e') && Part(left, m)
    ensures Placed(e', left)
  {
  }

  lemma CollectedShape(e: Entries, fc: seq<int>, m: map<Name, int>, w: map<Name, int>, was: Entries,
                       streams: seq<Name>, sl: int, last: int)
    requires Collected(e, fc, m, w, was, streams, sl, last)
    ensures Shape(e, fc, m, w) && Placed(e, m)
  {
    ShapePlaced(e, fc, m, w);
  }

  /** The old map is empty: `c`, `mid` and `start` are the entries before, after the walk and after the endings. */
  ghost predicate Retired(was: Entries, c: Entries, mid: Entries, start: Entries, fc: seq<int>, m: map<Name, int>,
                          w: map<Name, int>,
                          left: map<Name, int>, streams: seq<Name>, ended: seq<int>) {
    && SamePlaces(c, mid) && SamePlaces(mid, start)
    && AreSessions(ended, mid, left) && Part(left, m) && (Circular(mid) ==> Circular(start))
    && (!Stale(was, m, streams) ==>
          && left == LeftOver(m, Common(streams, m)) && Untouched(c, mid, w) && Untouched(mid, start, w)
          && Shape(start, fc, map[], w))
    && (Stale(was, m, streams) ==>
          && EntryOf(c, m, Beyond(c, Common(streams, m)))
          && Lost(c, Common(streams, m), Beyond(c, Common(streams, m)), mid, left))
  }

  lemma RetiredSessions(was: Entries, c: Entries, mid: Entries, start: Entries, fc: seq<int>, m: map<Name, int>,
                        w: map<Name, int>,
                        left: map<Name, int>, streams: seq<Name>, ended: seq<int>)
    requires Retired(was, c, mid, start, fc, m, w, left, streams, ended)
    ensures c.session == mid.session == start.session && |c.next| == |mid.next| == |start.next|
  {
  }

  lemma SessionCircular(e: Entries, e': Entries)
    requires e' == e.(session := e'.session)
    ensures Circular(e) ==> Circular(e')
  {
    if Circular(e) {
      var ring :| Trapped(e, ring);
      assert Trapped(e', ring);
    }
  }

  /** After the walk and the endings: whether the reload is sound depends on the link beyond. */
  lemma Settled(was: Entries, c: Entries, mid: Entries, start: Entries, e: Entries, fc: seq<int>, m: map<Name, int>,
                w: map<Name, int>,
                left: map<Name, int>, streams: seq<Name>, sessions: nat, at: map<int, int>, ended: seq<int>)
    requires AllOwned(was, m, sessions, at) && SameSessions(c, was, m) && AllHanded(c, m, w) && |c.next| == |c.session|
    requires forall s, t :: s in m && t in m && m[s] == m[t] ==> s == t
    requires Retired(was, c, mid, start, fc, m, w, left, streams, ended)
    requires e == start.(session := e.session) && |e.session| == |start.session|
    ensures Sound(was, e, m, streams, ended) <==> !Stale(was, m, streams)
    ensures !Stale(was, m, streams) ==> Shape(e, fc, map[], w) && Unlinked(e, w)
  {
    hide Common, Untouched, AllHanded, AllOwned, SameSessions, EntryOf, Stale, Lost, AreSessions, HasSession,
         LeftOver, Part;
    if Stale(was, m, streams) {
      SessionCircular(start, e);
      LostIsUnsound(was, c, mid, e, m, left, streams, sessions, at, ended);
    } else {
      SessionShape(start, e, fc, map[], w);
      OthersEnded(was, c, mid, m, streams, sessions, at, ended);
      LinksClear(c, mid, start, e, m, w);
      assert FreeOk(e, fc);
    }
  }
}
