/**
 The entries of configured pulls: arrays of streams, sessions and links, two maps
 from streams to entries, and a chain of free entries. What one step of a reload
 does to them. The entries in use and the free ones are linked through the same
 field.
 */
module StaticEntries {
  import opened Bytes
  import opened Chains

  type Name = seq<Byte>

  /** No session. */
  const NONE := -1

  /** All entries ever made: their stream, session and link; and the free ones. */
  datatype Entries = Entries(stream: seq<Name>, session: seq<int>, next: seq<int>, free: int, nfree: int)

  // ---------------------------------------------------------------- free entries

  ghost predicate FreeOk(e: Entries, fc: seq<int>) {
    |e.stream| == |e.session| == |e.next| && IsChain(e.next, e.free, fc) && e.nfree == |fc|
  }

  function Node(e: Entries): int {
    if e.free == -1 then |e.stream| else e.free
  }

  /** An entry for a stream: the first free one, or a new one; without session and link. */
  function Got(e: Entries, s: Name): (r: Entries)
    requires |e.stream| == |e.session| == |e.next| && -1 <= e.free < |e.stream|
    ensures |r.stream| == |r.session| == |r.next| && Node(e) < |r.stream|
  {
    if e.free == -1 then e.(stream := e.stream + [s], session := e.session + [NONE], next := e.next + [-1])
    else
      var n := e.free;
      e.(stream := e.stream[n := s], session := e.session[n := NONE], next := e.next[n := -1], free := e.next[n],
          nfree := e.nfree - 1)
  }

  function PutBack(e: Entries, n: int): Entries
    requires 0 <= n < |e.next|
  {
    e.(next := e.next[n := e.free], free := n, nfree := e.nfree + 1)
  }

  function Linked(e: Entries, n: int, to: int): Entries
    requires 0 <= n < |e.next|
  {
    e.(next := e.next[n := to])
  }

  function Rest(e: Entries, fc: seq<int>): seq<int> {
    if e.free == -1 || fc == [] then fc else fc[1..]
  }

  lemma GotFree(e: Entries, fc: seq<int>, s: Name)
    requires FreeOk(e, fc)
    ensures -1 <= e.free < |e.stream| && FreeOk(Got(e, s), Rest(e, fc)) && Node(e) !in Rest(e, fc)
    ensures forall i :: i in Rest(e, fc) <==> i in fc && i != Node(e)
    ensures |Got(e, s).stream| - |Rest(e, fc)| == |e.stream| - |fc| + 1
    ensures Node(e) == |e.stream| || Node(e) in fc
  {
    if e.free == -1 {
      assert fc == [];
    } else {
      ChainIsAcyclic(e.next, e.free, fc);
      ChainTail(e.next, e.free, fc, 1);
      assert fc == [fc[0]] + fc[1..];
      ChainFrame(e.next, At(fc, 1), fc[1..], fc[0], -1);
    }
  }

  lemma PutFree(e: Entries, fc: seq<int>, n: int)
    requires FreeOk(e, fc) && 0 <= n < |e.next| && n !in fc
    ensures FreeOk(PutBack(e, n), [n] + fc)
  {
    ChainFrame(e.next, e.free, fc, n, e.free);
    ChainPush(e.next[n := e.free], e.free, fc, n);
  }

  lemma LinkFree(e: Entries, fc: seq<int>, n: int, to: int)
    requires FreeOk(e, fc) && 0 <= n < |e.next| && n !in fc
    ensures FreeOk(Linked(e, n, to), fc)
  {
    ChainFrame(e.next, e.free, fc, n, to);
  }

  // ---------------------------------------------------------------- entries in maps

  /** The entries of a map, by their streams, none of them free. */
  ghost predicate MapOk(e: Entries, fc: seq<int>, m: map<Name, int>)
    requires |e.stream| == |e.next|
  {
    forall s :: s in m ==> 0 <= m[s] < |e.stream| && e.stream[m[s]] == s && m[s] !in fc
  }

  ghost predicate Apart(m: map<Name, int>, w: map<Name, int>) {
    forall s, t :: s in m && t in w ==> m[s] != w[t]
  }

  /** Every entry is free or in one of the maps. */
  ghost predicate Shape(e: Entries, fc: seq<int>, m: map<Name, int>, w: map<Name, int>) {
    FreeOk(e, fc) && MapOk(e, fc, m) && MapOk(e, fc, w) && Apart(m, w) && |e.stream| == |fc| + |m| + |w|
  }

  /** What an entry of `m` holds is the same in both. */
  ghost predicate Untouched(e: Entries, e': Entries, m: map<Name, int>) {
    forall s :: s in m && 0 <= m[s] < |e.session| ==>
      m[s] < |e'.session| && m[s] < |e'.next| && m[s] < |e.next| && e'.session[m[s]] == e.session[m[s]]
          && e'.next[m[s]] == e.next[m[s]]
  }

  lemma NoKeys(m: map<Name, int>)
    requires m.Keys == {}
    ensures m == map[]
  {
  }

  lemma MapSize(m: map<Name, int>, s: Name, v: int)
    ensures s !in m ==> |m[s := v]| == |m| + 1
    ensures s in m ==> |m - {s}| == |m| - 1
  {
    if s !in m {
      assert m[s := v].Keys == m.Keys + {s};
      assert |m[s := v]| == |m[s := v].Keys| && |m| == |m.Keys|;
    } else {
      assert m.Keys == (m - {s}).Keys + {s};
      assert |m - {s}| == |(m - {s}).Keys| && |m| == |m.Keys|;
    }
  }

  /** A new entry joins the second map. */
  lemma GotShape(e: Entries, fc: seq<int>, m: map<Name, int>, w: map<Name, int>, s: Name)
    requires Shape(e, fc, m, w) && s !in w
    ensures -1 <= e.free < |e.stream| && Shape(Got(e, s), Rest(e, fc), m, w[s := Node(e)])
    ensures Untouched(e, Got(e, s), m) && Untouched(e, Got(e, s), w)
  {
    hide Distinct;
    GotFree(e, fc, s);
    MapSize(w, s, Node(e));
  }

  /** An entry leaves the first map and becomes free. */
  lemma PutShape(e: Entries, fc: seq<int>, m: map<Name, int>, w: map<Name, int>, s: Name)
    requires Shape(e, fc, m, w) && s in m
    ensures 0 <= m[s] < |e.next| && Shape(PutBack(e, m[s]), [m[s]] + fc, m - {s}, w)
    ensures Untouched(e, PutBack(e, m[s]), m - {s}) && Untouched(e, PutBack(e, m[s]), w)
  {
    PutFree(e, fc, m[s]);
    MapSize(m, s, 0);
    forall t | t in m - {s} ensures m[t] != m[s] { assert e.stream[m[t]] == t; }
  }

  lemma LinkShape(e: Entries, fc: seq<int>, m: map<Name, int>, w: map<Name, int>, n: int, to: int)
    requires Shape(e, fc, m, w) && 0 <= n < |e.next| && n !in fc
    ensures Shape(Linked(e, n, to), fc, m, w)
  {
    LinkFree(e, fc, n, to);
  }

  /** The two maps are alike to the shape. */
  lemma Swapped(e: Entries, fc: seq<int>, m: map<Name, int>, w: map<Name, int>)
    requires Shape(e, fc, m, w)
    ensures Shape(e, fc, w, m)
  {
  }

  // ---------------------------------------------------------------- what is configured

  /** The streams among the first `n` that this worker pulls. */
  function Mine(config: seq<Name>, mine: Name -> bool, n: nat): seq<Name>
    requires n <= |config|
  {
    if n == 0 then [] else if mine(config[n-1]) then Mine(config, mine, n - 1) + [config[n-1]]
        else Mine(config, mine, n - 1)
  }

  /** The old entries of streams that stay, in the order of the configuration. */
  function Common(streams: seq<Name>, m: map<Name, int>): seq<int> {
    if streams == [] then []
    else
      var s := streams[|streams|-1];
      Common(streams[..|streams|-1], m) + (if s in m then [m[s]] else [])
  }

  /** Whether all entries of a map have no link. */
  ghost predicate Unlinked(e: Entries, m: map<Name, int>) {
    forall s :: s in m && 0 <= m[s] < |e.next| ==> e.next[m[s]] == -1
  }

  lemma {:induction false} CommonSnoc(streams: seq<Name>, s: Name, m: map<Name, int>)
    ensures Common(streams + [s], m) == Common(streams, m) + (if s in m then [m[s]] else [])
  {
    assert (streams + [s])[..|streams|] == streams;
  }

  lemma {:induction false} CommonIn(streams: seq<Name>, m: map<Name, int>, k: nat)
    requires k < |Common(streams, m)|
    ensures exists s :: s in streams && s in m && m[s] == Common(streams, m)[k]
  {
    if streams != [] {
      var rest := streams[..|streams|-1];
      assert streams == rest + [streams[|streams|-1]];
      if k < |Common(rest, m)| {
        CommonIn(rest, m, k);
      } else {
        assert streams[|streams|-1] in streams;
      }
    }
  }

  /** What linking has come to: each old entry that stays links to the next, the last one's link is as it was. */
  ghost predicate Chained(e: Entries, next: seq<int>, common: seq<int>, m: map<Name, int>) {
    && |next| <= |e.next|
    && (forall k :: 0 <= k < |common| ==> 0 <= common[k] < |next|)
    && (forall k :: 0 <= k < |common| - 1 ==> e.next[common[k]] == common[k+1])
    && (common != [] ==> e.next[common[|common|-1]] == next[common[|common|-1]])
    && (forall s :: s in m && 0 <= m[s] < |next| && m[s] !in common ==> e.next[m[s]] == next[m[s]])
  }

  /** An entry has the session of the old one of its stream, or none. */
  ghost predicate Handed(e: Entries, m: map<Name, int>, w: map<Name, int>, s: Name) {
    && s in w && 0 <= w[s] < |e.session| && w[s] < |e.next| && e.next[w[s]] == -1
    && (s in m ==> 0 <= m[s] < |e.session| && e.session[w[s]] == e.session[m[s]])
    && (s !in m ==> e.session[w[s]] == NONE)
  }

  ghost predicate AllHanded(e: Entries, m: map<Name, int>, w: map<Name, int>) {
    forall s :: s in w ==> Handed(e, m, w, s)
  }

  ghost predicate SameSessions(e: Entries, was: Entries, m: map<Name, int>) {
    forall s :: s in m && 0 <= m[s] < |was.session| ==> m[s] < |e.session| && e.session[m[s]] == was.session[m[s]]
  }

  /** So far: the new entries are in `w`, the old ones of the same streams linked from `sl` to `last`. */
  ghost predicate Collected(e: Entries, fc: seq<int>, m: map<Name, int>, w: map<Name, int>, was: Entries,
                            streams: seq<Name>, sl: int, last: int) {
    && Shape(e, fc, m, w) && Chained(e, was.next, Common(streams, m), m) && AllHanded(e, m, w)
       && SameSessions(e, was, m)
    && sl == At(Common(streams, m), 0) && last == At(Common(streams, m), |Common(streams, m)| - 1)
    && Distinct(streams) && (forall s :: s in w <==> s in streams)
    && |was.session| == |was.next| && (forall s :: s in m ==> 0 <= m[s] < |was.next|)
  }

  /** One more entry: with the session of the old one, if there is one, which is then linked behind the last. */
  function Added(e: Entries, m: map<Name, int>, s: Name, last: int): (r: Entries)
    requires |e.stream| == |e.session| == |e.next| && -1 <= e.free < |e.stream| && last < |e.next|
    requires s in m ==> 0 <= m[s] < |e.session|
  {
    var n, g := Node(e), Got(e, s);
    if s !in m then g
    else
      var h := g.(session := g.session[n := g.session[m[s]]]);
      if last < 0 then h else Linked(h, last, m[s])
  }

  lemma CommonPlaces(e: Entries, fc: seq<int>, m: map<Name, int>, w: map<Name, int>, streams: seq<Name>)
    requires Shape(e, fc, m, w)
    ensures forall k :: 0 <= k < |Common(streams, m)| ==>
             0 <= Common(streams, m)[k] < |e.next| && Common(streams, m)[k] !in fc
  {
    forall k | 0 <= k < |Common(streams, m)| ensures 0 <= Common(streams, m)[k] < |e.next|
        && Common(streams, m)[k] !in fc {
      CommonIn(streams, m, k);
    }
  }

  lemma AddedShape(e: Entries, fc: seq<int>, m: map<Name, int>, w: map<Name, int>, s: Name, last: int)
    requires Shape(e, fc, m, w) && s !in w && -1 <= last < |e.next| && last !in fc
    ensures -1 <= e.free < |e.stream| && Shape(Added(e, m, s, last), Rest(e, fc), m, w[s := Node(e)])
  {
    GotShape(e, fc, m, w, s);
    GotFree(e, fc, s);
    if s in m {
      var g := Got(e, s);
      var h := g.(session := g.session[Node(e) := g.session[m[s]]]);
      if last >= 0 { LinkShape(h, Rest(e, fc), m, w[s := Node(e)], last, m[s]); }
    }
  }

  /** A new entry is none of those in the maps. */
  lemma NodeApart(e: Entries, fc: seq<int>, m: map<Name, int>, w: map<Name, int>)
    requires Shape(e, fc, m, w)
    ensures -1 <= e.free < |e.stream| && forall s :: s in m ==> 0 <= m[s] < |e.stream| && m[s] != Node(e)
    ensures forall s :: s in w ==> 0 <= w[s] < |e.stream| && w[s] != Node(e)
  {
    if fc != [] { assert fc[0] in fc; }
  }

  lemma AddedHanded(e: Entries, fc: seq<int>, m: map<Name, int>, w: map<Name, int>, s: Name, last: int)
    requires Shape(e, fc, m, w) && s !in w && -1 <= e.free < |e.stream| && -1 <= last < |e.next| && last != Node(e)
    requires AllHanded(e, m, w) && forall t :: t in w ==> w[t] != last
    ensures AllHanded(Added(e, m, s, last), m, w[s := Node(e)])
  {
    NodeApart(e, fc, m, w);
    var r, u := Added(e, m, s, last), w[s := Node(e)];
    forall t | t in u ensures Handed(r, m, u, t) {
      if t != s { assert Handed(e, m, w, t); }
    }
  }

  /** What adding does to the links: the new entry has none, the last linked one gets one. */
  lemma AddedNext(e: Entries, m: map<Name, int>, s: Name, last: int)
    requires |e.stream| == |e.session| == |e.next| && -1 <= e.free < |e.stream| && last < |e.next| && last != Node(e)
    requires s in m ==> 0 <= m[s] < |e.session|
    ensures var r := Added(e, m, s, last);
            && |r.next| >= |e.next|
            && (forall i :: 0 <= i < |e.next| && i != Node(e) && (s !in m || i != last) ==> r.next[i] == e.next[i])
            && (s in m && last >= 0 ==> r.next[last] == m[s])
  {
  }

  lemma AddedChained(e: Entries, m: map<Name, int>, was: Entries, streams: seq<Name>, s: Name, last: int)
    requires |e.stream| == |e.session| == |e.next| && (forall t :: t in m ==> 0 <= m[t] < |e.stream| && m[t] != Node(e))
    requires Chained(e, was.next, Common(streams, m), m) && last == At(Common(streams, m), |Common(streams, m)| - 1)
    requires s !in streams && -1 <= e.free < |e.stream| && last < |e.next| && (s in m ==> 0 <= m[s] < |was.next|)
    requires Distinct(Common(streams, m)) && (s in m ==> m[s] !in Common(streams, m)) && Node(e) !in Common(streams, m)
    requires last != Node(e)
    ensures Chained(Added(e, m, s, last), was.next, Common(streams + [s], m), m)
  {
    hide Added, Common;
    CommonSnoc(streams, s, m);
    AddedNext(e, m, s, last);
    var c, d := Common(streams, m), Common(streams + [s], m);
    var r := Added(e, m, s, last);
    forall k | 0 <= k < |c| ensures c[k] != Node(e) { assert c[k] in c; }
    if s in m {
      assert d == c + [m[s]];
      assert forall x :: x in c ==> x in d;
      forall k | 0 <= k < |d| - 1 ensures r.next[d[k]] == d[k+1] {
        if k < |c| - 1 { assert c[k] != c[|c|-1] && e.next[c[k]] == c[k+1]; }
      }
      forall t | t in m && 0 <= m[t] < |was.next| && m[t] !in d ensures r.next[m[t]] == was.next[m[t]] {
        if c != [] { assert c[|c|-1] in d; }
      }
      assert r.next[m[s]] == was.next[m[s]];
    } else {
      assert d == c;
    }
  }

  lemma {:induction false} CommonDistinct(e: Entries, fc: seq<int>, m: map<Name, int>, streams: seq<Name>)
    requires |e.stream| == |e.next| && MapOk(e, fc, m) && Distinct(streams)
    ensures Distinct(Common(streams, m))
    ensures forall s :: s in m && s !in streams ==> m[s] !in Common(streams, m)
    decreases |streams|
  {
    if streams != [] {
      var n := |streams| - 1;
      var rest, s := streams[..n], streams[n];
      assert streams == rest + [s];
      assert s !in rest;
      CommonDistinct(e, fc, m, rest);
      forall t | t in m && t !in streams ensures m[t] !in Common(streams, m) {
        assert t !in rest && t != s;
        if s in m { assert e.stream[m[s]] == s && e.stream[m[t]] == t; }
      }
    }
  }

  lemma CommonApart(e: Entries, fc: seq<int>, m: map<Name, int>, w: map<Name, int>, streams: seq<Name>)
    requires Shape(e, fc, m, w)
    ensures forall t :: t in w ==> w[t] !in Common(streams, m)
    ensures Node(e) !in Common(streams, m)
  {
    var c := Common(streams, m);
    NodeApart(e, fc, m, w);
    forall k | 0 <= k < |c| ensures c[k] != Node(e) && forall t :: t in w ==> w[t] != c[k] { CommonIn(streams, m, k); }
  }

  /** The first and the last of the linked entries after one more. */
  function NewLast(m: map<Name, int>, s: Name, last: int): int {
    if s in m then m[s] else last
  }

  function NewFirst(m: map<Name, int>, s: Name, sl: int): int {
    if s in m && sl == -1 then m[s] else sl
  }

  lemma AddedSessions(e: Entries, fc: seq<int>, m: map<Name, int>, w: map<Name, int>, was: Entries, s: Name, last: int)
    requires Shape(e, fc, m, w) && SameSessions(e, was, m) && -1 <= e.free < |e.stream| && last < |e.next|
    ensures SameSessions(Added(e, m, s, last), was, m)
  {
    NodeApart(e, fc, m, w);
  }

  lemma AddedEnds(m: map<Name, int>, streams: seq<Name>, s: Name, sl: int, last: int)
    requires forall k :: 0 <= k < |Common(streams, m)| ==> Common(streams, m)[k] >= 0
    requires sl == At(Common(streams, m), 0) && last == At(Common(streams, m), |Common(streams, m)| - 1)
    ensures var d := Common(streams + [s], m); NewFirst(m, s, sl) == At(d, 0) && NewLast(m, s, last) == At(d, |d| - 1)
  {
    CommonSnoc(streams, s, m);
  }

  /** The last linked entry is in use, or there is none. */
  lemma LastPlace(e: Entries, fc: seq<int>, m: map<Name, int>, w: map<Name, int>, streams: seq<Name>, last: int)
    requires Shape(e, fc, m, w) && last == At(Common(streams, m), |Common(streams, m)| - 1)
    ensures -1 <= last < |e.next| && last !in fc && last != Node(e) && forall t :: t in w ==> w[t] != last
  {
    var c := Common(streams, m);
    CommonPlaces(e, fc, m, w, streams);
    CommonApart(e, fc, m, w, streams);
    if c != [] { assert last == c[|c|-1] && last in c; } else { NodeApart(e, fc, m, w); }
  }

  lemma AddedOk(e: Entries, fc: seq<int>, m: map<Name, int>, w: map<Name, int>, was: Entries,
                streams: seq<Name>, sl: int, last: int, s: Name)
    requires Collected(e, fc, m, w, was, streams, sl, last) && s !in w
    ensures -1 <= e.free < |e.stream| && last < |e.next| && (s in m ==> 0 <= m[s] < |e.session|)
    ensures Collected(Added(e, m, s, last), Rest(e, fc), m, w[s := Node(e)], was, streams + [s], NewFirst(m, s, sl),
             NewLast(m, s, last))
  {
    hide IsChain, MapOk, Apart, Chained, AllHanded, SameSessions, Common, Added;
    LastPlace(e, fc, m, w, streams, last);
    CommonPlaces(e, fc, m, w, streams);
    CommonDistinct(e, fc, m, streams);
    CommonApart(e, fc, m, w, streams);
    NodeApart(e, fc, m, w);
    AddedShape(e, fc, m, w, s, last);
    AddedHanded(e, fc, m, w, s, last);
    AddedChained(e, m, was, streams, s, last);
    AddedSessions(e, fc, m, w, was, s, last);
    AddedEnds(m, streams, s, sl, last);
  }

  // ---------------------------------------------------------------- what a reload comes to
  /** Streams in both keep their session, new ones get one that is newer than all before. */
  ghost predicate Handover(was: Entries, e: Entries, m: map<Name, int>, w: map<Name, int>, before: nat) {
    && (forall s :: s in w && s in m ==>
          0 <= w[s] < |e.session| && 0 <= m[s] < |was.session| && e.session[w[s]] == was.session[m[s]])
    && (forall s :: s in w && s !in m ==> 0 <= w[s] < |e.session| && e.session[w[s]] >= before)
  }

  /** Each entry has no session, or one that is known and that no other entry has. */
  ghost predicate Handable(e: Entries, w: map<Name, int>, sessions: nat) {
    && (forall s :: s in w ==> 0 <= w[s] < |e.session| && (e.session[w[s]] == NONE || 0 <= e.session[w[s]] < sessions))
    && (forall s, t :: s in w && t in w && s != t ==>
          w[s] != w[t] && (e.session[w[s]] != e.session[w[t]] || e.session[w[s]] == NONE))
  }

  /** Sessions there were are still there, the others are newer than all of those. */
  ghost predicate Started(was: Entries, e: Entries, w: map<Name, int>, before: nat) {
    forall s :: s in w && 0 <= w[s] < |was.session| && w[s] < |e.session| ==>
      (was.session[w[s]] >= 0 ==> e.session[w[s]] == was.session[w[s]])
          && (was.session[w[s]] == NONE ==> e.session[w[s]] >= before)
  }

  ghost predicate Waiting(was: Entries, e: Entries, w: map<Name, int>, todo: set<Name>, before: nat, sessions: nat,
                          at: map<int, int>) {
    && Handable(e, w, sessions) && before <= sessions && |was.session| == |e.session|
    && (forall s :: s in w && s !in todo ==> Owned(e, w, sessions, at, s))
    && (forall s :: s in w && s in todo ==> e.session[w[s]] == was.session[w[s]])
    && (forall s :: s in w && s !in todo && was.session[w[s]] >= 0 ==> e.session[w[s]] == was.session[w[s]])
    && (forall s :: s in w && s !in todo && was.session[w[s]] == NONE ==> e.session[w[s]] >= before)
  }

  lemma NothingStarted(e: Entries, w: map<Name, int>, sessions: nat, at: map<int, int>)
    requires Handable(e, w, sessions)
    ensures Waiting(e, e, w, w.Keys, sessions, sessions, at)
  {
  }

  lemma NewHandable(e: Entries, w: map<Name, int>, sessions: nat, s: Name)
    requires Handable(e, w, sessions) && s in w && 0 <= w[s] < |e.session| && e.session[w[s]] == NONE
    ensures Handable(e.(session := e.session[w[s] := sessions]), w, sessions + 1)
  {
  }

  lemma NewOwned(e: Entries, w: map<Name, int>, sessions: nat, at: map<int, int>, s: Name, t: Name)
    requires Handable(e, w, sessions) && s in w && 0 <= w[s] < |e.session| && e.session[w[s]] == NONE
    requires t == s || Owned(e, w, sessions, at, t)
    ensures Owned(e.(session := e.session[w[s] := sessions]), w, sessions + 1, at[sessions := w[s]], t)
  {
  }

  lemma NewWaits(was: Entries, e: Entries, w: map<Name, int>, todo: set<Name>, before: nat, sessions: nat,
                 at: map<int, int>, s: Name)
    requires Waiting(was, e, w, todo, before, sessions, at)
    requires s in todo && s in w && 0 <= w[s] < |e.session| && e.session[w[s]] == NONE
    ensures Waiting(was, e.(session := e.session[w[s] := sessions]), w, todo - {s}, before, sessions + 1,
             at[sessions := w[s]])
  {
    var e' := e.(session := e.session[w[s] := sessions]);
    NewHandable(e, w, sessions, s);
    forall t | t in w && (t !in todo || t == s) ensures Owned(e', w, sessions + 1, at[sessions := w[s]], t) {
      NewOwned(e, w, sessions, at, s, t);
    }
    assert Handable(e, w, sessions);
  }

  lemma KeepOld(was: Entries, e: Entries, w: map<Name, int>, todo: set<Name>, before: nat, sessions: nat, at: map<int,
                int>, s: Name)
    requires Waiting(was, e, w, todo, before, sessions, at)
    requires s in todo && s in w && 0 <= w[s] < |e.session| && e.session[w[s]] != NONE
    ensures Waiting(was, e, w, todo - {s}, before, sessions, at[e.session[w[s]] := w[s]])
  {
    forall t | t in w && t !in todo ensures Owned(e, w, sessions, at[e.session[w[s]] := w[s]], t) {
      assert Owned(e, w, sessions, at, t);
    }
  }

  lemma AllStarted(was: Entries, e: Entries, w: map<Name, int>, before: nat, sessions: nat, at: map<int, int>)
    requires Waiting(was, e, w, {}, before, sessions, at)
    ensures AllOwned(e, w, sessions, at) && Started(was, e, w, before) && |e.session| == |was.session|
  {
  }

  // ---------------------------------------------------------------- putting a reload together

  lemma CollectedParts(e: Entries, fc: seq<int>, m: map<Name, int>, w: map<Name, int>, was: Entries,
                       streams: seq<Name>, sl: int, last: int)
    requires Collected(e, fc, m, w, was, streams, sl, last)
    ensures Shape(e, fc, m, w) && Chained(e, was.next, Common(streams, m), m) && AllHanded(e, m, w)
             && SameSessions(e, was, m)
    ensures forall s :: s in w <==> s in streams
    ensures |e.session| == |e.next| && |was.session| == |was.next| && forall s :: s in m ==> 0 <= m[s] < |was.next|
    ensures |was.next| <= |e.next| && -1 <= last < |e.next|
    ensures forall s, t :: s in w && t in w && s != t ==> w[s] != w[t]
    ensures forall s, t :: s in m && t in m && m[s] == m[t] ==> s == t
    ensures Distinct(streams)
  {
    CommonPlaces(e, fc, m, w, streams);
  }

  lemma StillChained(was: Entries, e: Entries, e': Entries, m: map<Name, int>, streams: seq<Name>)
    requires Chained(e, was.next, Common(streams, m), m) && Untouched(e, e', m) && |e.session| == |e.next|
    requires SameSessions(e, was, m) && |was.session| == |was.next| && |e'.next| >= |was.next|
    requires forall s :: s in m ==> 0 <= m[s] < |was.next|
    ensures Chained(e', was.next, Common(streams, m), m) && SameSessions(e', was, m)
  {
    var c := Common(streams, m);
    forall k | 0 <= k < |c| ensures e'.next[c[k]] == e.next[c[k]] {
      CommonIn(streams, m, k);
    }
  }

  lemma StillOwned(was: Entries, e: Entries, e': Entries, m: map<Name, int>, sessions: nat, at: map<int, int>)
    requires AllOwned(was, m, sessions, at) && SameSessions(e, was, m) && Untouched(e, e', m)
    ensures AllOwned(e', m, sessions, at)
  {
    forall s | s in m ensures Owned(e', m, sessions, at, s) { assert Owned(was, m, sessions, at, s); }
  }

  /** The sessions handed on are different ones. */
  lemma Handed1(was: Entries, c: Entries, mid: Entries, e: Entries, m: map<Name, int>, w: map<Name, int>,
                sessions: nat, at: map<int, int>)
    requires AllOwned(was, m, sessions, at) && AllHanded(c, m, w) && SameSessions(c, was, m)
    requires c.session == mid.session == e.session
    requires forall s, t :: s in w && t in w && s != t ==> w[s] != w[t]
    requires forall s, t :: s in m && t in m && m[s] == m[t] ==> s == t
    ensures Handable(e, w, sessions)
  {
    forall s | s in w ensures 0 <= w[s] < |e.session| && (e.session[w[s]] == NONE || 0 <= e.session[w[s]] < sessions) {
      assert Handed(c, m, w, s);
      if s in m { assert Owned(was, m, sessions, at, s); }
    }
    forall s, t | s in w && t in w && s != t ensures e.session[w[s]] != e.session[w[t]] || e.session[w[s]] == NONE {
      assert Handed(c, m, w, s) && Handed(c, m, w, t);
      if s in m && t in m { assert Owned(was, m, sessions, at, s) && Owned(was, m, sessions, at, t); }
    }
  }

  lemma {:induction false} InCommon(m: map<Name, int>, streams: seq<Name>, s: Name)
    requires s in m && s in streams
    ensures m[s] in Common(streams, m)
    decreases |streams|
  {
    var n := |streams| - 1;
    var rest := streams[..n];
    assert streams == rest + [streams[n]];
    if s in rest { InCommon(m, rest, s); }
  }

  lemma SessionsKept(was: Entries, c: Entries, start: Entries, e: Entries, m: map<Name, int>, w: map<Name, int>,
                     before: nat, at: map<int, int>)
    requires AllHanded(c, m, w) && SameSessions(c, was, m) && AllOwned(was, m, before, at)
    requires c.session == start.session && Started(start, e, w, before) && |e.session| == |start.session|
    ensures Handover(was, e, m, w, before)
  {
    forall s | s in w ensures Handed(c, m, w, s) {}
    forall s | s in m ensures Owned(was, m, before, at, s) {}
  }

  lemma OthersEnded(was: Entries, c: Entries, mid: Entries, m: map<Name, int>, streams: seq<Name>, before: nat,
                    at: map<int, int>, ended: seq<int>)
    requires SameSessions(c, was, m) && AllOwned(was, m, before, at)
    requires forall s, t :: s in m && t in m && m[s] == m[t] ==> s == t
    requires c.session == mid.session
    requires AreSessions(ended, mid, LeftOver(m, Common(streams, m)))
    ensures forall x :: x in ended <==> exists s :: s !in streams && HasSession(was, m, s, x)
  {
    var left := LeftOver(m, Common(streams, m));
    forall s | s in m ensures s in left <==> s !in streams {
      assert Owned(was, m, before, at, s);
      if s in streams {
        InCommon(m, streams, s);
      } else if m[s] in Common(streams, m) {
        var k :| 0 <= k < |Common(streams, m)| && Common(streams, m)[k] == m[s];
        CommonIn(streams, m, k);
      }
    }
    forall x | x in ended ensures exists s :: s !in streams && HasSession(was, m, s, x) {
      var s :| HasSession(mid, left, s, x);
      assert Owned(was, m, before, at, s);
      assert HasSession(was, m, s, x);
    }
    forall x, s | s !in streams && HasSession(was, m, s, x) ensures x in ended { assert HasSession(mid, left, s, x); }
  }

  lemma LinksClear(c: Entries, mid: Entries, start: Entries, e: Entries, m: map<Name, int>, w: map<Name, int>)
    requires AllHanded(c, m, w) && Untouched(c, mid, w) && Untouched(mid, start, w) && e.next == start.next
    requires c.session == mid.session && |mid.next| == |mid.session| && |c.next| == |c.session|
    ensures Unlinked(e, w)
  {
    forall s | s in w ensures Handed(c, m, w, s) {}
  }

  lemma StartEnding(e: Entries, m: map<Name, int>)
    ensures EndedSoFar(e, m, m, [])
  {
  }

  lemma SameSizes(e: Entries, e': Entries, n: int)
    requires SameBut(e, e', n)
    ensures e'.stream == e.stream && e'.session == e.session && |e'.next| == |e.next|
  {
  }

  ghost predicate NotIn(n: int, m: map<Name, int>) {
    forall t :: t in m ==> m[t] != n
  }

  /** So far: the sessions ended are those of entries that have left the map. */
  ghost predicate EndedSoFar(e: Entries, m: map<Name, int>, cur: map<Name, int>, ended: seq<int>) {
    && (forall s :: s in cur ==> s in m && cur[s] == m[s]) && |ended| + |cur| == |m|
    && (forall x :: x in ended ==> exists s :: HasSession(e, m, s, x))
    && (forall s, x :: HasSession(e, m, s, x) ==> x in ended || s in cur)
  }

  lemma OneMoreEnded(e: Entries, m: map<Name, int>, cur: map<Name, int>, ended: seq<int>, s: Name, x: int)
    requires EndedSoFar(e, m, cur, ended) && s in cur && HasSession(e, m, s, x)
    ensures EndedSoFar(e, m, cur - {s}, ended + [x])
  {
    MapSize(cur, s, 0);
    var more := ended + [x];
    forall y | y in more ensures exists t :: HasSession(e, m, t, y) {
      if y !in ended { assert HasSession(e, m, s, y); }
    }
    forall t, y | HasSession(e, m, t, y) ensures y in more || t in cur - {s} {
      if y in ended { assert y in more; } else if t == s { assert y == x == more[|ended|]; }
    }
  }

  lemma AllEnded(e: Entries, m: map<Name, int>, ended: seq<int>)
    requires EndedSoFar(e, m, map[], ended)
    ensures |ended| == |m| && AreSessions(ended, e, m)
  {
  }

  /** Nothing but one link is different. */
  ghost predicate SameBut(e: Entries, e': Entries, n: int) {
    && e'.stream == e.stream && e'.session == e.session && |e'.next| == |e.next|
    && forall i :: 0 <= i < |e.next| && i != n ==> e'.next[i] == e.next[i]
  }

  lemma StillUntouched(was: Entries, e: Entries, e': Entries, w: map<Name, int>, n: int)
    requires Untouched(was, e, w) && SameBut(e, e', n) && NotIn(n, w)
    requires |was.next| == |e.next| == |was.session| == |e.session|
    ensures Untouched(was, e', w)
  {
  }

  lemma Sizes(e: Entries, fc: seq<int>, m: map<Name, int>, w: map<Name, int>)
    requires Shape(e, fc, m, w)
    ensures |e.stream| == |e.session| == |e.next| && Untouched(e, e, m) && Untouched(e, e, w)
  {
  }

  /** Entry `n` is in the map, under its own stream. */
  ghost predicate EntryOf(e: Entries, m: map<Name, int>, n: int) {
    0 <= n < |e.stream| && e.stream[n] in m && m[e.stream[n]] == n
  }

  ghost predicate HasSession(e: Entries, m: map<Name, int>, s: Name, x: int) {
    s in m && 0 <= m[s] < |e.session| && e.session[m[s]] == x
  }

  /** Those are the sessions of a map's entries. */
  ghost predicate AreSessions(xs: seq<int>, e: Entries, m: map<Name, int>) {
    forall x :: x in xs <==> exists s :: HasSession(e, m, s, x)
  }

  /** The entries of a map that are not among those. */
  ghost function LeftOver(m: map<Name, int>, entries: seq<int>): map<Name, int> {
    map s | s in m && m[s] !in entries :: m[s]
  }

  lemma LeftOverAll(m: map<Name, int>)
    ensures LeftOver(m, []) == m
  {
  }

  lemma LeftOverNext(m: map<Name, int>, common: seq<int>, k: nat, s: Name)
    requires k < |common| && Distinct(common) && s in m && m[s] == common[k]
    requires forall t :: t in LeftOver(m, common[..k]) && m[t] == common[k] ==> t == s
    ensures s in LeftOver(m, common[..k]) && LeftOver(m, common[..k+1]) == LeftOver(m, common[..k]) - {s}
  {
    assert common[..k+1] == common[..k] + [common[k]];
  }

  /** The next entry to give back is under its stream, and under no other. */
  lemma OnlyEntry(e: Entries, fc: seq<int>, cur: map<Name, int>, w: map<Name, int>, m: map<Name, int>,
                  common: seq<int>, k: nat, s: Name)
    requires Shape(e, fc, cur, w) && k < |common| && Distinct(common) && cur == LeftOver(m, common[..k])
    requires s in m && m[s] == common[k] && 0 <= common[k] < |e.stream| && e.stream[common[k]] == s
    ensures s in cur && cur[s] == common[k] && LeftOver(m, common[..k+1]) == cur - {s}
  {
    forall t | t in cur && m[t] == common[k] ensures t == s { assert e.stream[cur[t]] == t; }
    LeftOverNext(m, common, k, s);
  }

  /** Every entry of a map is one that was made. */
  ghost predicate Placed(e: Entries, m: map<Name, int>) {
    |e.stream| == |e.session| == |e.next| && forall s :: s in m ==> 0 <= m[s] < |e.session|
  }

  lemma ShapePlaced(e: Entries, fc: seq<int>, m: map<Name, int>, w: map<Name, int>)
    requires Shape(e, fc, m, w)
    ensures Placed(e, m) && Placed(e, w)
  {
  }

  /** Sessions are no matter of the shape. */
  lemma SessionShape(e: Entries, e': Entries, fc: seq<int>, m: map<Name, int>, w: map<Name, int>)
    requires Shape(e, fc, m, w) && e' == e.(session := e'.session) && |e'.session| == |e.session|
    ensures Shape(e', fc, m, w)
  {
  }

  /** The stream's entry has a session of its own. */
  ghost predicate Owned(e: Entries, m: map<Name, int>, sessions: nat, at: map<int, int>, s: Name) {
    && s in m && 0 <= m[s] < |e.session|
    && var x := e.session[m[s]];
    0 <= x < sessions && x in at && at[x] == m[s]
  }

  ghost predicate AllOwned(e: Entries, m: map<Name, int>, sessions: nat, at: map<int, int>) {
    forall s :: s in m ==> Owned(e, m, sessions, at, s)
  }

  lemma EntriesSized(e: Entries, fc: seq<int>, m: map<Name, int>, w: map<Name, int>, was: Entries, streams: seq<Name>,
                     sl: int, last: int)
    requires Collected(e, fc, m, w, was, streams, sl, last)
    ensures |e.stream| == |e.session| == |e.next| && (last == -1 <==> sl == -1) && -1 <= last
  {
    CommonPlaces(e, fc, m, w, streams);
  }

  lemma NothingCollected(e: Entries, fc: seq<int>, m: map<Name, int>)
    requires Shape(e, fc, m, map[])
    ensures Collected(e, fc, m, map[], e, [], -1, -1)
  {
  }

  /** A stream is a duplicate exactly when it has a new entry already. */
  lemma CollectedKeys(e: Entries, fc: seq<int>, m: map<Name, int>, w: map<Name, int>, was: Entries, streams: seq<Name>,
                      sl: int, last: int, s: Name)
    requires Collected(e, fc, m, w, was, streams, sl, last)
    ensures s in w <==> !Distinct(streams + [s])
    ensures Distinct(streams)
  {
    if s in w {
      var k :| 0 <= k < |streams| && streams[k] == s;
      assert (streams + [s])[k] == (streams + [s])[|streams|];
    }
  }

  lemma {:induction false} MinePrefix(config: seq<Name>, mine: Name -> bool, i: nat, n: nat)
    requires i <= n <= |config|
    ensures Mine(config, mine, i) <= Mine(config, mine, n)
    ensures !Distinct(Mine(config, mine, i)) ==> !Distinct(Mine(config, mine, n))
    decreases n
  {
    if i < n {
      MinePrefix(config, mine, i, n - 1);
      var a, b := Mine(config, mine, i), Mine(config, mine, n);
      assert a <= b;
      if !Distinct(a) {
        var x, y :| 0 <= x < y < |a| && a[x] == a[y];
        assert b[x] == b[y];
      }
    }
  }
}
