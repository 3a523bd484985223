/**
 Reloading the configured pulls. A stream that stays hands its session on from
 its old entry to a new one, which is then linked up to be given back; the
 others' sessions end. The links follow the order of the configuration, but the
 last one is never cleared: after a configuration that was refused for naming a
 stream twice, the next one may give back entries that were never meant.
 `Reload` meets its promises if and only if the last entry that stays has no
 link (`Stale`), and `StaleExactly` says when it has.
 */
module StaticPulls {
  import opened Bytes
  import opened Chains
  import opened StaticEntries
  import opened StaleLinks

  datatype Outcome = Reloaded | Duplicate

  /** The configured streams up to the first that is named a second time. */
  ghost predicate UpToDuplicate(streams: seq<Name>, all: seq<Name>) {
    streams <= all && Distinct(streams) && |streams| < |all| && all[|streams|] in streams
  }

  class StaticPulls {
    var e: Entries
    ghost var fc: seq<int>
    /** The two maps, and which of them is in use. */
    var pulls: seq<map<Name, int>>
    var used: nat
    /** The number of sessions ever started, and the entry each of them belongs to. */
    var sessions: nat
    var at: map<int, int>

    constructor ()
      ensures Valid() && Active() == map[] && Unlinked(e, Active())
    {
      e, fc, pulls, used, sessions, at := Entries([], [], [], -1, 0), [], [map[], map[]], 1, 0, map[];
    }

    ghost function Active(): map<Name, int>
      reads this
    {
      if used < |pulls| then pulls[used] else map[]
    }

    ghost predicate Valid()
      reads this
    {
      && |pulls| == 2 && used < 2 && pulls[1-used] == map[] && Shape(e, fc, Active(), map[])
      && AllOwned(e, Active(), sessions, at) && Inward(e, Active())
    }

    /** As many entries are in use as were made and are not free. */
    lemma Counted()
      requires Valid()
      ensures |e.stream| - e.nfree == |Active()|
    {
    }

    /** An entry for a configured stream. */
    method AddEntry(s: Name, sl: int, last: int, ghost was: Entries, ghost streams: seq<Name>)
      returns (sl': int, last': int)
      requires |pulls| == 2 && used < 2 && s !in pulls[1-used]
      requires Collected(e, fc, pulls[used], pulls[1-used], was, streams, sl, last)
      modifies this`e, this`fc, this`pulls
      ensures |pulls| == 2 && pulls[used] == old(pulls)[used]
      ensures Collected(e, fc, pulls[used], pulls[1-used], was, streams + [s], sl', last')
    {
      hide Collected;
      ghost var m := pulls[used];
      AddedOk(e, fc, m, pulls[1-used], was, streams, sl, last, s);
      EntriesSized(e, fc, m, pulls[1-used], was, streams, sl, last);
      var n := Node(e);
      ghost var r, rest := Added(e, m, s, last), Rest(e, fc);
      e := Got(e, s);
      pulls := pulls[1-used := pulls[1-used][s := n]];
      sl', last' := sl, last;
      if s in pulls[used] {
        var old' := pulls[used][s];
        e := e.(session := e.session[n := e.session[old']]);
        if last < 0 { sl' := old'; } else { e := Linked(e, last, old'); }
        last' := old';
      }
      fc := rest;
      assert e == r;
      assert sl' == NewFirst(m, s, sl);
    }

    /**
     New entries for the configured streams; old ones of the same streams give them their sessions and are linked
     up.
     */
    method Collect(config: seq<Name>, mine: Name -> bool)
      returns (dup: bool, sl: int, last: int, ghost streams: seq<Name>)
      requires Valid()
      modifies this`e, this`fc, this`pulls
      ensures |pulls| == 2 && pulls[used] == old(pulls)[used]
      ensures dup <==> !Distinct(Mine(config, mine, |config|))
      ensures if dup then UpToDuplicate(streams, Mine(config, mine, |config|))
               else streams == Mine(config, mine, |config|)
      ensures Collected(e, fc, pulls[used], pulls[1-used], old(e), streams, sl, last)
    {
      hide Collected, AllOwned, Shape, Inward;
      ghost var m, was := pulls[used], e;
      dup, sl, last, streams := false, -1, -1, [];
      NothingCollected(e, fc, m);
      var i := 0;
      while i < |config|
        invariant i <= |config| && |pulls| == 2 && used < 2 && pulls[used] == m && streams == Mine(config, mine, i)
        invariant Collected(e, fc, m, pulls[1-used], was, streams, sl, last)
      {
        var s := config[i];
        MinePrefix(config, mine, i + 1, |config|);
        if mine(s) {
          CollectedKeys(e, fc, m, pulls[1-used], was, streams, sl, last, s);
          if s in pulls[1-used] {
            assert (streams + [s])[|streams|] == s;
            dup := true;
            return;
          }
          sl, last := AddEntry(s, sl, last, was, streams);
          streams := streams + [s];
        }
        i := i + 1;
      }
      CollectedKeys(e, fc, m, pulls[1-used], was, streams, sl, last, []);
    }

    /** An entry leaves one of the maps and becomes free. */
    method Drop(i: nat, s: Name) returns (n: int)
      requires i < 2 && |pulls| == 2 && s in pulls[i] && Placed(e, pulls[i])
      modifies this`e, this`fc, this`pulls
      ensures |pulls| == 2 && n == old(pulls)[i][s] && pulls[i] == old(pulls)[i] - {s} && pulls[1-i] == old(pulls)[1-i]
      ensures |pulls[i]| == |old(pulls)[i]| - 1 && SameBut(old(e), e, n)
      ensures Shape(old(e), old(fc), old(pulls)[i], pulls[1-i]) ==>
                Shape(e, fc, pulls[i], pulls[1-i]) && NotIn(n, pulls[i]) && NotIn(n, pulls[1-i])
      ensures Circular(old(e)) ==> Circular(e)
    {
      hide Shape, Circular, NotIn;
      MapSize(pulls[i], s, 0);
      n := pulls[i][s];
      DropKeeps(e, fc, pulls[i], pulls[1-i], s);
      fc := [n] + fc;
      e := PutBack(e, n);
      pulls := pulls[i := pulls[i] - {s}];
    }

    /** One new entry is given back. */
    method RecycleOne(ghost was: Entries)
      requires |pulls| == 2 && used < 2 && Shape(e, fc, pulls[1-used], pulls[used]) && pulls[1-used].Keys != {}
      requires SamePlaces(was, e) && Untouched(was, e, pulls[used])
      modifies this`e, this`fc, this`pulls
      ensures |pulls| == 2 && pulls[used] == old(pulls)[used] && |pulls[1-used]| == |old(pulls)[1-used]| - 1
      ensures Shape(e, fc, pulls[1-used], pulls[used]) && SamePlaces(was, e) && Untouched(was, e, pulls[used])
    {
      hide Shape, Untouched, SameBut, Circular, Placed, NotIn;
      ghost var so, m := e, pulls[used];
      var s :| s in pulls[1-used];
      ShapePlaced(e, fc, pulls[1-used], m);
      var n := Drop(1 - used, s);
      SameSizes(so, e, n);
      StillUntouched(was, so, e, m, n);
    }

    /** After a duplicate: the new entries are given back. */
    method Recycle()
      requires |pulls| == 2 && used < 2 && Shape(e, fc, pulls[used], pulls[1-used])
      modifies this`e, this`fc, this`pulls
      ensures |pulls| == 2 && pulls[used] == old(pulls)[used] && pulls[1-used] == map[]
               && Shape(e, fc, pulls[used], map[])
      ensures Untouched(old(e), e, pulls[used]) && SamePlaces(old(e), e)
    {
      hide Shape, Untouched, SamePlaces;
      ghost var m, was := pulls[used], e;
      Swapped(e, fc, m, pulls[1-used]);
      Sizes(e, fc, m, pulls[1-used]);
      AtFirst(e);
      while pulls[1-used].Keys != {}
        invariant |pulls| == 2 && pulls[used] == m && Shape(e, fc, pulls[1-used], m)
        invariant SamePlaces(was, e) && Untouched(was, e, m)
        decreases |pulls[1-used]|
      {
        RecycleOne(was);
      }
      NoKeys(pulls[1-used]);
      Swapped(e, fc, map[], m);
    }

    /** Entries are given back along their links, from `sl` to wherever they lead, and their streams leave the map. */
    method GiveBack(sl: int, ghost common: seq<int>)
      requires |pulls| == 2 && used < 2 && Shape(e, fc, pulls[used], pulls[1-used]) && Inward(e, pulls[used])
      requires sl == At(common, 0) && InUse(e, pulls[used], common) && Distinct(common)
      requires forall k :: 0 <= k < |common| - 1 ==> 0 <= common[k] < |e.next| && e.next[common[k]] == common[k+1]
      modifies this`e, this`fc, this`pulls
      ensures |pulls| == 2 && pulls[1-used] == old(pulls)[1-used] && SamePlaces(old(e), e)
               && Part(pulls[used], old(pulls)[used])
      ensures Beyond(old(e), common) == -1 ==>
                && Shape(e, fc, pulls[used], pulls[1-used]) && Untouched(old(e), e, pulls[1-used])
                && pulls[used] == LeftOver(old(pulls)[used], common)
      ensures Beyond(old(e), common) != -1 ==> Lost(old(e), common, Beyond(old(e), common), e, pulls[used])
    {
      hide Walk, Shape, Untouched, LeftOver, Distinct, Inward, Lost, InUse, Beyond, Part;
      ghost var m, w, was, p := pulls[used], pulls[1-used], e, Way(0, false, [], 0);
      ghost var tail := Beyond(e, common);
      WalkBegins(e, fc, m, w, common, sl);
      var cur := sl;
      while cur != -1
        invariant |pulls| == 2 && pulls[1-used] == w && Walk(was, m, w, common, tail, e, fc, pulls[used], cur, p)
        decreases if p.turned then 0 else 1, if p.turned then |p.g| - p.i else |pulls[used]|
      {
        ghost var p' := WalkOn(was, m, w, common, tail, e, fc, pulls[used], cur, p);
        var next := e.next[cur];
        pulls := pulls[used := pulls[used] - {e.stream[cur]}];
        e, fc := PutBack(e, cur), [cur] + fc;
        cur, p := next, p';
      }
      WalkEnds(was, m, w, common, tail, e, fc, pulls[used], p);
    }

    /** One entry that is left in the map goes, and its session is ended. */
    method EndOne(ghost was: Entries, ghost wasFree: seq<int>, ghost m: map<Name, int>, ghost ended: seq<int>)
      returns (x: int)
      requires |pulls| == 2 && used < 2 && pulls[used].Keys != {}
      requires EndingOk(was, wasFree, m, pulls[1-used], e, fc, pulls[used]) && EndedSoFar(was, m, pulls[used], ended)
      modifies this`e, this`fc, this`pulls
      ensures |pulls| == 2 && pulls[1-used] == old(pulls)[1-used] && |pulls[used]| == |old(pulls)[used]| - 1
      ensures EndingOk(was, wasFree, m, pulls[1-used], e, fc, pulls[used])
      ensures EndedSoFar(was, m, pulls[used], ended + [x])
    {
      hide Shape, Untouched, EndedSoFar, SameBut, Circular, Placed, HasSession, EndingOk;
      var s :| s in pulls[used];
      ghost var w, so, soFree, cur := pulls[1-used], e, fc, pulls[used];
      EndingPlace(was, wasFree, m, w, so, soFree, cur, ended, s);
      var n := Drop(used, s);
      EndingGoesOn(was, wasFree, m, w, so, soFree, cur, e, fc, s, n);
      OneMoreEnded(was, m, cur, ended, s, was.session[n]);
      x := e.session[n];
    }

    /** What is left in the map goes, and its sessions are ended. */
    method EndOthers() returns (ended: seq<int>)
      requires |pulls| == 2 && used < 2 && Placed(e, pulls[used])
      modifies this`e, this`fc, this`pulls
      ensures |pulls| == 2 && pulls[used] == map[] && pulls[1-used] == old(pulls)[1-used] && SamePlaces(old(e), e)
      ensures Shape(old(e), old(fc), old(pulls)[used], pulls[1-used]) ==>
                Shape(e, fc, map[], pulls[1-used]) && Untouched(old(e), e, pulls[1-used])
      ensures Circular(old(e)) ==> Circular(e)
      ensures |ended| == |old(pulls)[used]| && AreSessions(ended, old(e), old(pulls)[used])
    {
      hide Shape, Untouched, EndedSoFar, Circular, Placed, AreSessions, EndingOk, SamePlaces;
      ghost var m, w, was, wasFree := pulls[used], pulls[1-used], e, fc;
      ended := [];
      StartEnding(e, m);
      EndingBegins(e, fc, m, w);
      while pulls[used].Keys != {}
        invariant |pulls| == 2 && pulls[1-used] == w && EndingOk(was, wasFree, m, w, e, fc, pulls[used])
        invariant EndedSoFar(was, m, pulls[used], ended)
        decreases |pulls[used]|
      {
        var x := EndOne(was, wasFree, m, ended);
        ended := ended + [x];
      }
      NoKeys(pulls[used]);
      EndingEnds(was, wasFree, m, w, e, fc);
      AllEnded(was, m, ended);
    }

    /** Streams without a session get one; the others' sessions learn their new entries. */
    method StartAll(ghost was: Entries)
      requires |pulls| == 2 && used < 2 && was == e && Handable(e, pulls[1-used], sessions)
      modifies this`e, this`sessions, this`at
      ensures AllOwned(e, pulls[1-used], sessions, at) && e == was.(session := e.session)
               && |e.session| == |was.session|
      ensures Started(was, e, pulls[1-used], old(sessions))
    {
      hide Handable, Waiting;
      var w := pulls[1-used];
      var todo := w.Keys;
      NothingStarted(e, w, sessions, at);
      while todo != {}
        invariant todo <= w.Keys && e == was.(session := e.session)
        invariant Waiting(was, e, w, todo, old(sessions), sessions, at)
        decreases |todo|
      {
        var s :| s in todo;
        var n := w[s];
        WaitingPlace(was, e, w, todo, old(sessions), sessions, at, s);
        if e.session[n] == NONE {
          NewWaits(was, e, w, todo, old(sessions), sessions, at, s);
          e := e.(session := e.session[n := sessions]);
          at := at[sessions := n];
          sessions := sessions + 1;
        } else {
          KeepOld(was, e, w, todo, old(sessions), sessions, at, s);
          at := at[e.session[n] := n];
        }
        todo := todo - {s};
      }
      AllStarted(was, e, w, old(sessions), sessions, at);
    }

    /** After a duplicate: entries in use, their sessions and owners are as they were; some links are not. */
    method Refuse(ghost was: Entries, ghost streams: seq<Name>, ghost sl: int, ghost last: int)
      requires |pulls| == 2 && used < 2 && Collected(e, fc, pulls[used], pulls[1-used], was, streams, sl, last)
      requires AllOwned(was, pulls[used], sessions, at) && Inward(was, pulls[used])
      modifies this`e, this`fc, this`pulls
      ensures |pulls| == 2 && pulls[used] == old(pulls)[used] && pulls[1-used] == map[]
               && Shape(e, fc, pulls[used], map[])
      ensures SameSessions(e, was, pulls[used]) && Chained(e, was.next, Common(streams, pulls[used]), pulls[used])
      ensures AllOwned(e, pulls[used], sessions, at) && Inward(e, pulls[used])
    {
      hide Collected, Shape, Chained, AllHanded, SameSessions, AllOwned, Untouched, Common, Inward;
      ghost var m, so := pulls[used], e;
      CollectedParts(e, fc, m, pulls[1-used], was, streams, sl, last);
      Recycle();
      StillChained(was, so, e, m, streams);
      StillOwned(was, so, e, m, sessions, at);
      ShapePlaces(e, fc, m, map[]);
      ChainedInward(e, was, fc, m, streams);
    }

    /** The old map empties: entries that stay are given back, then the others end. */
    method Retire(sl: int, ghost was: Entries, ghost streams: seq<Name>, ghost last: int)
      returns (ended: seq<int>, ghost mid: Entries, ghost left: map<Name, int>)
      requires |pulls| == 2 && used < 2 && Collected(e, fc, pulls[used], pulls[1-used], was, streams, sl, last)
      requires Inward(was, pulls[used])
      modifies this`e, this`fc, this`pulls
      ensures |pulls| == 2 && pulls[used] == map[] && pulls[1-used] == old(pulls)[1-used]
      ensures Retired(was, old(e), mid, e, fc, old(pulls)[used], pulls[1-used], left, streams, ended)
    {
      hide Collected, Shape, LeftOver, Untouched, EntryOf, AreSessions, Common, HasSession, Inward, InUse, Distinct,
           Stale, Beyond, Lost,
           Circular, Part, Placed, SamePlaces;
      ghost var m, w, c, common := pulls[used], pulls[1-used], e, Common(streams, pulls[used]);
      CollectedLinks(e, fc, m, w, was, streams, sl, last);
      CollectedShape(e, fc, m, w, was, streams, sl, last);
      GiveBack(sl, common);
      mid, left := e, pulls[used];
      PartPlaced(c, mid, m, left);
      ended := EndOthers();
    }

    /** The other map takes over: what stays and what ends is settled, then every stream has a session. */
    method Switch(sl: int, ghost was: Entries, ghost streams: seq<Name>, ghost last: int) returns (ended: seq<int>)
      requires |pulls| == 2 && used < 2 && Collected(e, fc, pulls[used], pulls[1-used], was, streams, sl, last)
      requires AllOwned(was, pulls[used], sessions, at) && Inward(was, pulls[used])
      modifies this
      ensures |pulls| == 2 && used == 1 - old(used) && pulls[used] == old(pulls)[used] && pulls[1-used] == map[]
      ensures AllOwned(e, pulls[used], sessions, at) && Handover(was, e, old(pulls)[1-used], pulls[used], old(sessions))
      ensures Sound(was, e, old(pulls)[1-used], streams, ended) <==> !Stale(was, old(pulls)[1-used], streams)
      ensures !Stale(was, old(pulls)[1-used], streams) ==>
                Shape(e, fc, pulls[used], map[]) && Unlinked(e, pulls[used]) && Inward(e, pulls[used])
      ensures forall s :: s in pulls[used] <==> s in streams
    {
      hide Collected, Shape, Chained, AllHanded, SameSessions, AllOwned, Started, Handable, Unlinked, Handover,
           Common, Inward, Sound, Stale,
           Retired, Distinct;
      ghost var m, w, c := pulls[used], pulls[1-used], e;
      CollectedParts(e, fc, m, w, was, streams, sl, last);
      ghost var mid, left;
      ended, mid, left := Retire(sl, was, streams, last);
      ghost var start := e;
      RetiredSessions(was, c, mid, start, fc, m, w, left, streams, ended);
      Handed1(was, c, mid, start, m, w, sessions, at);
      StartAll(start);
      SessionsKept(was, c, start, e, m, w, old(sessions), old(at));
      Settled(was, c, mid, start, e, fc, m, w, left, streams, old(sessions), old(at), ended);
      if !Stale(was, m, streams) { TakenOver(e, fc, w); }
      used := 1 - used;
    }

    /**
     A new configuration. A stream named twice is refused, with nothing but links of entries in use changed.
     Otherwise streams that stay keep their sessions and new ones get one; the rest of what a reload is for depends
     on those links.
     */
    method Reload(config: seq<Name>, mine: Name -> bool) returns (r: Outcome, ended: seq<int>, ghost streams: seq<Name>)
      requires Valid()
      modifies this
      ensures r == Duplicate <==> !Distinct(Mine(config, mine, |config|))
      ensures if r == Duplicate then UpToDuplicate(streams, Mine(config, mine, |config|))
               else streams == Mine(config, mine, |config|)
      ensures r == Duplicate ==>
                && Valid() && Active() == old(Active()) && ended == [] && SameSessions(e, old(e), Active())
                && Chained(e, old(e).next, Common(streams, Active()), Active())
      ensures r == Reloaded ==>
                && (forall s :: s in Active() <==> s in streams) && AllOwned(e, Active(), sessions, at)
                && Handover(old(e), e, old(Active()), Active(), old(sessions))
                && (Sound(old(e), e, old(Active()), streams, ended) <==> !Stale(old(e), old(Active()), streams))
      ensures r == Reloaded && !Stale(old(e), old(Active()), streams) ==> Valid() && Unlinked(e, Active())
    {
      hide Collected, Shape, Chained, AllHanded, SameSessions, AllOwned, Untouched, Unlinked, Handover, Stale, Common,
           Mine,
           Distinct, HasSession, Inward, Sound, UpToDuplicate;
      ghost var m, was := pulls[used], e;
      ended := [];
      var dup, sl, last;
      dup, sl, last, streams := Collect(config, mine);
      if dup {
        Refuse(was, streams, sl, last);
        r := Duplicate;
        return;
      }
      ended := Switch(sl, was, streams, last);
      r := Reloaded;
    }
  }

  // ---------------------------------------------------------------- when links are left over

  /** The streams that have an entry already, in the order of the configuration. */
  function Kept(streams: seq<Name>, m: map<Name, int>): seq<Name> {
    if streams == [] then []
    else
      var s := streams[|streams|-1];
      Kept(streams[..|streams|-1], m) + (if s in m then [s] else [])
  }

  lemma {:induction false} CommonIsKept(streams: seq<Name>, m: map<Name, int>)
    ensures |Common(streams, m)| == |Kept(streams, m)|
    ensures forall k :: 0 <= k < |Kept(streams, m)| ==>
             Kept(streams, m)[k] in m && Common(streams, m)[k] == m[Kept(streams, m)[k]]
  {
    if streams != [] {
      CommonIsKept(streams[..|streams|-1], m);
    }
  }

  /** What a refused configuration leaves behind: links from all kept streams but the last. */
  lemma LinkLeft(e: Entries, was: Entries, m: map<Name, int>, refused: seq<Name>, s: Name)
    requires Unlinked(was, m) && Chained(e, was.next, Common(refused, m), m) && Distinct(Common(refused, m))
    requires forall s :: s in m ==> 0 <= m[s] < |was.next|
    requires forall s, t :: s in m && t in m && m[s] == m[t] ==> s == t
    requires s in m
    ensures m[s] < |e.next| && (e.next[m[s]] != -1 <==> FollowedIn(s, Kept(refused, m)))
  {
    hide Common, Kept;
    CommonIsKept(refused, m);
    var a, c := Kept(refused, m), Common(refused, m);
    assert was.next[m[s]] == -1;
    if m[s] in c {
      var k :| 0 <= k < |c| && c[k] == m[s];
      assert a[k] == s;
      if k < |c| - 1 {
        assert e.next[c[k]] == c[k+1] == m[a[k+1]];
      } else {
        assert e.next[c[k]] == was.next[c[k]];
        forall i | 0 <= i < |a| - 1 ensures a[i] != s { assert c[i] != c[k]; }
      }
    } else {
      forall k | 0 <= k < |a| ensures a[k] != s { assert c[k] in c; }
    }
  }

  ghost predicate FollowedIn(s: Name, a: seq<Name>) {
    exists k :: 0 <= k < |a| - 1 && a[k] == s
  }

  /**
   After a configuration `refused` up to its duplicate, the next one goes wrong if and only if the last stream it
   keeps was followed by another kept stream in the refused one.
   */
  lemma StaleExactly(e: Entries, was: Entries, m: map<Name, int>, refused: seq<Name>, streams: seq<Name>)
    requires Unlinked(was, m) && Chained(e, was.next, Common(refused, m), m) && Distinct(Common(refused, m))
    requires forall s :: s in m ==> 0 <= m[s] < |was.next|
    requires forall s, t :: s in m && t in m && m[s] == m[t] ==> s == t
    ensures Stale(e, m, streams) <==> var b := Kept(streams, m); b != [] && FollowedIn(b[|b|-1], Kept(refused, m))
  {
    hide Common, Kept, FollowedIn, Chained, Unlinked;
    CommonIsKept(streams, m);
    var b := Kept(streams, m);
    if b != [] { LinkLeft(e, was, m, refused, b[|b|-1]); }
  }

  lemma TakenOver(e: Entries, fc: seq<int>, w: map<Name, int>)
    requires Shape(e, fc, map[], w) && Unlinked(e, w)
    ensures Shape(e, fc, w, map[]) && Inward(e, w)
  {
    hide Inward, Unlinked;
    Swapped(e, fc, map[], w);
    UnlinkedInward(e, w);
  }

  lemma AtFirst(e: Entries)
    ensures SamePlaces(e, e)
  {
  }

  lemma InPlace(p: StaticPulls)
    requires p.Valid()
    ensures forall s :: s in p.Active() ==> 0 <= p.Active()[s] < |p.e.next|
    ensures forall s, t :: s in p.Active() && t in p.Active() && p.Active()[s] == p.Active()[t] ==> s == t
  {
  }

  lemma ThreeMine(a: Name, b: Name, c: Name, all: Name -> bool)
    requires all(a) && all(b) && all(c)
    ensures Mine([a, b, c], all, 3) == [a, b, c] && Mine([a, b], all, 2) == [a, b]
  {
    assert Mine([a, b, c], all, 1) == [a] && Mine([a, b, c], all, 2) == [a, b];
    assert Mine([a, b], all, 1) == [a];
  }

  lemma DuplicateAt(streams: seq<Name>, b: Name, c: Name)
    requires UpToDuplicate(streams, [b, c, b]) && b != c
    ensures streams == [b, c]
  {
    var all := [b, c, b];
    assert streams == all[..|streams|] && all[2] == b;
  }

  lemma TwoKept(m: map<Name, int>, a: Name, b: Name)
    requires a in m && b in m
    ensures Kept([a, b], m) == [a, b]
  {
    assert [a, b][..1] == [a] && [a][..0] == [];
    assert Kept([a], m) == Kept([], m) + [a];
    assert Kept([a, b], m) == Kept([a], m) + [b];
  }

  lemma {:induction false} NoneKept(e: Entries, streams: seq<Name>)
    ensures Common(streams, map[]) == [] && !Stale(e, map[], streams)
  {
    if streams != [] { NoneKept(e, streams[..|streams|-1]); }
  }

  lemma TwoStale(e: Entries, was: Entries, m: map<Name, int>, a: Name, b: Name, c: Name)
    requires a in m && b in m && c in m && b != c
    requires Unlinked(was, m) && Chained(e, was.next, Common([b, c], m), m)
    requires forall s :: s in m ==> 0 <= m[s] < |was.next|
    requires forall s, t :: s in m && t in m && m[s] == m[t] ==> s == t
    ensures Stale(e, m, [a, b])
  {
    hide Common, Kept, Chained, Unlinked, Stale;
    TwoKept(m, b, c);
    TwoKept(m, a, b);
    CommonIsKept([b, c], m);
    assert m[b] != m[c];
    assert FollowedIn([a, b][1], [b, c]) by { assert [b, c][0] == b; }
    StaleExactly(e, was, m, [b, c], [a, b]);
  }

  /**
   Three streams are configured; a configuration that names one of them twice is refused; the next one keeps two
   of them.
   */
  method RefusedThenReloaded() returns (p: StaticPulls, ghost was: Entries, ghost m: map<Name, int>, ended: seq<int>)
    ensures m.Keys == {[97], [98], [99]} && p.Active().Keys == {[97], [98]}
    ensures !Sound(was, p.e, m, [[97], [98]], ended)
  {
    hide Shape, Chained, SameSessions, AllOwned, Unlinked, Handover, Stale, Common, Inward, Sound, Mine;
    var a: Name, b: Name, c: Name := [97], [98], [99];
    var all := (s: Name) => true;
    ThreeMine(a, b, c, all);
    ThreeMine(b, c, b, all);
    p := new StaticPulls();
    NoneKept(p.e, [a, b, c]);
    var r, ended0, streams0 := p.Reload([a, b, c], all);
    m := p.Active();
    ghost var so := p.e;
    InPlace(p);
    assert [b, c, b][0] == [b, c, b][2];
    var r1, ended1, streams1 := p.Reload([b, c, b], all);
    DuplicateAt(streams1, b, c);
    was := p.e;
    TwoStale(was, so, m, a, b, c);
    ghost var streams2;
    var r2;
    r2, ended, streams2 := p.Reload([a, b], all);
  }

  /**
   After a refused configuration links are left over exactly when two entries or more had been linked up before
   the duplicate.
   */
  lemma StaleAfterDuplicate(e: Entries, was: Entries, m: map<Name, int>, streams: seq<Name>)
    requires Unlinked(was, m) && Chained(e, was.next, Common(streams, m), m) && Distinct(Common(streams, m))
    requires forall s :: s in m ==> 0 <= m[s] < |was.next|
    ensures Unlinked(e, m) <==> |Common(streams, m)| <= 1
  {
    var c := Common(streams, m);
    forall k | 0 <= k < |c| ensures c[k] >= 0 && exists s :: s in m && m[s] == c[k] { CommonIn(streams, m, k); }
    if |c| > 1 {
      var s :| s in m && m[s] == c[0];
      assert e.next[m[s]] == c[1];
    } else {
      forall s | s in m ensures e.next[m[s]] == -1 {
        if m[s] in c { assert m[s] == c[0]; }
      }
    }
  }

  /** The streams of worker `k` out of `n`. */
  function Worker(hash: Name -> nat, n: nat, k: nat): Name -> bool
    requires n > 0
  {
    s => hash(s) % n == k
  }

  /** Every configured stream is pulled by exactly one worker. */
  lemma {:induction false} OneWorker(config: seq<Name>, hash: Name -> nat, n: nat, i: nat, s: Name, k: nat)
    requires n > 0 && i <= |config| && k < n
    ensures s in Mine(config, Worker(hash, n, k), i) <==> s in config[..i] && k == hash(s) % n
  {
    if i > 0 {
      OneWorker(config, hash, n, i - 1, s, k);
      assert config[..i] == config[..i-1] + [config[i-1]];
    }
  }
}
