/**
 Names with a NUL byte. A node keeps a name only up to its first NUL but is
 compared with the whole of it, so such a name is never found again: a second
 insert of it gets a second owner. In the table of `ZoneSpec` two inserts of
 one name agree on its owner (`InsertsAgree`); in the zone there is, for every
 name with a NUL, a legal run in which they do not (`NulNamesHaveTwoOwners`),
 so no run of the table explains it.
 */
module ZoneNames {
  import opened Bytes
  import opened Chains
  import opened StreamZone
  import opened ZoneSpec

  // ---------------------------------------------------------------- what the table promises

  /** Every call under way, and every call the run makes, is an insert. */
  ghost predicate OnlyInserts(s: State, run: seq<Event>) {
    && (forall w :: 0 <= w < |s.pcs| && !s.pcs[w].Idle? ==> s.pcs[w].op.Insert?)
    && (forall i :: 0 <= i < |run| && run[i].Call? ==> run[i].op.Insert?)
  }

  /** What finished inserts were told is in the table. */
  ghost predicate Told(c: Config, s: State, t: Table) {
    forall w :: 0 <= w < |s.pcs| ==> ToldOne(StatusOf(c, s.pcs[w]), t)
  }

  ghost predicate ToldOne(st: Status, t: Table) {
    st.Finished? && st.op.Insert? && st.res != ERROR ==> (st.op.name, st.res) in t
  }

  lemma ToldStays(w: int, t: Table, t': Table, st: Status, st': Status, spare: nat)
    requires SpecStep(w, t, t', st, st', spare) && ToldOne(st, t)
    requires match st case Quiet => true case Pending(op) => op.Insert? case Finished(op, _) => op.Insert?
    ensures ToldOne(st', t') && t <= t'
  {
  }

  /** In a run of the table, whoever has inserted a name has been told the same owner. */
  lemma {:induction false} InsertsAgree(c: Config, s: State, run: seq<Event>, tables: seq<Table>, spares: seq<nat>,
                                        v: int, w: int, name: seq<Byte>, x: int, y: int)
    requires c.Valid() && Shape(c, s) && Legal(c, s, run) && Linearised(c, s, run, tables, spares)
    requires OnlyInserts(s, run) && Told(c, s, tables[0])
    requires 0 <= v < |Outcome(c, s, run).pcs| && StatusOf(c, Outcome(c, s, run).pcs[v]) == Finished(Insert(name), x)
    requires 0 <= w < |Outcome(c, s, run).pcs| && StatusOf(c, Outcome(c, s, run).pcs[w]) == Finished(Insert(name), y)
    requires x != ERROR && y != ERROR
    ensures x == y
    decreases |run|
  {
    if run != [] {
      var e, rest := run[0], run[1..];
      var s' := Apply(c, s, e);
      InsertsStay(c, s, run);
      forall u | 0 <= u < c.nworkers ensures ToldOne(StatusOf(c, s'.pcs[u]), tables[1]) {
        assert ToldOne(StatusOf(c, s.pcs[u]), tables[0]) && ToldOne(StatusOf(c, s.pcs[e.w]), tables[0]);
        ToldStays(e.w, tables[0], tables[1], StatusOf(c, s.pcs[e.w]), StatusOf(c, s'.pcs[e.w]), spares[0]);
      }
      InsertsAgree(c, s', rest, tables[1..], spares[1..], v, w, name, x, y);
    }
  }

  lemma InsertsStay(c: Config, s: State, run: seq<Event>)
    requires c.Valid() && run != [] && Legal(c, s, run) && OnlyInserts(s, run)
    ensures OnlyInserts(Apply(c, s, run[0]), run[1..])
  {
    var e, rest := run[0], run[1..];
    assert forall i :: 0 <= i < |rest| ==> rest[i] == run[i+1];
    if e.Work? { NextOp(c, s, e.w); }
  }

  // ---------------------------------------------------------------- one insert on its own

  lemma {:induction false} OneMore(c: Config, s: State, run: seq<Event>, e: Event)
    requires c.Valid() && Legal(c, s, run) && Enabled(c, Outcome(c, s, run), e)
    ensures Legal(c, s, run + [e]) && Outcome(c, s, run + [e]) == Apply(c, Outcome(c, s, run), e)
    decreases |run|
  {
    if run == [] {
      assert Legal(c, Apply(c, s, e), []);
      assert ([e])[1..] == [] && [] + [e] == [e];
    } else {
      OneMore(c, Apply(c, s, run[0]), run[1..], e);
      assert (run + [e])[1..] == run[1..] + [e];
    }
  }

  ghost predicate InsertsOf(name: seq<Byte>, run: seq<Event>) {
    forall i :: 0 <= i < |run| && run[i].Call? ==> run[i].op == Insert(name)
  }

  /** `run` is a legal run of inserts of `name` from `s0` to `s`. */
  ghost predicate Leads(c: Config, s0: State, name: seq<Byte>, run: seq<Event>, s: State)
    requires c.Valid()
  {
    Legal(c, s0, run) && Outcome(c, s0, run) == s && InsertsOf(name, run)
  }

  lemma Works(c: Config, s0: State, name: seq<Byte>, run: seq<Event>, s: State, w: int)
    returns (run': seq<Event>, s': State)
    requires c.Valid() && Leads(c, s0, name, run, s) && CanStep(c, s, w)
    ensures s' == Step(c, s, w) && Leads(c, s0, name, run', s')
  {
    OneMore(c, s0, run, Work(w));
    run', s' := run + [Work(w)], Step(c, s, w);
  }

  /** Worker `w` may start on its own: no lock it needs is taken, and a node is free. */
  ghost predicate Free1(c: Config, s: State, w: int, b: int) {
    && Shape(c, s) && 0 <= w < c.nworkers && 0 <= b < c.nbuckets && s.locks[b] == -1 && s.mutex == -1
    && 0 <= s.m.free < c.nstreams && -1 <= s.m.next[s.m.free] < c.nstreams
  }

  /** The bucket is empty, or holds one node of another name. */
  ghost predicate NoSuch(c: Config, s: State, b: int, name: seq<Byte>)
    requires Shape(c, s) && 0 <= b < c.nbuckets
  {
    s.m.heads[b] == -1 || (0 <= s.m.heads[b] < c.nstreams && s.m.next[s.m.heads[b]] == -1
        && s.m.names[s.m.heads[b]] != name)
  }

  lemma ScanAlone(c: Config, s0: State, run: seq<Event>, s: State, w: int, name: seq<Byte>)
    returns (run': seq<Event>, s': State)
    requires c.Valid() && Leads(c, s0, name, run, s) && Free1(c, s, w, c.Bucket(name))
             && NoSuch(c, s, c.Bucket(name), name)
    requires s.pcs[w] == Idle && |name| < NAME_LEN
    ensures Leads(c, s0, name, run', s')
    ensures var b := c.Bucket(name);
      s' == s.(locks := s.locks[b := w], pcs := s.pcs[w := GetWant(Insert(name), b)])
  {
    hide Legal, Outcome;
    var b := c.Bucket(name);
    OneMore(c, s0, run, Call(w, Insert(name)));
    run' := run + [Call(w, Insert(name))];
    s' := Apply(c, s, Call(w, Insert(name)));
    run', s' := Works(c, s0, name, run', s', w);
    if s.m.heads[b] != -1 { run', s' := Works(c, s0, name, run', s', w); }
    run', s' := Works(c, s0, name, run', s', w);
    assert s'.pcs == s.pcs[w := GetWant(Insert(name), b)];
  }

  lemma GetAlone(c: Config, s0: State, run: seq<Event>, s: State, w: int, name: seq<Byte>, b: int)
    returns (run': seq<Event>, s': State)
    requires c.Valid() && Shape(c, s) && Leads(c, s0, name, run, s) && 0 <= w < c.nworkers && 0 <= b < c.nbuckets
    requires s.mutex == -1 && 0 <= s.m.free < c.nstreams && -1 <= s.m.next[s.m.free] < c.nstreams
    requires s.pcs[w] == GetWant(Insert(name), b) && |name| < NAME_LEN
    ensures Leads(c, s0, name, run', s')
    ensures var n := s.m.free;
      s' == s.(m := s.m.(names := s.m.names[n := CString(name)], slots := s.m.slots[n := w], next := s.m.next[n := -1],
                         free := s.m.next[n], alloc := s.m.alloc + 1),
               pcs := s.pcs[w := LinkNext(Insert(name), b, n)])
  {
    hide Legal, Outcome;
    var n := s.m.free;
    run', s' := Works(c, s0, name, run, s, w);
    run', s' := Works(c, s0, name, run', s', w);
    assert name[..|name|] == name;
    run', s' := Works(c, s0, name, run', s', w);
    run', s' := Works(c, s0, name, run', s', w);
    run', s' := Works(c, s0, name, run', s', w);
    assert s'.pcs == s.pcs[w := LinkNext(Insert(name), b, n)];
  }

  lemma LinkAlone(c: Config, s0: State, run: seq<Event>, s: State, w: int, name: seq<Byte>, b: int, n: int)
    returns (run': seq<Event>, s': State)
    requires c.Valid() && Shape(c, s) && Leads(c, s0, name, run, s) && 0 <= w < c.nworkers && 0 <= b < c.nbuckets
    requires -1 <= s.m.free < c.nstreams && 0 <= n < c.nstreams && s.pcs[w] == LinkNext(Insert(name), b, n)
    ensures Leads(c, s0, name, run', s')
    ensures s' == s.(m := s.m.(slots := s.m.slots[n := w], next := s.m.next[n := s.m.heads[b]],
             heads := s.m.heads[b := n]),
                     locks := s.locks[b := -1], pcs := s.pcs[w := Done(Insert(name), w)])
  {
    hide Legal, Outcome;
    run', s' := Works(c, s0, name, run, s, w);
    run', s' := Works(c, s0, name, run', s', w);
    run', s' := Works(c, s0, name, run', s', w);
    assert s'.pcs == s.pcs[w := Done(Insert(name), w)];
  }

  /** An insert that runs on its own and does not find its name takes the first free node. */
  lemma InsertAlone(c: Config, s0: State, run: seq<Event>, s: State, w: int, name: seq<Byte>)
    returns (run': seq<Event>, s': State)
    requires c.Valid() && Leads(c, s0, name, run, s) && Free1(c, s, w, c.Bucket(name))
             && NoSuch(c, s, c.Bucket(name), name)
    requires s.pcs[w] == Idle && |name| < NAME_LEN
    ensures Leads(c, s0, name, run', s') && Shape(c, s')
    ensures s'.pcs == s.pcs[w := Done(Insert(name), w)] && s'.locks == s.locks && s'.mutex == -1
    ensures var b, n := c.Bucket(name), s.m.free;
      && s'.m.free == s.m.next[n] && s'.m.heads == s.m.heads[b := n]
      && s'.m.names == s.m.names[n := CString(name)] && s'.m.next == s.m.next[n := s.m.heads[b]]
  {
    hide Legal, Outcome, Leads;
    var b, n := c.Bucket(name), s.m.free;
    run', s' := ScanAlone(c, s0, run, s, w, name);
    run', s' := GetAlone(c, s0, run', s', w, name, b);
    run', s' := LinkAlone(c, s0, run', s', w, name, b, n);
    assert s'.locks == s.locks;
  }

  // ---------------------------------------------------------------- two owners

  /** A legal run: two workers insert one name with a NUL byte, and each is told that the name is its own. */
  lemma TwoInserts(c: Config, name: seq<Byte>) returns (run: seq<Event>, s: State)
    requires c.Valid() && c.nworkers >= 2 && c.nstreams >= 2 && |name| < NAME_LEN && !NulFree(name)
    ensures Leads(c, InitState(c), name, run, s) && |s.pcs| == c.nworkers
    ensures s.pcs[0] == Done(Insert(name), 0) && s.pcs[1] == Done(Insert(name), 1)
  {
    CStringKeeps(name);
    run, s := InsertAlone(c, InitState(c), [], InitState(c), 0, name);
    run, s := InsertAlone(c, InitState(c), run, s, 1, name);
  }

  /** No run of the table explains it. */
  lemma NulNamesHaveTwoOwners(c: Config, name: seq<Byte>) returns (run: seq<Event>)
    requires c.Valid() && c.nworkers >= 2 && c.nstreams >= 2 && |name| < NAME_LEN && !NulFree(name)
    ensures Legal(c, InitState(c), run) && InsertsOf(name, run)
    ensures forall tables, spares :: !Linearised(c, InitState(c), run, tables, spares)
  {
    var s;
    run, s := TwoInserts(c, name);
    forall tables, spares | Linearised(c, InitState(c), run, tables, spares) ensures false {
      InsertsAgree(c, InitState(c), run, tables, spares, 0, 1, name, 0, 1);
    }
  }

  /**
   For one name the condition is exact: inserting it behaves like the table in every run if and only if it has no
   NUL.
   */
  lemma TableExactlyWithoutNul(c: Config, name: seq<Byte>)
    requires c.Valid() && c.nworkers >= 2 && c.nstreams >= 2 && |name| < NAME_LEN
    ensures (forall run :: Legal(c, InitState(c), run) && InsertsOf(name, run) ==> Explained(c, run)) <==> NulFree(name)
  {
    if NulFree(name) {
      forall run | Legal(c, InitState(c), run) && InsertsOf(name, run) ensures Explained(c, run) {
        var tables, spares := ZoneLinearises(c, run);
      }
    } else {
      var run := NulNamesHaveTwoOwners(c, name);
      assert !Explained(c, run);
    }
  }

  ghost predicate Explained(c: Config, run: seq<Event>)
    requires c.Valid() && Legal(c, InitState(c), run)
  {
    exists tables, spares :: Linearised(c, InitState(c), run, tables, spares)
  }
}
