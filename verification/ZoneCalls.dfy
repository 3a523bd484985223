/**
 Calls in whole runs of the zone. Between a call and its return there is exactly one event at which the operation
 that was called has its effect on the table, with the result that is returned (`CallTakesEffect`); a clear takes its
 owner's entries out before. What a delete or a clear has taken out is still out when it returns (`TakenOut`).
 */
module ZoneCalls {
  import opened Bytes
  import opened StreamZone
  import opened ZoneSpec

  /** The state after the first `n` events of a run. */
  function StateAt(c: Config, s: State, run: seq<Event>, n: nat): State
    requires c.Valid() && Legal(c, s, run) && n <= |run|
    decreases n
  {
    if n == 0 then s else StateAt(c, Apply(c, s, run[0]), run[1..], n - 1)
  }

  /** Worker `w` calls `op` at event `i` and returns from it at event `j`. */
  ghost predicate CallAt(run: seq<Event>, w: int, op: Op, i: nat, j: nat) {
    i < j < |run| && run[i] == Call(w, op) && ReturnsAt(run, w, i + 1, j)
  }

  /** The first return of `w` from event `i` on. */
  ghost predicate ReturnsAt(run: seq<Event>, w: int, i: nat, j: nat) {
    i <= j < |run| && run[j] == Return(w) && forall k :: i <= k < j ==> run[k] != Return(w)
  }

  /** What an event of a call may do to the table besides having the call's effect. */
  ghost predicate Before(op: Op, w: int, t: Table, t': Table) {
    t' == t || (op.Clear? && exists e :: e in t && e.1 == w && t' == t - {e})
  }

  /** Event `k` has the effect; up to there the others of the worker are preliminary, from there on they are none. */
  ghost predicate TakesEffect(run: seq<Event>, tables: seq<Table>, spares: seq<nat>, w: int, op: Op, res: int, i: nat,
                              k: nat, j: nat) {
    && i <= k < j < |run| < |tables| == |spares|
    && run[k].w == w && Effect(op, w, tables[k], tables[k+1], res, spares[k])
    && (forall n :: i <= n < k && run[n].w == w ==> Before(op, w, tables[n], tables[n+1]))
    && (forall n :: k < n <= j && run[n].w == w ==> tables[n+1] == tables[n])
  }

  // ---------------------------------------------------------------- one event

  /** The parts of a run of the table, at its first event. */
  lemma FirstEvent(c: Config, s: State, run: seq<Event>, tables: seq<Table>, spares: seq<nat>)
    requires c.Valid() && Shape(c, s) && Legal(c, s, run) && Linearised(c, s, run, tables, spares) && run != []
    ensures |tables| == |spares| == |run| + 1 && Enabled(c, s, run[0])
    ensures var s', w := Apply(c, s, run[0]), run[0].w;
            && Shape(c, s') && Faithful(c, s, s', run[0]) && Legal(c, s', run[1..])
            && SpecStep(w, tables[0], tables[1], StatusOf(c, s.pcs[w]), StatusOf(c, s'.pcs[w]), spares[0])
            && (forall v :: 0 <= v < c.nworkers && v != w ==> StatusOf(c, s'.pcs[v]) == StatusOf(c, s.pcs[v]))
            && Linearised(c, s', run[1..], tables[1..], spares[1..])
  {
  }

  lemma ReturnsLater(run: seq<Event>, w: int, i: nat, j: nat)
    requires ReturnsAt(run, w, i, j) && i > 0
    ensures ReturnsAt(run[1..], w, i - 1, j - 1)
  {
    forall k | i - 1 <= k < j - 1 ensures run[1..][k] != Return(w) { assert run[1..][k] == run[k+1]; }
  }

  // ---------------------------------------------------------------- the rest of a call

  /** A call that has taken effect does nothing more, and returns its result. */
  lemma {:induction false} RestOfCall(c: Config, s: State, run: seq<Event>, tables: seq<Table>, spares: seq<nat>,
                                      w: int, op: Op, res: int, j: nat)
    requires c.Valid() && Shape(c, s) && Legal(c, s, run) && Linearised(c, s, run, tables, spares)
    requires ReturnsAt(run, w, 0, j) && 0 <= w < c.nworkers && StatusOf(c, s.pcs[w]) == Finished(op, res)
    ensures |tables| == |spares| == |run| + 1
    ensures forall n :: 0 <= n <= j && run[n].w == w ==> tables[n+1] == tables[n]
    ensures |StateAt(c, s, run, j).pcs| == c.nworkers && StateAt(c, s, run, j).pcs[w] == Done(op, res)
    decreases j
  {
    hide StatusOf, SpecStep, Enabled, Apply;
    FirstEvent(c, s, run, tables, spares);
    var st, st' := StatusOf(c, s.pcs[w]), StatusOf(c, Apply(c, s, run[0]).pcs[w]);
    if j > 0 {
      ReturnGoesOn(run, w, j);
      if run[0].w == w { FinishedStays(c, s, Apply(c, s, run[0]), run[0], tables[0], tables[1], op, res, spares[0]); }
      RestOfCall(c, Apply(c, s, run[0]), run[1..], tables[1..], spares[1..], w, op, res, j - 1);
      forall n | 0 <= n <= j && run[n].w == w ensures tables[n+1] == tables[n] {
        if n > 0 { assert run[1..][n-1] == run[n]; }
      }
    } else {
      ReturnChangesNothing(c, s, Apply(c, s, run[0]), run[0], tables[0], tables[1], spares[0]);
    }
  }

  lemma ReturnGoesOn(run: seq<Event>, w: int, j: nat)
    requires ReturnsAt(run, w, 0, j) && j > 0
    ensures ReturnsAt(run[1..], w, 0, j - 1) && run[0] != Return(w)
  {
    forall k | 0 <= k < j - 1 ensures run[1..][k] != Return(w) { assert run[1..][k] == run[k+1]; }
  }

  lemma FinishedStays(c: Config, s: State, s': State, e: Event, t: Table, t': Table, op: Op, res: int, spare: nat)
    requires |s.pcs| == |s'.pcs| && 0 <= e.w < |s.pcs| && Faithful(c, s, s', e) && !e.Return?
    requires StatusOf(c, s.pcs[e.w]) == Finished(op, res)
    requires SpecStep(e.w, t, t', StatusOf(c, s.pcs[e.w]), StatusOf(c, s'.pcs[e.w]), spare)
    ensures StatusOf(c, s'.pcs[e.w]) == Finished(op, res) && t' == t
  {
    hide StatusOf;
  }

  lemma ReturnChangesNothing(c: Config, s: State, s': State, e: Event, t: Table, t': Table, spare: nat)
    requires |s.pcs| == |s'.pcs| && 0 <= e.w < |s.pcs| && Faithful(c, s, s', e) && e.Return?
    requires SpecStep(e.w, t, t', StatusOf(c, s.pcs[e.w]), StatusOf(c, s'.pcs[e.w]), spare)
    ensures t' == t && StatusOf(c, s.pcs[e.w]) == Finished(s.pcs[e.w].op, s.pcs[e.w].res)
  {
    hide StatusOf;
  }

  // ---------------------------------------------------------------- the whole of a call

  lemma PendingGoes(c: Config, s: State, s': State, e: Event, t: Table, t': Table, op: Op, spare: nat)
    requires |s.pcs| == |s'.pcs| && 0 <= e.w < |s.pcs| && Faithful(c, s, s', e)
    requires StatusOf(c, s.pcs[e.w]) == Pending(op)
    requires SpecStep(e.w, t, t', StatusOf(c, s.pcs[e.w]), StatusOf(c, s'.pcs[e.w]), spare)
    ensures var st' := StatusOf(c, s'.pcs[e.w]);
            || (st' == Pending(op) && Before(op, e.w, t, t'))
            || (st' == Finished(op, st'.res) && Effect(op, e.w, t, t', st'.res, spare))
  {
    hide StatusOf, Effect;
  }

  lemma EffectLater(run: seq<Event>, tables: seq<Table>, spares: seq<nat>, w: int, op: Op, res: int, i: nat, k: nat,
                    j: nat)
    requires run != [] && |tables| == |spares| == |run| + 1
    requires TakesEffect(run[1..], tables[1..], spares[1..], w, op, res, i, k, j)
    ensures TakesEffect(run, tables, spares, w, op, res, i + 1, k + 1, j + 1)
  {
    hide Effect, Before;
    assert run[1..][k] == run[k+1] && tables[1..][k] == tables[k+1] && tables[1..][k+1] == tables[k+2];
    forall n | i + 1 <= n <= j + 1 ensures run[n] == run[1..][n-1] && tables[n] == tables[1..][n-1]
        && tables[n+1] == tables[1..][n] {}
  }

  lemma EffectBefore(run: seq<Event>, tables: seq<Table>, spares: seq<nat>, w: int, op: Op, res: int, k: nat, j: nat)
    requires TakesEffect(run, tables, spares, w, op, res, 1, k, j)
    requires run[0].w == w ==> Before(op, w, tables[0], tables[1])
    ensures TakesEffect(run, tables, spares, w, op, res, 0, k, j)
  {
    hide Effect, Before;
  }

  /** A call that is pending takes effect at one event before it returns. */
  lemma {:induction false} PendingCall(c: Config, s: State, run: seq<Event>, tables: seq<Table>, spares: seq<nat>,
                                       w: int, op: Op, j: nat) returns (k: nat)
    requires c.Valid() && Shape(c, s) && Legal(c, s, run) && Linearised(c, s, run, tables, spares)
    requires ReturnsAt(run, w, 0, j) && 0 <= w < c.nworkers && StatusOf(c, s.pcs[w]) == Pending(op)
    ensures |StateAt(c, s, run, j).pcs| == c.nworkers
    ensures var pc := StateAt(c, s, run, j).pcs[w];
            pc.Done? && pc.op == op && TakesEffect(run, tables, spares, w, op, pc.res, 0, k, j)
    decreases j
  {
    hide StatusOf, SpecStep, Enabled, Apply, Effect, TakesEffect, Before, Linearised;
    FirstEvent(c, s, run, tables, spares);
    var s' := Apply(c, s, run[0]);
    if run[0].w == w { PendingGoes(c, s, s', run[0], tables[0], tables[1], op, spares[0]); }
    ReturnGoesOn(run, w, j);
    if StatusOf(c, s'.pcs[w]) == Pending(op) {
      k := PendingCall(c, s', run[1..], tables[1..], spares[1..], w, op, j - 1);
      EffectLater(run, tables, spares, w, op, StateAt(c, s, run, j).pcs[w].res, 0, k, j - 1);
      k := k + 1;
      EffectBefore(run, tables, spares, w, op, StateAt(c, s, run, j).pcs[w].res, k, j);
    } else {
      var res := StatusOf(c, s'.pcs[w]).res;
      RestOfCall(c, s', run[1..], tables[1..], spares[1..], w, op, res, j - 1);
      k := 0;
      EffectNow(run, tables, spares, w, op, res, j);
    }
  }

  lemma EffectNow(run: seq<Event>, tables: seq<Table>, spares: seq<nat>, w: int, op: Op, res: int, j: nat)
    requires 0 < j < |run| && |tables| == |spares| == |run| + 1
    requires run[0].w == w && Effect(op, w, tables[0], tables[1], res, spares[0])
    requires forall n :: 0 <= n <= j - 1 && run[1..][n].w == w ==> tables[1..][n+1] == tables[1..][n]
    ensures TakesEffect(run, tables, spares, w, op, res, 0, 0, j)
  {
    hide Effect;
    forall n | 0 < n <= j && run[n].w == w ensures tables[n+1] == tables[n] {
      assert run[1..][n-1] == run[n] && tables[1..][n] == tables[n+1] && tables[1..][n-1] == tables[n];
    }
  }

  /**
   In every run of calls with NUL-free names: a call has the effect of the operation that was called at one event
   between the call and its return, with the result returned. Before that a clear may take out entries of its worker;
   no other event of the worker in that time changes the table.
   */
  lemma {:induction false} CallTakesEffect(c: Config, s: State, run: seq<Event>, tables: seq<Table>, spares: seq<nat>,
                                           w: int, op: Op, i: nat, j: nat) returns (k: nat)
    requires c.Valid() && Shape(c, s) && Legal(c, s, run) && Linearised(c, s, run, tables, spares)
    requires CallAt(run, w, op, i, j)
    ensures 0 <= w < c.nworkers == |StateAt(c, s, run, j).pcs|
    ensures var pc := StateAt(c, s, run, j).pcs[w];
            pc.Done? && pc.op == op && TakesEffect(run, tables, spares, w, op, pc.res, i, k, j)
    decreases i
  {
    hide StatusOf, SpecStep, Enabled, Apply, Effect, TakesEffect, Before, Linearised;
    FirstEvent(c, s, run, tables, spares);
    var s' := Apply(c, s, run[0]);
    if i > 0 {
      ReturnsLater(run, w, i + 1, j);
      assert CallAt(run[1..], w, op, i - 1, j - 1);
      k := CallTakesEffect(c, s', run[1..], tables[1..], spares[1..], w, op, i - 1, j - 1);
      EffectLater(run, tables, spares, w, op, StateAt(c, s, run, j).pcs[w].res, i - 1, k, j - 1);
      k := k + 1;
    } else {
      CallBegins(c, s, s', run[0], tables[0], tables[1], op, spares[0]);
      ReturnsLater(run, w, 1, j);
      if StatusOf(c, s'.pcs[w]) == Pending(op) {
        k := PendingCall(c, s', run[1..], tables[1..], spares[1..], w, op, j - 1);
        EffectLater(run, tables, spares, w, op, StateAt(c, s, run, j).pcs[w].res, 0, k, j - 1);
        k := k + 1;
        EffectBefore(run, tables, spares, w, op, StateAt(c, s, run, j).pcs[w].res, k, j);
      } else {
        RestOfCall(c, s', run[1..], tables[1..], spares[1..], w, op, ERROR, j - 1);
        k := 0;
        EffectNow(run, tables, spares, w, op, ERROR, j);
      }
    }
  }

  lemma CallBegins(c: Config, s: State, s': State, e: Event, t: Table, t': Table, op: Op, spare: nat)
    requires |s.pcs| == |s'.pcs| && 0 <= e.w < |s.pcs| && Faithful(c, s, s', e) && e == Call(e.w, op)
    requires SpecStep(e.w, t, t', StatusOf(c, s.pcs[e.w]), StatusOf(c, s'.pcs[e.w]), spare)
    ensures t' == t && Before(op, e.w, t, t')
    ensures var st' := StatusOf(c, s'.pcs[e.w]);
            st' == Pending(op) || (st' == Finished(op, ERROR) && Effect(op, e.w, t, t', ERROR, spare))
  {
    hide StatusOf;
  }

  // ---------------------------------------------------------------- what is out stays out

  /** Only worker `w` adds entries of its own, and only when it inserts. */
  lemma NotAdded(w: int, t: Table, t': Table, st: Status, st': Status, spare: nat, name: seq<Byte>, v: int)
    requires SpecStep(w, t, t', st, st', spare) && (name, v) in t' && (name, v) !in t
    ensures v == w && st == Pending(Insert(name))
  {
  }

  /** From the effect of a delete or clear to the return the worker's entries stay out. */
  lemma {:induction false} StaysOut(c: Config, s: State, run: seq<Event>, tables: seq<Table>, spares: seq<nat>, w: int,
                                    name: seq<Byte>, n: nat)
    requires c.Valid() && Shape(c, s) && Legal(c, s, run) && Linearised(c, s, run, tables, spares) && n <= |run|
    requires |tables| == |run| + 1 && (name, w) !in tables[0]
    requires forall i :: 0 <= i < n && run[i].w == w ==> tables[i+1] == tables[i]
    ensures (name, w) !in tables[n]
    decreases n
  {
    hide StatusOf, SpecStep, Enabled, Apply;
    if n > 0 {
      FirstEvent(c, s, run, tables, spares);
      var e, s' := run[0], Apply(c, s, run[0]);
      if (name, w) in tables[1] {
        NotAdded(e.w, tables[0], tables[1], StatusOf(c, s.pcs[e.w]), StatusOf(c, s'.pcs[e.w]), spares[0], name, w);
      }
      forall i | 0 <= i < n - 1 && run[1..][i].w == w ensures tables[1..][i+1] == tables[1..][i] {
        assert run[1..][i] == run[i+1];
      }
      StaysOut(c, s', run[1..], tables[1..], spares[1..], w, name, n - 1);
    }
  }

  /** A run of the table from its `n`-th event on. */
  lemma {:induction false} RestLinearised(c: Config, s: State, run: seq<Event>, tables: seq<Table>, spares: seq<nat>,
                                          n: nat)
    requires c.Valid() && Shape(c, s) && Legal(c, s, run) && Linearised(c, s, run, tables, spares) && n <= |run|
    ensures |tables| == |spares| == |run| + 1
    ensures var s' := StateAt(c, s, run, n);
            Shape(c, s') && Legal(c, s', run[n..]) && Linearised(c, s', run[n..], tables[n..], spares[n..])
    decreases n
  {
    hide StatusOf, SpecStep, Enabled, Apply;
    if n == 0 {
      assert run[0..] == run && tables[0..] == tables && spares[0..] == spares;
    } else {
      FirstEvent(c, s, run, tables, spares);
      RestLinearised(c, Apply(c, s, run[0]), run[1..], tables[1..], spares[1..], n - 1);
      assert run[1..][n-1..] == run[n..] && tables[1..][n-1..] == tables[n..] && spares[1..][n-1..] == spares[n..];
    }
  }

  /**
   When a delete of a name returns, the worker does not own it, and when a clear returns the worker owns nothing; all
   that either took out was the worker's, and a delete nothing but that name.
   */
  lemma TakenOut(c: Config, s: State, run: seq<Event>, tables: seq<Table>, spares: seq<nat>, w: int, op: Op, i: nat,
                 j: nat)
    requires c.Valid() && Shape(c, s) && Legal(c, s, run) && Linearised(c, s, run, tables, spares)
    requires CallAt(run, w, op, i, j) && !op.Insert?
    ensures |tables| == |run| + 1
    ensures forall name :: op == Clear || op == Delete(name) ==> (name, w) !in tables[j]
    ensures forall n :: i <= n <= j && run[n].w == w ==>
              tables[n+1] <= tables[n] && forall e :: e in tables[n] - tables[n+1] ==>
                                             e.1 == w && (op == Clear || op == Delete(e.0))
  {
    hide StatusOf, SpecStep, Enabled, Apply, Linearised, CallAt;
    var k := CallTakesEffect(c, s, run, tables, spares, w, op, i, j);
    RestLinearised(c, s, run, tables, spares, k + 1);
    var rest, later := run[k+1..], tables[k+1..];
    forall name | op == Clear || op == Delete(name) ensures (name, w) !in tables[j] {
      forall n | 0 <= n < j - k - 1 && rest[n].w == w ensures later[n+1] == later[n] { assert rest[n] == run[k+1+n]; }
      StaysOut(c, StateAt(c, s, run, k + 1), rest, later, spares[k+1..], w, name, j - k - 1);
    }
  }
}
