/**
 The zone as its callers see it: one table from stream name to owner, on which
 each insert and delete takes effect at one instant, and clear entry by entry.
 The step machine of `StreamZone` refines it (`StepRefines`), for names without
 a NUL byte (`StoredNameFound`). `ZoneNames` shows that it does not with one.
 */
module ZoneSpec {
  import opened Bytes
  import opened Chains
  import opened StreamZone

  type Table = set<(seq<Byte>, int)>

  /** Whether a call has taken effect yet. */
  datatype Status = Quiet | Pending(op: Op) | Finished(op: Op, res: int)

  ghost predicate Owned(t: Table, name: seq<Byte>) {
    exists slot :: (name, slot) in t
  }

  /** A name never has two owners. */
  ghost predicate OneOwner(t: Table) {
    forall name, x, y :: (name, x) in t && (name, y) in t ==> x == y
  }

  /**
   The whole effect of one finished call; `spare` is how many nodes are free at
   that instant. A new name is refused only when none is.
   */
  ghost predicate Effect(op: Op, w: int, t: Table, t': Table, res: int, spare: nat) {
    match op
    case Insert(name) =>
      if |name| >= 1024 then t' == t && res == -1
      else if Owned(t, name) then t' == t && (name, res) in t
      else (t' == t + {(name, w)} && res == w) || (spare == 0 && t' == t && res == -1)
    case Delete(name) => t' == t - {(name, w)}
    case Clear => t' == t && forall e :: e in t ==> e.1 != w
  }

  /** One instant of the abstract zone, seen from worker `w`. */
  ghost predicate SpecStep(w: int, t: Table, t': Table, st: Status, st': Status, spare: nat) {
    match (st, st')
    case (Quiet, Quiet) => t' == t
    case (Quiet, Pending(op)) => t' == t
    case (Quiet, Finished(op, res)) => op.Insert? && |op.name| >= NAME_LEN && t' == t && res == ERROR
    case (Pending(op), Pending(op')) =>
      op' == op && (t' == t || (op.Clear? && exists e :: e in t && e.1 == w && t' == t - {e}))
    case (Pending(op), Finished(op', res)) => op' == op && Effect(op, w, t, t', res, spare)
    case (Finished(op, res), Finished(op', res')) => t' == t && op' == op && res' == res
    case (Finished(op, res), Quiet) => t' == t
    case _ => false
  }

  // ---------------------------------------------------------------- abstraction

  ghost function TableOf(s: State, a: Layout): Table
    requires |a.place| == |s.m.names| == |s.m.slots|
  {
    set i | 0 <= i < |a.place| && a.place[i].InBucket? :: (s.m.names[i], s.m.slots[i])
  }

  function StatusOf(c: Config, pc: Pc): Status {
    match pc
    case Idle => Quiet
    case Done(op, res) => Finished(op, res)
    case Release(op, b, res) => if op.Clear? && b + 1 < c.nbuckets then Pending(op) else Finished(op, res)
    case GetDone(op, b, n) => if n == -1 then Finished(op, ERROR) else Pending(op)
    case PutWant(op, b, cur, n) => if op.Delete? then Finished(op, 0) else Pending(op)
    case PutNext(op, b, cur, n) => if op.Delete? then Finished(op, 0) else Pending(op)
    case PutHead(op, b, cur, n) => if op.Delete? then Finished(op, 0) else Pending(op)
    case PutCount(op, b, cur) => if op.Delete? then Finished(op, 0) else Pending(op)
    case PutDone(op, b, cur) => if op.Delete? then Finished(op, 0) else Pending(op)
    case _ => Pending(pc.op)
  }

  /** A stored name is compared by strlen and memcmp: it is found again exactly when it has no NUL. */
  lemma StoredNameFound(m: Mem, op: Op, w: int, n: int)
    requires 0 <= n < |m.names| == |m.slots| && op.Insert? && |op.name| < NAME_LEN
    requires m.names[n] == CString(op.name)
    ensures Hit(m, op, w, n) <==> NulFree(op.name)
  {
    CStringKeeps(op.name);
  }

  ghost predicate CleanOp(op: Op) {
    op.Clear? || NulFree(op.name)
  }

  /** The stored names are distinct and in their own buckets, and each scan walks the bucket of its name. */
  ghost predicate Clean(c: Config, s: State, a: Layout)
    requires Shape(c, s) && |a.place| == c.nstreams && c.nbuckets > 0
  {
    && (forall i :: 0 <= i < c.nstreams && a.place[i].InBucket? ==> a.place[i].b == c.Bucket(s.m.names[i]))
    && (forall i, j :: 0 <= i < c.nstreams && 0 <= j < c.nstreams && a.place[i].InBucket? && a.place[j].InBucket? ==>
          s.m.names[i] == s.m.names[j] ==> i == j)
    && (forall w :: 0 <= w < c.nworkers && !s.pcs[w].Idle? ==>
          CleanOp(s.pcs[w].op) && (s.pcs[w].Done? || s.pcs[w].op.Clear? || s.pcs[w].b == c.Bucket(s.pcs[w].op.name)))
  }

  lemma CleanHasOneOwner(c: Config, s: State, a: Layout)
    requires Shape(c, s) && |a.place| == c.nstreams && c.nbuckets > 0 && Clean(c, s, a)
    ensures OneOwner(TableOf(s, a))
  {
  }

  // ---------------------------------------------------------------- what steps do to the table

  /** Only linking and unlinking change the table: the other steps write nodes outside the buckets. */
  lemma QuietTable(c: Config, s: State, a: Layout, w: int)
    requires Inv(c, s, a) && CanStep(c, s, w) && !MovesNode(c, s, w)
    requires forall n :: n in a.free ==> 0 <= n < c.nstreams
    ensures Shape(c, Step(c, s, w)) && NextLayout(c, s, a, w) == a
    ensures TableOf(Step(c, s, w), a) == TableOf(s, a)
    ensures forall i :: 0 <= i < c.nstreams && a.place[i].InBucket? ==>
              Step(c, s, w).m.names[i] == s.m.names[i] && Step(c, s, w).m.slots[i] == s.m.slots[i]
  {
    StaysPut(c, s, a, w);
    HandWrites(c, s, w);
    var s' := Step(c, s, w);
    forall i | 0 <= i < c.nstreams && a.place[i].InBucket?
      ensures s'.m.names[i] == s.m.names[i] && s'.m.slots[i] == s.m.slots[i]
    {
      assert Held(s.pcs[w]) != i;
    }
  }

  lemma TakeOrPutTable(c: Config, s: State, a: Layout, w: int)
    requires Inv(c, s, a) && CanStep(c, s, w) && MovesNode(c, s, w)
    requires s.pcs[w].GetTake? || s.pcs[w].PutHead?
    requires forall n :: n in a.free ==> 0 <= n < c.nstreams
    ensures Shape(c, Step(c, s, w)) && |NextLayout(c, s, a, w).place| == c.nstreams
    ensures TableOf(Step(c, s, w), NextLayout(c, s, a, w)) == TableOf(s, a)
    ensures forall i :: 0 <= i < c.nstreams ==>
      && (NextLayout(c, s, a, w).place[i].InBucket? <==> a.place[i].InBucket?)
      && (a.place[i].InBucket? ==> NextLayout(c, s, a, w).place[i] == a.place[i])
      && Step(c, s, w).m.names == s.m.names && Step(c, s, w).m.slots == s.m.slots
  {
    if s.pcs[w].GetTake? {
      assert a.free[0] in a.free;
    } else {
      assert Held(s.pcs[w]) == s.pcs[w].n;
    }
  }

  lemma LinkTable(c: Config, s: State, a: Layout, w: int)
    requires Inv(c, s, a) && CanStep(c, s, w) && s.pcs[w].LinkHead?
    requires forall n :: n in a.free ==> 0 <= n < c.nstreams
    ensures Shape(c, Step(c, s, w)) && |NextLayout(c, s, a, w).place| == c.nstreams
    ensures TableOf(Step(c, s, w), NextLayout(c, s, a, w)) == TableOf(s, a) + {(CString(s.pcs[w].op.name), w)}
  {
    var n := s.pcs[w].n;
    var t, t' := TableOf(s, a), TableOf(Step(c, s, w), NextLayout(c, s, a, w));
    var a' := NextLayout(c, s, a, w);
    assert LocalOk(c, s, a, w);
    assert Held(s.pcs[w]) == n && a.place[n] == InHand(w);
    assert a'.place[n].InBucket?;
    forall e | e in t ensures e in t' {
      var i :| 0 <= i < c.nstreams && a.place[i].InBucket? && e == (s.m.names[i], s.m.slots[i]);
      assert a'.place[i].InBucket?;
    }
  }

  lemma UnlinkTable(c: Config, s: State, a: Layout, w: int)
    requires Inv(c, s, a) && CanStep(c, s, w) && s.pcs[w].Scan? && MovesNode(c, s, w) && Clean(c, s, a)
    requires forall n :: n in a.free ==> 0 <= n < c.nstreams
    ensures Shape(c, Step(c, s, w)) && |NextLayout(c, s, a, w).place| == c.nstreams
    ensures s.m.slots[s.pcs[w].nxt] == w && (s.m.names[s.pcs[w].nxt], w) in TableOf(s, a)
    ensures TableOf(Step(c, s, w), NextLayout(c, s, a, w)) == TableOf(s, a) - {(s.m.names[s.pcs[w].nxt], w)}
  {
    var Scan(op, b, cur, nxt) := s.pcs[w];
    assert LocalOk(c, s, a, w);
    var j :| ScanAt(s.m, a.chains[b], op, w, cur, nxt, j);
    assert a.chains[b][j] == nxt && a.place[nxt] == InBucket(b);
    var t, t' := TableOf(s, a), TableOf(Step(c, s, w), NextLayout(c, s, a, w));
    var a' := NextLayout(c, s, a, w);
    forall e | e in t && e != (s.m.names[nxt], w) ensures e in t' {
      var i :| 0 <= i < c.nstreams && a.place[i].InBucket? && e == (s.m.names[i], s.m.slots[i]);
      assert i != nxt && a'.place[i].InBucket?;
    }
  }

  // ---------------------------------------------------------------- what scans learn

  /** A bucket without a hit tells that the whole table has no such name. */
  lemma NoHitMeansAbsent(c: Config, s: State, a: Layout, op: Op, w: int)
    requires Shape(c, s) && Placed(c, s, a) && c.nbuckets > 0 && Clean(c, s, a) && !op.Clear?
    requires NoHit(s.m, a.chains[c.Bucket(op.name)], op, w)
    ensures !Owned(TableOf(s, a), op.name)
  {
    forall e | e in TableOf(s, a) ensures e.0 != op.name {
      var i :| 0 <= i < c.nstreams && a.place[i].InBucket? && e == (s.m.names[i], s.m.slots[i]);
      var b := a.place[i].b;
      if b == c.Bucket(op.name) {
        assert i in a.chains[b];
        var k :| 0 <= k < |a.chains[b]| && a.chains[b][k] == i;
        assert !Hit(s.m, op, w, a.chains[b][k]);
      }
    }
  }

  lemma SweptMeansNone(c: Config, s: State, a: Layout, w: int)
    requires Shape(c, s) && Placed(c, s, a) && Swept(c, s, a, w, c.nbuckets)
    ensures forall e :: e in TableOf(s, a) ==> e.1 != w
  {
    forall e | e in TableOf(s, a) ensures e.1 != w {
      var i :| 0 <= i < c.nstreams && a.place[i].InBucket? && e == (s.m.names[i], s.m.slots[i]);
      var b := a.place[i].b;
      assert i in a.chains[b];
      var k :| 0 <= k < |a.chains[b]| && a.chains[b][k] == i;
      assert !Hit(s.m, Clear, w, a.chains[b][k]);
    }
  }

  // ---------------------------------------------------------------- refinement

  /** A node that was sought is unlinked. */
  lemma ScanUnlinks(c: Config, s: State, a: Layout, w: int)
    requires Inv(c, s, a) && CanStep(c, s, w) && Clean(c, s, a) && s.pcs[w].Scan? && MovesNode(c, s, w)
    requires forall n :: n in a.free ==> 0 <= n < c.nstreams
    requires Inv(c, Step(c, s, w), NextLayout(c, s, a, w))
    ensures SpecStep(w, TableOf(s, a), TableOf(Step(c, s, w), NextLayout(c, s, a, w)),
              StatusOf(c, s.pcs[w]), StatusOf(c, Step(c, s, w).pcs[w]), |a.free|)
  {
    hide Linked;
    assert LocalOk(c, s, a, w);
    UnlinkTable(c, s, a, w);
  }

  /** The end of a bucket: what was sought is not there. */
  lemma ScanFails(c: Config, s: State, a: Layout, w: int)
    requires Inv(c, s, a) && CanStep(c, s, w) && Clean(c, s, a) && s.pcs[w].Scan? && s.pcs[w].nxt == -1
    requires forall n :: n in a.free ==> 0 <= n < c.nstreams
    requires Inv(c, Step(c, s, w), NextLayout(c, s, a, w))
    ensures SpecStep(w, TableOf(s, a), TableOf(Step(c, s, w), NextLayout(c, s, a, w)),
              StatusOf(c, s.pcs[w]), StatusOf(c, Step(c, s, w).pcs[w]), |a.free|)
  {
    hide Linked;
    var Scan(op, b, cur, nxt) := s.pcs[w];
    var s', a' := Step(c, s, w), NextLayout(c, s, a, w);
    assert LocalOk(c, s, a, w) && LocalOk(c, s', a', w);
    QuietTable(c, s, a, w);
    ChainNodes(c, s, a);
    ScanEnds(s.m, a.chains[b], op, w, cur);
    if op.Clear? {
      if b + 1 == c.nbuckets { SweptMeansNone(c, s', a', w); }
    } else {
      NoHitMeansAbsent(c, s, a, op, w);
    }
  }

  /** A node that is passed over, or found but another's. */
  lemma ScanPasses(c: Config, s: State, a: Layout, w: int)
    requires Inv(c, s, a) && CanStep(c, s, w) && Clean(c, s, a) && s.pcs[w].Scan?
    requires s.pcs[w].nxt != -1 && !MovesNode(c, s, w)
    requires forall n :: n in a.free ==> 0 <= n < c.nstreams
    requires Inv(c, Step(c, s, w), NextLayout(c, s, a, w))
    ensures SpecStep(w, TableOf(s, a), TableOf(Step(c, s, w), NextLayout(c, s, a, w)),
              StatusOf(c, s.pcs[w]), StatusOf(c, Step(c, s, w).pcs[w]), |a.free|)
  {
    hide Linked;
    var Scan(op, b, cur, nxt) := s.pcs[w];
    assert LocalOk(c, s, a, w);
    ChainNodes(c, s, a);
    QuietTable(c, s, a, w);
    if Hit(s.m, op, w, nxt) {
      var j :| ScanAt(s.m, a.chains[b], op, w, cur, nxt, j);
      assert a.chains[b][j] == nxt && a.place[nxt] == InBucket(b);
      assert (s.m.names[nxt], s.m.slots[nxt]) in TableOf(s, a);
      CleanHasOneOwner(c, s, a);
    }
  }

  lemma ScanRefines(c: Config, s: State, a: Layout, w: int)
    requires Inv(c, s, a) && CanStep(c, s, w) && Clean(c, s, a) && s.pcs[w].Scan?
    requires forall n :: n in a.free ==> 0 <= n < c.nstreams
    requires Inv(c, Step(c, s, w), NextLayout(c, s, a, w))
    ensures SpecStep(w, TableOf(s, a), TableOf(Step(c, s, w), NextLayout(c, s, a, w)),
              StatusOf(c, s.pcs[w]), StatusOf(c, Step(c, s, w).pcs[w]), |a.free|)
  {
    hide Inv, Clean, TableOf, SpecStep, Hit, CString;
    if s.pcs[w].nxt == -1 {
      ScanFails(c, s, a, w);
    } else if MovesNode(c, s, w) {
      ScanUnlinks(c, s, a, w);
    } else {
      ScanPasses(c, s, a, w);
    }
  }

  /** Outside a scan, a call takes effect only where a node is linked or found missing. */
  lemma StatusStays(c: Config, s: State, w: int)
    requires CanStep(c, s, w) && !s.pcs[w].Scan?
    ensures var st, st' := StatusOf(c, s.pcs[w]), StatusOf(c, Step(c, s, w).pcs[w]);
      match s.pcs[w]
      case LinkHead(op, b, n) => st == Pending(op) && st' == Finished(op, w)
      case GetTake(op, b) => st == Pending(op) && st' == if s.m.free == -1 then Finished(op, ERROR) else st
      case _ => st' == st && st != Quiet
  {
  }

  lemma OtherStepRefines(c: Config, s: State, a: Layout, w: int)
    requires Inv(c, s, a) && CanStep(c, s, w) && Clean(c, s, a) && !s.pcs[w].Scan?
    requires forall n :: n in a.free ==> 0 <= n < c.nstreams
    requires Inv(c, Step(c, s, w), NextLayout(c, s, a, w))
    ensures SpecStep(w, TableOf(s, a), TableOf(Step(c, s, w), NextLayout(c, s, a, w)),
              StatusOf(c, s.pcs[w]), StatusOf(c, Step(c, s, w).pcs[w]), |a.free|)
  {
    StatusStays(c, s, w);
    if s.pcs[w].LinkHead? {
      LinkRefines(c, s, a, w);
    } else if MovesNode(c, s, w) {
      TakeOrPutTable(c, s, a, w);
    } else {
      QuietTable(c, s, a, w);
      if s.pcs[w].GetTake? { TakeFailRefines(c, s, a, w); }
    }
  }

  lemma LinkRefines(c: Config, s: State, a: Layout, w: int)
    requires Inv(c, s, a) && CanStep(c, s, w) && Clean(c, s, a) && s.pcs[w].LinkHead?
    requires forall n :: n in a.free ==> 0 <= n < c.nstreams
    ensures Shape(c, Step(c, s, w)) && |NextLayout(c, s, a, w).place| == c.nstreams
    ensures Effect(s.pcs[w].op, w, TableOf(s, a), TableOf(Step(c, s, w), NextLayout(c, s, a, w)), w, |a.free|)
  {
    assert LocalOk(c, s, a, w);
    LinkTable(c, s, a, w);
    CStringKeeps(s.pcs[w].op.name);
    NoHitMeansAbsent(c, s, a, s.pcs[w].op, w);
  }

  lemma TakeFailRefines(c: Config, s: State, a: Layout, w: int)
    requires Inv(c, s, a) && 0 <= w < c.nworkers && Clean(c, s, a) && s.pcs[w].GetTake? && s.m.free == -1
    ensures Effect(s.pcs[w].op, w, TableOf(s, a), TableOf(s, a), ERROR, |a.free|)
  {
    assert LocalOk(c, s, a, w);
    NoHitMeansAbsent(c, s, a, s.pcs[w].op, w);
    assert a.free == [];
  }

  /** The bucket tables stay clean. */
  lemma StepKeepsClean(c: Config, s: State, a: Layout, w: int)
    requires Inv(c, s, a) && CanStep(c, s, w) && Clean(c, s, a)
    requires forall n :: n in a.free ==> 0 <= n < c.nstreams
    requires Inv(c, Step(c, s, w), NextLayout(c, s, a, w))
    ensures Clean(c, Step(c, s, w), NextLayout(c, s, a, w))
  {
    if s.pcs[w].LinkHead? {
      LinkKeepsClean(c, s, a, w);
    } else if s.pcs[w].Scan? && MovesNode(c, s, w) {
      UnlinkKeepsClean(c, s, a, w);
    } else {
      RestKeepsClean(c, s, a, w);
    }
  }

  lemma UnlinkKeepsClean(c: Config, s: State, a: Layout, w: int)
    requires Inv(c, s, a) && CanStep(c, s, w) && Clean(c, s, a) && s.pcs[w].Scan? && MovesNode(c, s, w)
    requires forall n :: n in a.free ==> 0 <= n < c.nstreams
    requires Inv(c, Step(c, s, w), NextLayout(c, s, a, w))
    ensures Clean(c, Step(c, s, w), NextLayout(c, s, a, w))
  {
    hide Linked;
    NextOp(c, s, w);
  }

  lemma RestKeepsClean(c: Config, s: State, a: Layout, w: int)
    requires Inv(c, s, a) && CanStep(c, s, w) && Clean(c, s, a)
    requires !s.pcs[w].LinkHead? && !(s.pcs[w].Scan? && MovesNode(c, s, w))
    requires forall n :: n in a.free ==> 0 <= n < c.nstreams
    requires Inv(c, Step(c, s, w), NextLayout(c, s, a, w))
    ensures Clean(c, Step(c, s, w), NextLayout(c, s, a, w))
  {
    hide Linked, TableOf;
    NextOp(c, s, w);
    if MovesNode(c, s, w) { TakeOrPutTable(c, s, a, w); } else { QuietTable(c, s, a, w); }
  }

  lemma LinkKeepsClean(c: Config, s: State, a: Layout, w: int)
    requires Inv(c, s, a) && CanStep(c, s, w) && Clean(c, s, a) && s.pcs[w].LinkHead?
    requires forall n :: n in a.free ==> 0 <= n < c.nstreams
    requires Inv(c, Step(c, s, w), NextLayout(c, s, a, w))
    ensures Clean(c, Step(c, s, w), NextLayout(c, s, a, w))
  {
    NextOp(c, s, w);
    assert LocalOk(c, s, a, w);
    var op := s.pcs[w].op;
    CStringKeeps(op.name);
    NoHitMeansAbsent(c, s, a, op, w);
    forall i | 0 <= i < c.nstreams && a.place[i].InBucket? ensures s.m.names[i] != op.name {
      assert (s.m.names[i], s.m.slots[i]) in TableOf(s, a);
    }
  }

  /** A call keeps its operation, and all but clear stay in one bucket. */
  lemma NextOp(c: Config, s: State, w: int)
    requires CanStep(c, s, w)
    ensures var pc, pc' := s.pcs[w], Step(c, s, w).pcs[w];
      && Step(c, s, w).pcs == s.pcs[w := pc']
      && !pc.Idle? && !pc'.Idle? && !pc.Done? && pc'.op == pc.op && (pc'.Done? || pc.op.Clear? || pc'.b == pc.b)
  {
  }

  /** Every step of the machine is a step of the table, or invisible. */
  lemma StepRefines(c: Config, s: State, a: Layout, w: int)
    requires Inv(c, s, a) && CanStep(c, s, w) && Clean(c, s, a)
    ensures forall n :: n in a.free ==> 0 <= n < c.nstreams
    ensures Inv(c, Step(c, s, w), NextLayout(c, s, a, w)) && Clean(c, Step(c, s, w), NextLayout(c, s, a, w))
    ensures SpecStep(w, TableOf(s, a), TableOf(Step(c, s, w), NextLayout(c, s, a, w)),
              StatusOf(c, s.pcs[w]), StatusOf(c, Step(c, s, w).pcs[w]), |a.free|)
  {
    WorkKeepsInv(c, s, a, w);
    StepKeepsClean(c, s, a, w);
    if s.pcs[w].Scan? {
      ScanRefines(c, s, a, w);
    } else {
      OtherStepRefines(c, s, a, w);
    }
  }

  lemma CallRefines(c: Config, s: State, a: Layout, e: Event)
    requires Inv(c, s, a) && Enabled(c, s, e) && Clean(c, s, a) && !e.Work?
    requires e.Call? ==> CleanOp(e.op)
    ensures Inv(c, Apply(c, s, e), a) && Clean(c, Apply(c, s, e), a)
    ensures SpecStep(e.w, TableOf(s, a), TableOf(Apply(c, s, e), a),
              StatusOf(c, s.pcs[e.w]), StatusOf(c, Apply(c, s, e).pcs[e.w]), |a.free|)
  {
    CallOrReturnKeepsInv(c, s, a, e);
  }

  // ---------------------------------------------------------------- counting

  /** A one-to-one image is as large as its source. */
  lemma {:induction false} ImageSize<A, B>(s: set<A>, t: set<B>, f: A -> B)
    requires forall x, y :: x in s && y in s && f(x) == f(y) ==> x == y
    requires forall x :: x in s ==> f(x) in t
    requires forall y :: y in t ==> exists x :: x in s && f(x) == y
    ensures |s| == |t|
  {
    if s == {} {
      assert t == {};
    } else {
      var x :| x in s;
      ImageSize(s - {x}, t - {f(x)}, f);
    }
  }

  /** The nodes whose place is `kind`: 0 for free, 1 for in a bucket, 2 for in a hand. */
  ghost function NodesAt(a: Layout, kind: int): set<int> {
    set i | 0 <= i < |a.place| && Kind(a.place[i]) == kind
  }

  function Kind(p: Place): int {
    match p case Free => 0 case InBucket(_) => 1 case InHand(_) => 2
  }

  ghost function Hands(s: State): set<int> {
    set w | 0 <= w < |s.pcs| && Held(s.pcs[w]) != -1
  }

  lemma FreeCount(c: Config, s: State, a: Layout)
    requires Inv(c, s, a)
    ensures |NodesAt(a, 0)| == |a.free|
  {
    ChainNodes(c, s, a);
    ChainIsAcyclic(s.m.next, s.m.free, a.free);
    MembersSize<int>(a.free);
    assert NodesAt(a, 0) == Elements<int>(a.free);
  }

  lemma BucketCount(c: Config, s: State, a: Layout)
    requires Shape(c, s) && |a.place| == c.nstreams && c.nbuckets > 0 && Clean(c, s, a)
    ensures |NodesAt(a, 1)| == |TableOf(s, a)|
  {
    var entry := (i: int) => if 0 <= i < c.nstreams then (s.m.names[i], s.m.slots[i]) else ([], 0);
    forall e | e in TableOf(s, a) ensures exists i :: i in NodesAt(a, 1) && entry(i) == e {
      var i :| 0 <= i < c.nstreams && a.place[i].InBucket? && e == (s.m.names[i], s.m.slots[i]);
      assert i in NodesAt(a, 1) && entry(i) == e;
    }
    ImageSize(NodesAt(a, 1), TableOf(s, a), entry);
  }

  lemma HandCount(c: Config, s: State, a: Layout)
    requires Inv(c, s, a)
    ensures |NodesAt(a, 2)| == |Hands(s)|
  {
    var hand := (w: int) => if 0 <= w < |s.pcs| then Held(s.pcs[w]) else -1;
    forall w | w in Hands(s) ensures 0 <= hand(w) < c.nstreams && a.place[hand(w)] == InHand(w) {
      assert PcOk(c, s.pcs[w]);
    }
    forall i | i in NodesAt(a, 2) ensures exists w :: w in Hands(s) && hand(w) == i {
      var w := a.place[i].w;
      assert Held(s.pcs[w]) == i;
      assert w in Hands(s) && hand(w) == i;
    }
    ImageSize(Hands(s), NodesAt(a, 2), hand);
  }

  lemma KindsAddUp(a: Layout)
    ensures |NodesAt(a, 0)| + |NodesAt(a, 1)| + |NodesAt(a, 2)| == |a.place|
  {
    var all := seq(|a.place|, i => i);
    MembersSize<int>(all);
    var f, b, h := NodesAt(a, 0), NodesAt(a, 1), NodesAt(a, 2);
    forall i | 0 <= i < |a.place| ensures i in all { assert all[i] == i; }
    assert Elements<int>(all) == f + b + h;
    assert f !! b && (f + b) !! h;
  }

  /** Nodes are conserved: free ones, table entries and nodes in hand always add up to the zone. */
  lemma NodesConserved(c: Config, s: State, a: Layout)
    requires Inv(c, s, a) && Clean(c, s, a)
    ensures |a.free| + |TableOf(s, a)| + |Hands(s)| == c.nstreams
  {
    FreeCount(c, s, a);
    BucketCount(c, s, a);
    HandCount(c, s, a);
    KindsAddUp(a);
  }

  // ---------------------------------------------------------------- whole runs

  ghost predicate CleanRun(run: seq<Event>) {
    forall i :: 0 <= i < |run| && run[i].Call? ==> CleanOp(run[i].op)
  }

  /** A call begins and ends with the events that say so, and is the operation that was called with the result told. */
  ghost predicate Faithful(c: Config, s: State, s': State, e: Event)
    requires |s.pcs| == |s'.pcs| && 0 <= e.w < |s.pcs|
  {
    var st, st' := StatusOf(c, s.pcs[e.w]), StatusOf(c, s'.pcs[e.w]);
    match e
    case Call(_, op) =>
      st == Quiet && st' == if op.Insert? && |op.name| >= NAME_LEN then Finished(op, ERROR) else Pending(op)
    case Work(_) => st != Quiet && st' != Quiet && st'.op == st.op
    case Return(_) => s.pcs[e.w].Done? && st == Finished(s.pcs[e.w].op, s.pcs[e.w].res) && st' == Quiet
  }

  /**
   Linearisability: `tables[i]` is the table after `i` events. Each event is one
   instant of the table seen from its worker, and changes no other worker's status.
   `spares[i]` is what the zone has left then: every node but the entries of the
   table and those in workers' hands.
   */
  ghost predicate Linearised(c: Config, s: State, run: seq<Event>, tables: seq<Table>, spares: seq<nat>)
    requires c.Valid() && Legal(c, s, run) && Shape(c, s)
    decreases |run|
  {
    && |tables| == |spares| == |run| + 1
    && OneOwner(tables[0])
    && spares[0] + |tables[0]| + |Hands(s)| == c.nstreams
    && (run != [] ==>
          var s' := Apply(c, s, run[0]); var w := run[0].w;
          && Shape(c, s') && Faithful(c, s, s', run[0])
          && SpecStep(w, tables[0], tables[1], StatusOf(c, s.pcs[w]), StatusOf(c, s'.pcs[w]), spares[0])
          && (forall v :: 0 <= v < c.nworkers && v != w ==> StatusOf(c, s'.pcs[v]) == StatusOf(c, s.pcs[v]))
          && Linearised(c, s', run[1..], tables[1..], spares[1..]))
  }

  /** One event of the machine is one of the table, and no business of other workers. */
  lemma EventRefines(c: Config, s: State, a: Layout, e: Event) returns (a': Layout)
    requires Inv(c, s, a) && Clean(c, s, a) && Enabled(c, s, e) && (e.Call? ==> CleanOp(e.op))
    ensures Inv(c, Apply(c, s, e), a') && Clean(c, Apply(c, s, e), a') && Faithful(c, s, Apply(c, s, e), e)
    ensures SpecStep(e.w, TableOf(s, a), TableOf(Apply(c, s, e), a'),
              StatusOf(c, s.pcs[e.w]), StatusOf(c, Apply(c, s, e).pcs[e.w]), |a.free|)
    ensures forall v :: 0 <= v < c.nworkers && v != e.w ==> StatusOf(c, Apply(c, s, e).pcs[v]) == StatusOf(c, s.pcs[v])
  {
    hide Clean, SpecStep, TableOf;
    if e.Work? {
      StepRefines(c, s, a, e.w);
      NextOp(c, s, e.w);
      a' := NextLayout(c, s, a, e.w);
    } else {
      CallRefines(c, s, a, e);
      a' := a;
    }
  }

  lemma {:induction false} RunLinearises(c: Config, s: State, a: Layout, run: seq<Event>)
    returns (tables: seq<Table>, spares: seq<nat>)
    requires Inv(c, s, a) && Clean(c, s, a) && Legal(c, s, run) && CleanRun(run)
    ensures Linearised(c, s, run, tables, spares) && tables[0] == TableOf(s, a)
    decreases |run|
  {
    hide Clean, SpecStep, TableOf, StatusOf, Apply, Faithful;
    CleanHasOneOwner(c, s, a);
    NodesConserved(c, s, a);
    tables, spares := [TableOf(s, a)], [|a.free|];
    if run != [] {
      var e := run[0];
      var rest := run[1..];
      assert forall i :: 0 <= i < |rest| ==> rest[i] == run[i+1];
      var a' := EventRefines(c, s, a, e);
      var ts, ss := RunLinearises(c, Apply(c, s, e), a', rest);
      tables, spares := tables + ts, spares + ss;
      assert tables[1..] == ts && spares[1..] == ss;
    }
  }

  /**
   Every run of the machine from the fresh zone, of calls with NUL-free names, is a run of the table from the
   empty one.
   */
  lemma ZoneLinearises(c: Config, run: seq<Event>) returns (tables: seq<Table>, spares: seq<nat>)
    requires c.Valid() && Legal(c, InitState(c), run) && CleanRun(run)
    ensures Linearised(c, InitState(c), run, tables, spares) && tables[0] == {}
  {
    InitInv(c);
    tables, spares := RunLinearises(c, InitState(c), InitLayout(c), run);
  }

  /** An entry leaves the table only by the hand of its owner, who deletes that name or clears. */
  lemma OnlyTheOwnerRemoves(w: int, t: Table, t': Table, st: Status, st': Status, spare: nat, name: seq<Byte>,
                            slot: int)
    requires SpecStep(w, t, t', st, st', spare) && (name, slot) in t && (name, slot) !in t'
    ensures slot == w
    ensures match st
            case Quiet => false
            case Finished(_, _) => false
            case Pending(op) => op == Clear || op == Delete(name)
  {
  }
}
