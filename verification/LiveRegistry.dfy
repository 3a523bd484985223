/**
 The registry of live servers and their streams: hash lists of recycled nodes. A server has its own buckets of streams
 in the memory of list heads, from `base` on.
 */
module LiveRegistry {
  import opened Bytes
  import opened Chains
  import opened HashLists

  type Name = seq<Byte>

  /** Names are kept in 512 bytes, with their NUL. */
  const MAX_NAME := 511

  /** The numbers of buckets, and the hash of names. */
  datatype Config = Config(serverBuckets: nat, streamBuckets: nat, hash: Name -> nat) {
    ghost predicate Valid() {
      serverBuckets > 0 && streamBuckets > 0
    }

    function ServerSlot(x: Name): nat
      requires serverBuckets > 0
    {
      hash(x) % serverBuckets
    }

    function StreamSlot(y: Name): nat
      requires streamBuckets > 0
    {
      hash(y) % streamBuckets
    }
  }

  // ---------------------------------------------------------------- what the registry stands for

  /**
   The registry without its links: the name and bucket of each server and stream (-1: spare), what else a server has,
   and whose each stream bucket is.
   */
  datatype Nodes = Nodes(sname: seq<Name>, sslot: seq<int>, deleted: seq<bool>, count: seq<int>, base: seq<nat>,
                         tname: seq<Name>, tslot: seq<int>, owner: seq<int>)

  predicate LiveServer(f: Nodes, s: int) {
    0 <= s < |f.sslot| && f.sslot[s] >= 0
  }

  predicate LiveStream(f: Nodes, i: int) {
    0 <= i < |f.tslot| && f.tslot[i] >= 0
  }

  predicate StreamOf(f: Nodes, i: int, s: int) {
    LiveStream(f, i) && f.tslot[i] < |f.owner| && f.owner[f.tslot[i]] == s
  }

  /** The streams of server `s`. */
  function Members(f: Nodes, s: int): set<int> {
    set i | 0 <= i < |f.tslot| && StreamOf(f, i, s)
  }

  ghost predicate Sized(c: Config, f: Nodes) {
    && c.serverBuckets > 0 && c.streamBuckets > 0
    && |f.sname| == |f.sslot| == |f.deleted| == |f.count| == |f.base| && |f.tname| == |f.tslot|
    && (forall i :: LiveStream(f, i) ==> f.tslot[i] < |f.owner|)
    && (forall h :: 0 <= h < |f.owner| ==> 0 <= f.owner[h] < |f.base|)
  }

  /** Each server's buckets are its own. */
  ghost predicate Ranges(c: Config, f: Nodes)
    requires Sized(c, f)
  {
    && (forall s :: 0 <= s < |f.base| ==> f.base[s] + c.streamBuckets <= |f.owner|)
    && (forall s, h :: 0 <= s < |f.base| && f.base[s] <= h < f.base[s] + c.streamBuckets ==> f.owner[h] == s)
  }

  /** Servers are in the bucket of their name, and no two have the same. */
  ghost predicate ServersKeyed(c: Config, f: Nodes)
    requires Sized(c, f)
  {
    && (forall s :: LiveServer(f, s) ==> f.sslot[s] == c.ServerSlot(f.sname[s]))
    && (forall s, u :: LiveServer(f, s) && LiveServer(f, u) && s != u ==> f.sname[s] != f.sname[u])
  }

  /** Streams are in the bucket of their name in the table of a live server, and no two there have the same name. */
  ghost predicate StreamsKeyed(c: Config, f: Nodes)
    requires Sized(c, f)
  {
    && (forall i :: LiveStream(f, i) ==> LiveServer(f, f.owner[f.tslot[i]]))
    && (forall i :: LiveStream(f, i) ==> f.tslot[i] == f.base[f.owner[f.tslot[i]]] + c.StreamSlot(f.tname[i]))
    && (forall i, j ::
          LiveStream(f, i) && LiveStream(f, j) && i != j && f.tslot[i] == f.tslot[j] ==> f.tname[i] != f.tname[j])
  }

  /** Every stream is counted; what is counted besides are streams that were never made. */
  ghost predicate Counted(f: Nodes) {
    forall s :: 0 <= s < |f.count| ==> f.count[s] >= |Members(f, s)|
  }

  /** A server that counts a stream it does not have. */
  predicate Overcounts(f: Nodes, s: int) {
    0 <= s < |f.count| && f.count[s] > |Members(f, s)|
  }

  /** A server flagged as deleted still has streams, but for the one at hand. */
  ghost predicate FlaggedHave(f: Nodes, but: int)
    requires |f.deleted| == |f.count| == |f.sslot|
  {
    forall s :: LiveServer(f, s) && f.deleted[s] && s != but ==> f.count[s] > 0
  }

  ghost predicate NodesOk(c: Config, f: Nodes, but: int) {
    Sized(c, f) && Ranges(c, f) && ServersKeyed(c, f) && StreamsKeyed(c, f) && Counted(f) && FlaggedHave(f, but)
  }

  /** Servers by name; those to go with their last stream; those that count too many; streams by server and name. */
  datatype Table = Table(servers: set<Name>, flagged: set<Name>, stuck: set<Name>, streams: set<(Name, Name)>)

  ghost function View(c: Config, f: Nodes): Table
    requires Sized(c, f)
  {
    Table(set s | 0 <= s < |f.sslot| && LiveServer(f, s) :: f.sname[s],
          set s | 0 <= s < |f.sslot| && LiveServer(f, s) && f.deleted[s] :: f.sname[s],
          set s | 0 <= s < |f.sslot| && LiveServer(f, s) && Overcounts(f, s) :: f.sname[s],
          set i | 0 <= i < |f.tslot| && LiveStream(f, i) :: (f.sname[f.owner[f.tslot[i]]], f.tname[i]))
  }

  ghost predicate HasStreams(t: Table, x: Name) {
    exists e :: e in t.streams && e.0 == x
  }

  ghost function WithoutServer(t: Table, x: Name): Table {
    t.(servers := t.servers - {x}, flagged := t.flagged - {x})
  }

  /** A server whose name is too long is not made. */
  ghost function CreateServer(t: Table, x: Name): Table {
    if x !in t.servers && |x| > MAX_NAME then t
    else t.(servers := t.servers + {x}, flagged := t.flagged - {x})
  }

  /** Whether the server counts any stream. */
  ghost predicate Counts(t: Table, x: Name) {
    HasStreams(t, x) || x in t.stuck
  }

  /** A server with streams, or stuck, is flagged; one without goes at once. */
  ghost function DeleteServer(t: Table, x: Name): Table {
    if x !in t.servers then t
    else if Counts(t, x) then t.(flagged := t.flagged + {x})
    else WithoutServer(t, x)
  }

  /** A stream whose name is too long is counted, but not made. */
  ghost function CreateStream(t: Table, x: Name, y: Name): Table {
    if x !in t.servers || (x, y) in t.streams then t
    else if |y| > MAX_NAME then t.(stuck := t.stuck + {x})
    else t.(streams := t.streams + {(x, y)})
  }

  /** With its last stream, a flagged server goes, if it is not stuck. */
  ghost function DeleteStream(t: Table, x: Name, y: Name): Table {
    if (x, y) !in t.streams then t
    else
      var u := t.(streams := t.streams - {(x, y)});
      if x in t.flagged && !Counts(u, x) then WithoutServer(u, x) else u
  }

  // ---------------------------------------------------------------- names and nodes

  lemma ServerNamed(c: Config, f: Nodes, x: Name)
    requires Sized(c, f)
    ensures x in View(c, f).servers <==> exists s :: LiveServer(f, s) && f.sname[s] == x
  {
  }

  lemma StreamNamed(c: Config, f: Nodes, s: int, y: Name)
    requires NodesOk(c, f, s) && LiveServer(f, s)
    ensures (f.sname[s], y) in View(c, f).streams <==> exists i :: StreamOf(f, i, s) && f.tname[i] == y
  {
    if (f.sname[s], y) in View(c, f).streams {
      var i :| 0 <= i < |f.tslot| && LiveStream(f, i) && (f.sname[f.owner[f.tslot[i]]], f.tname[i]) == (f.sname[s], y);
      assert StreamOf(f, i, s);
    }
  }

  lemma StuckNamed(c: Config, f: Nodes, s: int)
    requires Sized(c, f) && ServersKeyed(c, f) && LiveServer(f, s)
    ensures f.sname[s] in View(c, f).stuck <==> Overcounts(f, s)
  {
  }

  lemma HasNoStreams(c: Config, f: Nodes, s: int)
    requires NodesOk(c, f, s) && LiveServer(f, s)
    ensures Counts(View(c, f), f.sname[s]) <==> f.count[s] > 0
  {
    hide View;
    StuckNamed(c, f, s);
    MembersNamed(c, f, s);
  }

  lemma MembersNamed(c: Config, f: Nodes, s: int)
    requires NodesOk(c, f, s) && LiveServer(f, s)
    ensures HasStreams(View(c, f), f.sname[s]) <==> |Members(f, s)| > 0
  {
    var t := View(c, f);
    if HasStreams(t, f.sname[s]) {
      var e :| e in t.streams && e.0 == f.sname[s];
      StreamNamed(c, f, s, e.1);
      var i :| StreamOf(f, i, s) && f.tname[i] == e.1;
      assert i in Members(f, s);
    }
    if |Members(f, s)| > 0 {
      var i :| i in Members(f, s);
      StreamNamed(c, f, s, f.tname[i]);
      assert (f.sname[s], f.tname[i]) in t.streams;
    }
  }

  // ---------------------------------------------------------------- what each change means

  /** A server without streams is taken out. */
  lemma ServerGone(c: Config, f: Nodes, n: int)
    requires NodesOk(c, f, n) && LiveServer(f, n) && f.count[n] == 0
    ensures var f' := f.(sslot := f.sslot[n := -1]);
            NodesOk(c, f', -1) && View(c, f') == WithoutServer(View(c, f), f.sname[n])
  {
    var f' := f.(sslot := f.sslot[n := -1]);
    assert forall s :: LiveServer(f', s) <==> LiveServer(f, s) && s != n;
    assert forall i :: LiveStream(f', i) <==> LiveStream(f, i);
    assert forall s :: Members(f', s) == Members(f, s);
    assert Members(f, n) == {};
    forall i | LiveStream(f, i) ensures f.owner[f.tslot[i]] != n { assert i !in Members(f, n); }
    var t, u := View(c, f), View(c, f');
    assert !Overcounts(f, n);
    assert u.servers == t.servers - {f.sname[n]};
    assert u.flagged == t.flagged - {f.sname[n]};
    assert u.stuck == t.stuck && u.streams == t.streams;
  }

  lemma FlaggedOk(c: Config, f: Nodes, n: int, flag: bool)
    requires NodesOk(c, f, -1) && LiveServer(f, n) && (flag ==> f.count[n] > 0)
    ensures NodesOk(c, f.(deleted := f.deleted[n := flag]), -1)
  {
    var f' := f.(deleted := f.deleted[n := flag]);
    assert forall s :: LiveServer(f', s) <==> LiveServer(f, s);
    assert forall i :: LiveStream(f', i) <==> LiveStream(f, i);
    assert forall s :: Members(f', s) == Members(f, s);
  }

  /** A server's flag is set, if it has streams, or cleared. */
  lemma ServerFlagged(c: Config, f: Nodes, n: int, flag: bool)
    requires NodesOk(c, f, -1) && LiveServer(f, n) && (flag ==> f.count[n] > 0)
    ensures var f' := f.(deleted := f.deleted[n := flag]);
            && NodesOk(c, f', -1)
            && View(c, f') == (var t := View(c, f); t.(flagged := if flag then t.flagged + {f.sname[n]}
               else t.flagged - {f.sname[n]}))
  {
    hide Ranges, StreamsKeyed, Counted, FlaggedHave;
    FlaggedOk(c, f, n, flag);
    var f' := f.(deleted := f.deleted[n := flag]);
    assert forall s :: LiveServer(f', s) <==> LiveServer(f, s);
    assert forall i :: LiveStream(f', i) <==> LiveStream(f, i);
    assert forall s :: Members(f', s) == Members(f, s);
    var t, u := View(c, f), View(c, f');
    assert u.servers == t.servers && u.stuck == t.stuck && u.streams == t.streams;
    assert flag ==> u.flagged == t.flagged + {f.sname[n]};
    assert !flag ==> u.flagged == t.flagged - {f.sname[n]};
  }

  /** Room for one more server, spare as yet: its stream buckets come behind all others. */
  ghost function Grown(c: Config, f: Nodes): Nodes {
    var n := |f.sname|;
    f.(sname := f.sname + [[]], sslot := f.sslot + [-1], deleted := f.deleted + [false], count := f.count + [0],
       base := f.base + [|f.owner|], owner := f.owner + seq(c.streamBuckets, i => n))
  }

  lemma GrownMembers(c: Config, f: Nodes)
    requires Sized(c, f)
    ensures forall s :: LiveServer(Grown(c, f), s) <==> LiveServer(f, s)
    ensures forall i :: LiveStream(Grown(c, f), i) <==> LiveStream(f, i)
    ensures forall s :: 0 <= s < |f.sname| ==> Members(Grown(c, f), s) == Members(f, s)
    ensures Members(Grown(c, f), |f.sname|) == {}
  {
    var f', n := Grown(c, f), |f.sname|;
    forall s | 0 <= s < n ensures Members(f', s) == Members(f, s) {
      assert forall i :: StreamOf(f', i, s) <==> StreamOf(f, i, s);
    }
  }

  lemma GrownOk(c: Config, f: Nodes)
    requires NodesOk(c, f, -1)
    ensures NodesOk(c, Grown(c, f), -1)
  {
    hide Members;
    GrownMembers(c, f);
  }

  lemma ServersGrown(c: Config, f: Nodes)
    requires NodesOk(c, f, -1)
    ensures NodesOk(c, Grown(c, f), -1) && View(c, Grown(c, f)) == View(c, f)
  {
    hide Members, Ranges, ServersKeyed, StreamsKeyed, Counted, FlaggedHave;
    GrownOk(c, f);
    GrownMembers(c, f);
    var f' := Grown(c, f);
    var t, u := View(c, f), View(c, f');
    assert u.servers == t.servers && u.flagged == t.flagged && u.stuck == t.stuck && u.streams == t.streams;
  }

  /** A spare server is put into use. */
  lemma ServerAdded(c: Config, f: Nodes, n: nat, x: Name)
    requires NodesOk(c, f, -1) && n < |f.sslot| && f.sslot[n] == -1 && x !in View(c, f).servers && |x| <= MAX_NAME
    ensures var f' := f.(sname := f.sname[n := x], sslot := f.sslot[n := c.ServerSlot(x)],
             deleted := f.deleted[n := false],
                         count := f.count[n := 0]);
            NodesOk(c, f', -1) && View(c, f') == CreateServer(View(c, f), x)
  {
    var f' := f.(sname := f.sname[n := x], sslot := f.sslot[n := c.ServerSlot(x)], deleted := f.deleted[n := false],
                 count := f.count[n := 0]);
    assert forall s :: LiveServer(f', s) <==> LiveServer(f, s) || s == n;
    assert forall i :: LiveStream(f', i) <==> LiveStream(f, i);
    assert forall s :: Members(f', s) == Members(f, s);
    forall i | LiveStream(f, i) ensures f.owner[f.tslot[i]] != n { assert LiveServer(f, f.owner[f.tslot[i]]); }
    assert Members(f, n) == {};
    forall s | LiveServer(f, s) ensures f.sname[s] != x { assert f.sname[s] in View(c, f).servers; }
    var t, u := View(c, f), View(c, f');
    assert u.servers == t.servers + {x} by { assert LiveServer(f', n); }
    assert u.flagged == t.flagged - {x};
    assert u.stuck == t.stuck && u.streams == t.streams;
  }

  ghost function WithStream(c: Config, f: Nodes, s: nat, n: nat, y: Name): Nodes
    requires Sized(c, f) && s < |f.base| && n < |f.tslot|
  {
    f.(tname := f.tname[n := y], tslot := f.tslot[n := f.base[s] + c.StreamSlot(y)],
        count := f.count[s := f.count[s] + 1])
  }

  lemma SlotOwned(c: Config, f: Nodes, s: nat, y: Name)
    requires Sized(c, f) && Ranges(c, f) && s < |f.base|
    ensures var slot := f.base[s] + c.StreamSlot(y); slot < |f.owner| && f.owner[slot] == s
  {
  }

  lemma StreamAddedCounted(c: Config, f: Nodes, s: nat, n: nat, y: Name)
    requires Sized(c, f) && Ranges(c, f) && s < |f.base| && n < |f.tslot| && f.tslot[n] == -1 && Counted(f)
    ensures Counted(WithStream(c, f, s, n, y))
    ensures forall u :: Overcounts(WithStream(c, f, s, n, y), u) <==> Overcounts(f, u)
  {
    hide Ranges;
    var f' := WithStream(c, f, s, n, y);
    SlotOwned(c, f, s, y);
    forall u | u != s ensures Members(f', u) == Members(f, u) {
      assert forall i :: StreamOf(f', i, u) <==> StreamOf(f, i, u);
    }
    assert forall i :: StreamOf(f', i, s) <==> StreamOf(f, i, s) || i == n;
    assert n !in Members(f, s) && Members(f', s) == Members(f, s) + {n};
  }

  lemma StreamAddedKeyed(c: Config, f: Nodes, s: nat, n: nat, y: Name)
    requires NodesOk(c, f, -1) && LiveServer(f, s) && n < |f.tslot| && f.tslot[n] == -1
             && (f.sname[s], y) !in View(c, f).streams
    ensures var f' := WithStream(c, f, s, n, y);
            Sized(c, f') && Ranges(c, f') && ServersKeyed(c, f') && StreamsKeyed(c, f') && FlaggedHave(f', -1)
  {
    hide Members;
    var f' := WithStream(c, f, s, n, y);
    SlotOwned(c, f, s, y);
    assert forall u :: LiveServer(f', u) <==> LiveServer(f, u);
    assert forall i :: LiveStream(f', i) <==> LiveStream(f, i) || i == n;
    forall i | LiveStream(f, i) && f.tslot[i] == f'.tslot[n] ensures f.tname[i] != y {
      assert (f.sname[f.owner[f.tslot[i]]], f.tname[i]) in View(c, f).streams;
    }
  }

  /** A stream is put into use in the table of server `s`. */
  lemma StreamAdded(c: Config, f: Nodes, s: nat, n: nat, y: Name)
    requires NodesOk(c, f, -1) && LiveServer(f, s) && n < |f.tslot| && f.tslot[n] == -1
             && (f.sname[s], y) !in View(c, f).streams && |y| <= MAX_NAME
    ensures var f' := WithStream(c, f, s, n, y);
             NodesOk(c, f', -1) && View(c, f') == CreateStream(View(c, f), f.sname[s], y)
  {
    hide Ranges, ServersKeyed, StreamsKeyed, Counted, FlaggedHave, Overcounts;
    var f' := WithStream(c, f, s, n, y);
    SlotOwned(c, f, s, y);
    StreamAddedCounted(c, f, s, n, y);
    StreamAddedKeyed(c, f, s, n, y);
    assert forall u :: LiveServer(f', u) <==> LiveServer(f, u);
    assert forall i :: LiveStream(f', i) <==> LiveStream(f, i) || i == n;
    var t, u := View(c, f), View(c, f');
    assert f.sname[s] in t.servers;
    assert u.servers == t.servers && u.flagged == t.flagged && u.stuck == t.stuck;
    assert u.streams == t.streams + {(f.sname[s], y)} by { assert LiveStream(f', n); }
  }

  ghost function WithoutStream(f: Nodes, s: nat, n: nat): Nodes
    requires s < |f.count| && n < |f.tslot|
  {
    f.(tslot := f.tslot[n := -1], count := f.count[s := f.count[s] - 1])
  }

  lemma StreamGoneCounted(c: Config, f: Nodes, s: nat, n: nat)
    requires Sized(c, f) && StreamOf(f, n, s) && Counted(f)
    ensures Counted(WithoutStream(f, s, n))
    ensures forall u :: Overcounts(WithoutStream(f, s, n), u) <==> Overcounts(f, u)
  {
    var f' := WithoutStream(f, s, n);
    forall u | u != s ensures Members(f', u) == Members(f, u) {
      assert forall i :: StreamOf(f', i, u) <==> StreamOf(f, i, u);
    }
    assert forall i :: StreamOf(f', i, s) <==> StreamOf(f, i, s) && i != n;
    assert n in Members(f, s) && Members(f', s) == Members(f, s) - {n};
  }

  lemma StreamGoneKeyed(c: Config, f: Nodes, s: nat, n: nat)
    requires NodesOk(c, f, -1) && StreamOf(f, n, s)
    ensures var f' := WithoutStream(f, s, n);
            && Sized(c, f') && Ranges(c, f') && ServersKeyed(c, f') && StreamsKeyed(c, f') && FlaggedHave(f', s)
            && (!(f.deleted[s] && f.count[s] == 1) ==> FlaggedHave(f', -1))
  {
    hide Members;
    var f' := WithoutStream(f, s, n);
    assert forall u :: LiveServer(f', u) <==> LiveServer(f, u);
    assert forall i :: LiveStream(f', i) <==> LiveStream(f, i) && i != n;
  }

  /** A stream is taken out; a flagged server may be left without any. */
  lemma StreamGone(c: Config, f: Nodes, s: nat, n: nat)
    requires NodesOk(c, f, -1) && StreamOf(f, n, s)
    ensures var f' := WithoutStream(f, s, n);
            && NodesOk(c, f', s) && (!(f.deleted[s] && f.count[s] == 1) ==> NodesOk(c, f', -1))
            && View(c, f') == (var t := View(c, f); t.(streams := t.streams - {(f.sname[s], f.tname[n])}))
  {
    hide Ranges, Counted, FlaggedHave, Members, Overcounts;
    var f' := WithoutStream(f, s, n);
    StreamGoneCounted(c, f, s, n);
    StreamGoneKeyed(c, f, s, n);
    assert forall u :: LiveServer(f', u) <==> LiveServer(f, u);
    assert forall i :: LiveStream(f', i) <==> LiveStream(f, i) && i != n;
    forall i | LiveStream(f, i) && f.sname[f.owner[f.tslot[i]]] == f.sname[s] && f.tname[i] == f.tname[n]
        ensures i == n {
      assert f.owner[f.tslot[i]] == s && f.tslot[i] == f.tslot[n];
    }
    var t, u := View(c, f), View(c, f');
    assert u.servers == t.servers && u.flagged == t.flagged && u.stuck == t.stuck;
    assert u.streams == t.streams - {(f.sname[s], f.tname[n])};
  }

  /** A stream that was not made is counted. */
  lemma StreamCounted(c: Config, f: Nodes, s: nat, y: Name)
    requires NodesOk(c, f, -1) && LiveServer(f, s) && (f.sname[s], y) !in View(c, f).streams && |y| > MAX_NAME
    ensures var f' := f.(count := f.count[s := f.count[s] + 1]);
            NodesOk(c, f', -1) && View(c, f') == CreateStream(View(c, f), f.sname[s], y)
  {
    var f' := f.(count := f.count[s := f.count[s] + 1]);
    assert forall u :: LiveServer(f', u) <==> LiveServer(f, u);
    assert forall i :: LiveStream(f', i) <==> LiveStream(f, i);
    assert forall u :: Members(f', u) == Members(f, u);
    assert forall u :: Overcounts(f', u) <==> Overcounts(f, u) || u == s;
    var t, u := View(c, f), View(c, f');
    assert f.sname[s] in t.servers;
    assert u.servers == t.servers && u.flagged == t.flagged && u.streams == t.streams;
    assert u.stuck == t.stuck + {f.sname[s]};
  }

  // ---------------------------------------------------------------- whole runs of the table

  datatype Op = MakeServer(x: Name) | DropServer(x: Name) | MakeStream(x: Name, y: Name) | DropStream(x: Name, y: Name)

  ghost function Done(t: Table, op: Op): Table {
    match op
    case MakeServer(x) => CreateServer(t, x)
    case DropServer(x) => DeleteServer(t, x)
    case MakeStream(x, y) => CreateStream(t, x, y)
    case DropStream(x, y) => DeleteStream(t, x, y)
  }

  ghost function AllDone(t: Table, ops: seq<Op>): Table
    decreases |ops|
  {
    if ops == [] then t else AllDone(Done(t, ops[0]), ops[1..])
  }

  /** How many spare server nodes there are after an operation. */
  ghost function SpareAfter(t: Table, op: Op, spare: nat): nat {
    var u := Done(t, op);
    if op.x in t.servers && op.x !in u.servers then spare + 1
    else if op.x !in t.servers && op.x in u.servers && spare > 0 then spare - 1
    else spare
  }

  /** The registry keeps up: new names that fit have no NUL, and for a new server at most one is spare. */
  ghost predicate Manageable(t: Table, op: Op, spare: nat) {
    match op
    case MakeServer(x) => x in t.servers || |x| > MAX_NAME || (NulFree(x) && spare <= 1)
    case MakeStream(x, y) => x !in t.servers || (x, y) in t.streams || |y| > MAX_NAME || NulFree(y)
    case _ => true
  }

  ghost predicate AllManageable(t: Table, ops: seq<Op>, spare: nat)
    decreases |ops|
  {
    ops == [] || (Manageable(t, ops[0], spare) && AllManageable(Done(t, ops[0]), ops[1..],
        SpareAfter(t, ops[0], spare)))
  }

  /** Streams have a server; a flagged server is there and counts streams, a stuck one is there. */
  ghost predicate Tidy(t: Table) {
    && t.flagged <= t.servers && t.stuck <= t.servers
    && (forall e :: e in t.streams ==> e.0 in t.servers)
    && (forall x :: x in t.flagged ==> Counts(t, x))
  }

  lemma NodesTidy(c: Config, f: Nodes)
    requires NodesOk(c, f, -1)
    ensures Tidy(View(c, f))
  {
    var t := View(c, f);
    forall e | e in t.streams ensures e.0 in t.servers {
      var i :| 0 <= i < |f.tslot| && LiveStream(f, i) && (f.sname[f.owner[f.tslot[i]]], f.tname[i]) == e;
      assert LiveServer(f, f.owner[f.tslot[i]]);
    }
    forall x | x in t.flagged ensures Counts(t, x) {
      var s :| 0 <= s < |f.sslot| && LiveServer(f, s) && f.deleted[s] && f.sname[s] == x;
      assert NodesOk(c, f, s);
      HasNoStreams(c, f, s);
    }
  }

  lemma StepTidy(t: Table, op: Op)
    requires Tidy(t)
    ensures Tidy(Done(t, op))
  {
    var u := Done(t, op);
    forall x | x in u.flagged && x in t.flagged && x !in t.stuck ensures HasStreams(u, x) {
      var e :| e in t.streams && e.0 == x;
      if op.DropStream? {
        if x != op.x { assert e in u.streams; }
      } else {
        assert e in u.streams;
      }
    }
  }

  /** Whether a server counts no streams at some point of a run. */
  ghost predicate RunsEmpty(t: Table, ops: seq<Op>, x: Name)
    decreases |ops|
  {
    !Counts(t, x) || (ops != [] && RunsEmpty(Done(t, ops[0]), ops[1..], x))
  }

  lemma {:induction false} StaysAway(t: Table, ops: seq<Op>, x: Name)
    requires Tidy(t) && x !in t.servers && MakeServer(x) !in ops
    ensures x !in AllDone(t, ops).servers
    decreases |ops|
  {
    if ops != [] {
      StepTidy(t, ops[0]);
      assert ops[0] in ops;
      StaysAway(Done(t, ops[0]), ops[1..], x);
    }
  }

  /** A server deleted while it counts streams is there for exactly as long as it does, unless it is made again. */
  lemma {:induction false} GoesWithItsLast(t: Table, ops: seq<Op>, x: Name)
    requires Tidy(t) && x in t.flagged && MakeServer(x) !in ops
    ensures Tidy(AllDone(t, ops))
    ensures x in AllDone(t, ops).servers <==> !RunsEmpty(t, ops, x)
    decreases |ops|
  {
    if ops != [] {
      var u := Done(t, ops[0]);
      StepTidy(t, ops[0]);
      assert ops[0] in ops;
      if Counts(u, x) {
        assert x in u.flagged;
        GoesWithItsLast(u, ops[1..], x);
      } else {
        assert x !in u.servers;
        StaysAway(u, ops[1..], x);
        RunTidy(u, ops[1..]);
      }
    }
  }

  lemma {:induction false} RunTidy(t: Table, ops: seq<Op>)
    requires Tidy(t)
    ensures Tidy(AllDone(t, ops))
    decreases |ops|
  {
    if ops != [] {
      StepTidy(t, ops[0]);
      RunTidy(Done(t, ops[0]), ops[1..]);
    }
  }

  /** A server that counts a stream too many is never deleted, whatever is done. */
  lemma {:induction false} StuckStays(t: Table, ops: seq<Op>, x: Name)
    requires x in t.servers && x in t.stuck
    ensures x in AllDone(t, ops).servers && x in AllDone(t, ops).stuck
    decreases |ops|
  {
    if ops != [] { StuckStays(Done(t, ops[0]), ops[1..], x); }
  }

  // ---------------------------------------------------------------- what the last word on a name is

  lemma {:induction false} AllDoneSplit(t: Table, a: seq<Op>, b: seq<Op>)
    ensures AllDone(t, a + b) == AllDone(AllDone(t, a), b)
    decreases |a|
  {
    if a == [] {
      assert a + b == b;
    } else {
      assert (a + b)[0] == a[0] && (a + b)[1..] == a[1..] + b;
      AllDoneSplit(Done(t, a[0]), a[1..], b);
    }
  }

  lemma AllDoneOne(t: Table, a: seq<Op>, e: Op, b: seq<Op>)
    ensures AllDone(t, a + [e] + b) == AllDone(Done(AllDone(t, a), e), b)
  {
    AllDoneSplit(t, a, [e] + b);
    Regroup(a, [e], b);
    assert ([e] + b)[1..] == b;
  }

  /** A server that is not flagged is there until it is deleted. */
  lemma {:induction false} UnflaggedStays(t: Table, ops: seq<Op>, x: Name)
    requires x in t.servers && x !in t.flagged && Op.DropServer(x) !in ops
    ensures x in AllDone(t, ops).servers && x !in AllDone(t, ops).flagged
    decreases |ops|
  {
    if ops != [] {
      assert ops[0] in ops;
      UnflaggedStays(Done(t, ops[0]), ops[1..], x);
    }
  }

  /**
   The last word on a server. Made, it is there: making it again cancels a deletion. Deleted, it is there exactly if it
   was and has counted streams ever since.
   */
  lemma ServerThere(t: Table, a: seq<Op>, e: Op, b: seq<Op>, x: Name)
    requires Tidy(t) && MakeServer(x) !in b
    requires e == Op.DropServer(x) || (e == MakeServer(x) && Op.DropServer(x) !in b)
    ensures var was := AllDone(t, a);
            x in AllDone(t, a + [e] + b).servers
            <==> if e.DropServer? then x in was.servers && !RunsEmpty(Done(was, e), b, x)
                 else x in was.servers || |x| <= 511
  {
    hide AllDone, RunsEmpty;
    var was := AllDone(t, a);
    AllDoneOne(t, a, e, b);
    RunTidy(t, a);
    StepTidy(was, e);
    if e.DropServer? {
      if x in Done(was, e).servers && x in Done(was, e).flagged {
        GoesWithItsLast(Done(was, e), b, x);
      } else {
        StaysAway(Done(was, e), b, x);
        if x in was.servers { EmptyAtOnce(Done(was, e), b, x); }
      }
    } else if x in was.servers || |x| <= MAX_NAME {
      UnflaggedStays(Done(was, e), b, x);
    } else {
      StaysAway(Done(was, e), b, x);
    }
  }

  lemma EmptyAtOnce(t: Table, ops: seq<Op>, x: Name)
    requires !Counts(t, x)
    ensures RunsEmpty(t, ops, x)
  {
  }

  /** What is not done to a stream leaves it there, or not there. */
  lemma {:induction false} StreamUntouched(t: Table, ops: seq<Op>, x: Name, y: Name)
    requires MakeStream(x, y) !in ops && DropStream(x, y) !in ops
    ensures (x, y) in AllDone(t, ops).streams <==> (x, y) in t.streams
    decreases |ops|
  {
    if ops != [] {
      assert ops[0] in ops;
      StreamUntouched(Done(t, ops[0]), ops[1..], x, y);
    }
  }

  /** The last word on a stream. */
  lemma StreamThere(t: Table, a: seq<Op>, e: Op, b: seq<Op>, x: Name, y: Name)
    requires (e == MakeStream(x, y) || e == DropStream(x, y)) && MakeStream(x, y) !in b && DropStream(x, y) !in b
    ensures var was := AllDone(t, a);
            (x, y) in AllDone(t, a + [e] + b).streams
            <==> e.MakeStream? && ((x, y) in was.streams || (x in was.servers && |y| <= 511))
  {
    hide HasStreams, AllDone;
    AllDoneOne(t, a, e, b);
    StreamUntouched(Done(AllDone(t, a), e), b, x, y);
  }
}
