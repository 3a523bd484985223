/** The registry as it runs: lookups, insertions and removals that follow and redirect links. */
module LiveServers {
  import opened Bytes
  import opened Chains
  import opened HashLists
  import opened LiveRegistry

  /** A node is on the list of its bucket. */
  lemma OnItsList(l: Lists, a: Layout, i: int)
    requires Shape(l, a) && 0 <= i < |a.place| && a.place[i] >= 0
    ensures a.place[i] < |a.chains| && i in a.chains[a.place[i]]
  {
  }

  class Registry {
    const c: Config
    var servers: Lists
    var deleted: seq<bool>
    var count: seq<int>
    var base: seq<nat>
    var streams: Lists
    ghost var sa: Layout
    ghost var ta: Layout
    ghost var owner: seq<int>

    constructor (c: Config)
      requires c.serverBuckets > 0 && c.streamBuckets > 0
      ensures this.c == c && Valid() && Contents() == Table({}, {}, {}, {}) && Spare() == 0
    {
      this.c := c;
      servers := Lists([], [], seq(c.serverBuckets, i => -1), -1, 0);
      streams := Lists([], [], [], -1, 0);
      deleted, count, base, owner := [], [], [], [];
      sa := Layout(seq(c.serverBuckets, i => []), [], []);
      ta := Layout([], [], []);
    }

    ghost function Flat(): Nodes
      reads this
    {
      Nodes(servers.name, sa.place, deleted, count, base, streams.name, ta.place, owner)
    }

    ghost predicate Valid()
      reads this
    {
      && Shape(servers, sa) && Shape(streams, ta) && |servers.heads| == c.serverBuckets && |streams.heads| == |owner|
      && NodesOk(c, Flat(), -1)
    }

    ghost function Contents(): Table
      reads this
      requires Sized(c, Flat())
    {
      View(c, Flat())
    }

    /** The number of spare server nodes. */
    ghost function Spare(): nat
      reads this
      requires Valid()
    {
      servers.nfree
    }

    /** The server of that name, and the link that leads to it. */
    method FindServer(x: Name) returns (prev: int, cur: int, ghost k: nat)
      requires Shape(servers, sa) && |servers.heads| == c.serverBuckets && Sized(c, Flat()) && ServersKeyed(c, Flat())
      ensures var chain := sa.chains[c.ServerSlot(x)]; k <= |chain| && cur == At(chain, k) && prev == At(chain, k - 1)
      ensures k == |sa.chains[c.ServerSlot(x)]| <==> cur == -1
      ensures cur == -1 <==> x !in Contents().servers
      ensures cur != -1 ==> LiveServer(Flat(), cur) && servers.name[cur] == x
    {
      ghost var f := Flat();
      var slot := c.ServerSlot(x);
      prev, cur, k := Find(servers, slot, x, sa);
      if cur == -1 {
        forall s | LiveServer(f, s) ensures f.sname[s] != x { OnItsList(servers, sa, s); }
      } else {
        assert In(sa, sa.chains[slot][k], slot);
      }
      ServerNamed(c, f, x);
    }

    /** The stream of that name in the table of server `s`, and the link that leads to it. */
    method FindStream(s: int, y: Name) returns (slot: nat, prev: int, cur: int, ghost k: nat)
      requires Valid() && LiveServer(Flat(), s)
      ensures slot == base[s] + c.StreamSlot(y) && slot < |owner| && owner[slot] == s
      ensures var chain := ta.chains[slot]; k <= |chain| && cur == At(chain, k) && prev == At(chain, k - 1)
      ensures k == |ta.chains[slot]| <==> cur == -1
      ensures cur == -1 <==> (servers.name[s], y) !in Contents().streams
      ensures cur != -1 ==> StreamOf(Flat(), cur, s) && streams.name[cur] == y && ta.place[cur] == slot
    {
      hide IsChain;
      ghost var f := Flat();
      slot := base[s] + c.StreamSlot(y);
      SlotOwned(c, f, s, y);
      prev, cur, k := Find(streams, slot, y, ta);
      if cur == -1 {
        forall i | StreamOf(f, i, s) ensures f.tname[i] != y {
          OnItsList(streams, ta, i);
        }
      } else {
        assert In(ta, ta.chains[slot][k], slot);
      }
      StreamNamed(c, f, s, y);
    }

    /** The server of that name, or -1. */
    method FetchServer(x: Name) returns (srv: int)
      requires Valid()
      ensures srv == -1 <==> x !in Contents().servers
      ensures srv != -1 ==> LiveServer(Flat(), srv) && servers.name[srv] == x
    {
      var _, cur, _ := FindServer(x);
      srv := cur;
    }

    method FetchStream(x: Name, y: Name) returns (st: int)
      requires Valid()
      ensures st == -1 <==> (x, y) !in Contents().streams
      ensures st != -1 ==> LiveStream(Flat(), st) && streams.name[st] == y && servers.name[owner[ta.place[st]]] == x
    {
      var srv := FetchServer(x);
      if srv == -1 {
        NoServerNoStream(c, Flat(), x, y);
        return -1;
      }
      var _, _, cur, _ := FindStream(srv, y);
      st := cur;
    }

    /** A server without streams is unlinked and put among the spare ones. */
    method DropServer(prev: int, n: int, ghost slot: nat, ghost k: nat)
      requires Shape(servers, sa) && Shape(streams, ta) && |servers.heads| == c.serverBuckets
               && |streams.heads| == |owner|
      requires NodesOk(c, Flat(), n) && LiveServer(Flat(), n) && count[n] == 0
      requires slot == c.ServerSlot(servers.name[n]) && k < |sa.chains[slot]| && n == sa.chains[slot][k]
      requires prev == At(sa.chains[slot], k - 1)
      modifies this
      ensures Valid() && Contents() == WithoutServer(old(Contents()), old(servers).name[n])
      ensures servers.nfree == old(servers.nfree) + 1
    {
      hide NodesOk, View;
      RemoveShape(servers, sa, slot, k);
      ServerGone(c, Flat(), n);
      servers := Put(Link(servers, c.ServerSlot(servers.name[n]), prev, servers.next[n]), n);
      sa := Removed(sa, slot, k);
    }

    /** With streams, a server is flagged; without, it goes. */
    method DeleteServer(x: Name)
      requires Valid()
      modifies this
      ensures Valid() && Contents() == LiveRegistry.DeleteServer(old(Contents()), x)
      ensures servers.nfree == SpareAfter(old(Contents()), Op.DropServer(x), old(Spare()))
    {
      hide View, Ranges, ServersKeyed, StreamsKeyed, Counted, FlaggedHave;
      var prev, cur, k := FindServer(x);
      if cur == -1 { return; }
      StillOk(c, Flat(), cur);
      HasNoStreams(c, Flat(), cur);
      ServerNonNegative(c, Flat(), cur);
      if count[cur] != 0 {
        ServerFlagged(c, Flat(), cur, true);
        deleted := deleted[cur := true];
      } else {
        DropServer(prev, cur, c.ServerSlot(x), k);
      }
    }

    /** A stream is unlinked; a flagged server goes with its last. */
    method DeleteStream(x: Name, y: Name)
      requires Valid()
      modifies this
      ensures Valid() && Contents() == LiveRegistry.DeleteStream(old(Contents()), x, y)
      ensures servers.nfree == SpareAfter(old(Contents()), Op.DropStream(x, y), old(Spare()))
    {
      var _, s, _ := FindServer(x);
      if s == -1 {
        NoServerNoStream(c, Flat(), x, y);
        return;
      }
      var slot, prev, st, k := FindStream(s, y);
      if st == -1 { return; }
      FlagSeen(c, Flat(), s);
      DropStream(s, slot, prev, st, k);
      HasNoStreams(c, Flat(), s);
      if deleted[s] && count[s] == 0 {
        var p, n, j := FindServer(x);
        SameServer(c, Flat(), s, n);
        DropServer(p, n, c.ServerSlot(x), j);
      }
    }

    /** A stream is unlinked and put among the spare ones. */
    method DropStream(s: nat, slot: nat, prev: int, st: nat, ghost k: nat)
      requires Valid() && StreamOf(Flat(), st, s) && ta.place[st] == slot
      requires k < |ta.chains[slot]| && st == ta.chains[slot][k] && prev == At(ta.chains[slot], k - 1)
      modifies this`count, this`streams, this`ta
      ensures Shape(streams, ta) && |streams.heads| == old(|streams.heads|)
               && Flat() == WithoutStream(old(Flat()), s, st)
      ensures NodesOk(c, Flat(), s) && ((deleted[s] && count[s] == 0) || NodesOk(c, Flat(), -1))
      ensures var t := old(Contents()); Contents() == t.(streams := t.streams - {(servers.name[s],
               old(streams).name[st])})
    {
      hide View, Ranges, ServersKeyed, StreamsKeyed, Counted, FlaggedHave;
      RemoveShape(streams, ta, slot, k);
      StreamGone(c, Flat(), s, st);
      streams := Put(Link(streams, slot, prev, streams.next[st]), st);
      ta := Removed(ta, slot, k);
      count := count[s := count[s] - 1];
    }

    /**
     A node is taken, new with stream buckets of its own or spare, and hung on the end of its list with its link
     as it is.
     */
    method PlaceServer(x: Name, prev: int, ghost k: nat) returns (n: nat)
      requires Valid()
      requires var chain := sa.chains[c.ServerSlot(x)]; k == |chain| && prev == At(chain, k - 1)
      modifies this
      ensures n == Node(old(servers)) && servers == old(Inserted(servers, sa, c.ServerSlot(x), CString(x), false))
      ensures sa == old(Added(servers, sa, c.ServerSlot(x))) && n <= |old(Flat()).sslot|
      ensures Flat() == InUse(c, old(Flat()), n, x)
      ensures Shape(streams, ta) && |streams.heads| == |owner|
    {
      hide Ranges, ServersKeyed, StreamsKeyed, Counted, FlaggedHave, Placed, IsChain, CString;
      ghost var f, l := Flat(), servers;
      SpareNode(servers, sa);
      LastInside(servers, sa, c.ServerSlot(x));
      n := Node(servers);
      if servers.free == -1 { AddBuckets(n); } else { deleted, count := deleted[n := false], count[n := 0]; }
      assert Flat().sname == f.sname && Flat().sslot == f.sslot;
      servers := Link(Taken(servers, CString(x)), c.ServerSlot(x), prev, n);
      sa := Added(l, sa, c.ServerSlot(x));
      assert n == |f.sslot| ==> (f.sname + [[]])[n := CString(x)] == f.sname + [CString(x)];
      assert n == |f.sslot| ==> (f.sslot + [-1])[n := c.ServerSlot(x)] == f.sslot + [c.ServerSlot(x)];
    }

    /** Buckets for the streams of a new server `n`, which has none. */
    method AddBuckets(n: nat)
      requires Shape(streams, ta) && |streams.heads| == |owner| && n == |deleted| == |count|
      modifies this`base, this`owner, this`streams, this`ta, this`deleted, this`count
      ensures Shape(streams, ta) && |streams.heads| == |owner|
      ensures base == old(base) + [|old(owner)|] && owner == old(owner) + seq(c.streamBuckets, i => n)
      ensures streams.name == old(streams.name) && ta.place == old(ta.place)
      ensures deleted == old(deleted) + [false] && count == old(count) + [0]
      ensures deleted == (old(deleted) + [false])[n := false] && count == (old(count) + [0])[n := 0]
    {
      GrowShape(streams, ta, c.streamBuckets);
      base := base + [|streams.heads|];
      owner := owner + seq(c.streamBuckets, i => n);
      streams := streams.(heads := streams.heads + seq(c.streamBuckets, i => -1));
      ta := ta.(chains := ta.chains + seq(c.streamBuckets, i => []));
      deleted, count := deleted + [false], count + [0];
    }

    /** The server of that name, made if need be. A new name with a NUL is stored cut at it. */
    method CreateServer(x: Name) returns (srv: int)
      requires Valid()
      modifies this
      ensures Manageable(old(Contents()), MakeServer(x), old(Spare())) ==>
                Valid() && Contents() == LiveRegistry.CreateServer(old(Contents()), x)
                && servers.nfree == SpareAfter(old(Contents()), MakeServer(x), old(Spare()))
                && (srv != -1 ==> LiveServer(Flat(), srv) && servers.name[srv] == x)
      ensures srv == -1 <==> x !in old(Contents()).servers && |x| > MAX_NAME
      ensures x !in old(Contents()).servers && |x| <= MAX_NAME ==>
                (old(servers.nfree) <= 1 <==> exists a :: Shape(servers, a))
                && 0 <= srv < |servers.name| && servers.name[srv] == CString(x)
      ensures x !in old(Contents()).servers && |x| <= MAX_NAME ==>
                Sized(c, Flat()) && (NulFree(x) <==> Contents() == LiveRegistry.CreateServer(old(Contents()), x))
    {
      hide View, Ranges, ServersKeyed, StreamsKeyed, Counted, FlaggedHave;
      var prev, cur, k := FindServer(x);
      CStringKeeps(x);
      if cur != -1 {
        ServerFlagged(c, Flat(), cur, false);
        deleted := deleted[cur := false];
        return cur;
      }
      if |x| > MAX_NAME { return -1; }
      srv := AddServer(x, prev, k);
    }

    /** A server that is not there is made. */
    method AddServer(x: Name, prev: int, ghost k: nat) returns (n: int)
      requires Valid() && x !in Contents().servers && |x| <= MAX_NAME
      requires var chain := sa.chains[c.ServerSlot(x)]; k == |chain| && prev == At(chain, k - 1)
      modifies this
      ensures NulFree(x) && old(servers.nfree) <= 1 ==>
                Valid() && Contents() == LiveRegistry.CreateServer(old(Contents()), x)
                && LiveServer(Flat(), n) && servers.nfree == SpareAfter(old(Contents()), MakeServer(x), old(Spare()))
      ensures (old(servers.nfree) <= 1 <==> exists a :: Shape(servers, a)) && 0 <= n < |servers.name|
      ensures Sized(c, Flat()) && servers.name[n] == CString(x)
      ensures NulFree(x) <==> Contents() == LiveRegistry.CreateServer(old(Contents()), x)
    {
      hide View, Ranges, ServersKeyed, StreamsKeyed, Counted, FlaggedHave, CString;
      ghost var l, a, f := servers, sa, Flat();
      CStringKeeps(x);
      SpareNode(l, a);
      n := PlaceServer(x, prev, k);
      if NulFree(x) { PutToUse(c, f, n, x); } else { ServerCut(c, f, n, x); }
      if l.nfree <= 1 {
        InsertShape(l, a, c.ServerSlot(x), CString(x), false);
      } else {
        forall a' ensures !Shape(servers, a') { InsertEntangles(l, a, c.ServerSlot(x), CString(x), a'); }
      }
    }

    /**
     The stream of that name, made if need be; the server's count goes up even when the name is too long. A new name
     with a NUL is stored cut at it.
     */
    method CreateStream(x: Name, y: Name) returns (st: int)
      requires Valid()
      modifies this`count, this`streams, this`ta
      ensures Shape(streams, ta) && Sized(c, Flat())
      ensures Manageable(old(Contents()), MakeStream(x, y), 0) ==> Valid()
      ensures Contents() == LiveRegistry.CreateStream(old(Contents()), x, y)
              <==> Manageable(old(Contents()), MakeStream(x, y), 0)
      ensures st == -1 <==>
                x !in old(Contents()).servers || ((x, y) !in old(Contents()).streams && |y| > MAX_NAME)
      ensures st != -1 ==> LiveStream(Flat(), st) && servers.name[owner[ta.place[st]]] == x
      ensures st != -1 ==>
                streams.name[st] == if (x, y) in old(Contents()).streams then y else CString(y)
      ensures (x, y) in Contents().streams <==> st != -1 && streams.name[st] == y
    {
      hide View, Ranges, ServersKeyed, StreamsKeyed, Counted, FlaggedHave;
      var _, s, _ := FindServer(x);
      ghost var f := Flat();
      if s == -1 {
        NoServerNoStream(c, f, x, y);
        return -1;
      }
      var slot, prev, cur, k := FindStream(s, y);
      if cur != -1 { return cur; }
      st := AddStream(s, slot, prev, k, y);
    }

    /** A stream that the server `s` does not have is added, or counted only. */
    method AddStream(s: nat, slot: nat, prev: int, ghost k: nat, y: Name) returns (st: int)
      requires Valid() && LiveServer(Flat(), s) && (servers.name[s], y) !in Contents().streams
      requires slot == base[s] + c.StreamSlot(y) && slot < |owner| && owner[slot] == s
      requires var chain := ta.chains[slot]; k == |chain| && prev == At(chain, k - 1)
      modifies this`count, this`streams, this`ta
      ensures Shape(streams, ta) && Sized(c, Flat())
      ensures |y| > MAX_NAME || NulFree(y) ==> Valid()
      ensures Contents() == LiveRegistry.CreateStream(old(Contents()), servers.name[s], y)
              <==> |y| > MAX_NAME || NulFree(y)
      ensures st == -1 <==> |y| > MAX_NAME
      ensures st != -1 ==> LiveStream(Flat(), st) && streams.name[st] == CString(y) && ta.place[st] == slot
      ensures (servers.name[s], y) in Contents().streams <==> |y| <= MAX_NAME && NulFree(y)
    {
      hide View, Ranges, ServersKeyed, StreamsKeyed, FlaggedHave, IsChain, Placed, CString;
      ghost var f := Flat();
      count := count[s := count[s] + 1];
      if |y| > MAX_NAME {
        StreamCounted(c, f, s, y);
        return -1;
      }
      st := PlaceStream(slot, prev, k, y);
      CStringKeeps(y);
      if NulFree(y) { PutStreamToUse(c, f, s, st, y); } else { StreamCut(c, f, s, st, y); }
    }

    /** A node is taken, new or spare and cleared, and hung on the end of its list. */
    method PlaceStream(slot: nat, prev: int, ghost k: nat, y: Name) returns (n: nat)
      requires Shape(streams, ta) && slot < |streams.heads|
      requires var chain := ta.chains[slot]; k == |chain| && prev == At(chain, k - 1)
      modifies this`streams, this`ta
      ensures Shape(streams, ta) && |streams.heads| == old(|streams.heads|) && n == Node(old(streams))
      ensures n <= |old(ta).place| && (n < |old(ta).place| ==> old(ta).place[n] == -1)
      ensures streams.name == (if n == |old(streams).name| then old(streams).name + [[]]
               else old(streams).name)[n := CString(y)]
      ensures ta.place == (if n == |old(ta).place| then old(ta).place + [-1] else old(ta).place)[n := slot]
    {
      SpareNode(streams, ta);
      InsertShape(streams, ta, slot, CString(y), true);
      n := Node(streams);
      ghost var a := Added(streams, ta, slot);
      streams := Link(Cleared(Taken(streams, CString(y)), n), slot, prev, n);
      ta := a;
    }

    /** One operation, by its method. */
    method Perform(op: Op)
      requires Valid() && Manageable(Contents(), op, Spare())
      modifies this
      ensures Valid() && Contents() == Done(old(Contents()), op)
               && Spare() == SpareAfter(old(Contents()), op, old(Spare()))
    {
      hide View, Ranges, ServersKeyed, StreamsKeyed, Counted, FlaggedHave, Shape, LiveRegistry.CreateServer;
      match op
      case MakeServer(x) => var _ := CreateServer(x);
      case DropServer(x) => DeleteServer(x);
      case MakeStream(x, y) =>
        HaveServers(c, Flat(), x, y);
        var _ := CreateStream(x, y);
      case DropStream(x, y) => DeleteStream(x, y);
    }

    /** Any run of operations that the registry keeps up with comes to what the table says. */
    method PerformAll(ops: seq<Op>)
      requires Valid() && AllManageable(Contents(), ops, Spare())
      modifies this
      ensures Valid() && Contents() == AllDone(old(Contents()), ops)
    {
      hide View, Ranges, ServersKeyed, StreamsKeyed, Counted, FlaggedHave, Shape, Manageable, Done, SpareAfter;
      var i := 0;
      assert ops[0..] == ops;
      while i < |ops|
        invariant i <= |ops| && Valid() && AllManageable(Contents(), ops[i..], Spare())
        invariant AllDone(Contents(), ops[i..]) == AllDone(old(Contents()), ops)
      {
        assert ops[i..][0] == ops[i] && ops[i..][1..] == ops[i+1..];
        Perform(ops[i]);
        i := i + 1;
      }
    }

    lemma TidyNow()
      requires Valid()
      ensures Tidy(Contents())
    {
      NodesTidy(c, Flat());
    }

    /**
     A server is deleted and things go on, without making it again: it is gone if and only if at some point since it
     counted no streams.
     */
    method DeleteAndGoOn(x: Name, ops: seq<Op>)
      requires Valid() && x in Contents().servers && MakeServer(x) !in ops
      requires AllManageable(Contents(), [Op.DropServer(x)] + ops, Spare())
      modifies this
      ensures Valid()
      ensures x in Contents().servers <==> !RunsEmpty(LiveRegistry.DeleteServer(old(Contents()), x), ops, x)
    {
      hide View, Ranges, ServersKeyed, StreamsKeyed, Counted, FlaggedHave, Shape, Manageable, SpareAfter;
      ghost var t := Contents();
      TidyNow();
      StepTidy(t, Op.DropServer(x));
      assert ([Op.DropServer(x)] + ops)[1..] == ops;
      Perform(Op.DropServer(x));
      PerformAll(ops);
      if Counts(t, x) {
        GoesWithItsLast(Done(t, Op.DropServer(x)), ops, x);
      } else {
        StaysAway(Done(t, Op.DropServer(x)), ops, x);
      }
    }

    /** A server is made, or made again, and things go on: it is there until it is deleted once more. */
    method MakeAndGoOn(x: Name, ops: seq<Op>)
      requires Valid() && (x in Contents().servers || |x| <= MAX_NAME) && Op.DropServer(x) !in ops
      requires AllManageable(Contents(), [MakeServer(x)] + ops, Spare())
      modifies this
      ensures Valid() && x in Contents().servers
    {
      hide View, Ranges, ServersKeyed, StreamsKeyed, Counted, FlaggedHave, Shape, Manageable, SpareAfter;
      ghost var t := Contents();
      assert ([MakeServer(x)] + ops)[1..] == ops;
      Perform(MakeServer(x));
      PerformAll(ops);
      UnflaggedStays(Done(t, MakeServer(x)), ops, x);
    }

    /** Once a stream was to be made whose name is too long, its server is there after every run. */
    method CountAndGoOn(x: Name, y: Name, ops: seq<Op>)
      requires Valid() && x in Contents().servers && (x, y) !in Contents().streams && |y| > MAX_NAME
      requires AllManageable(Contents(), [MakeStream(x, y)] + ops, Spare())
      modifies this
      ensures Valid() && x in Contents().servers && x in Contents().stuck
    {
      hide View, Ranges, ServersKeyed, StreamsKeyed, Counted, FlaggedHave, Shape, Manageable, SpareAfter;
      ghost var t := Contents();
      assert ([MakeStream(x, y)] + ops)[1..] == ops;
      Perform(MakeStream(x, y));
      PerformAll(ops);
      StuckStays(Done(t, MakeStream(x, y)), ops, x);
    }
  }

  /** What taking a stream node for server `s` makes of the nodes: the name is stored up to its first NUL. */
  ghost function StreamInUse(c: Config, f: Nodes, s: nat, n: nat, y: Name): Nodes
    requires Sized(c, f) && s < |f.base| && n <= |f.tslot|
  {
    var g := if n == |f.tslot| then f.(tname := f.tname + [[]], tslot := f.tslot + [-1]) else f;
    g.(tname := g.tname[n := CString(y)], tslot := g.tslot[n := f.base[s] + c.StreamSlot(y)],
       count := f.count[s := f.count[s] + 1])
  }

  lemma PutStreamToUse(c: Config, f: Nodes, s: nat, n: nat, y: Name)
    requires NodesOk(c, f, -1) && LiveServer(f, s) && (f.sname[s], y) !in View(c, f).streams
    requires n <= |f.tslot| && (n < |f.tslot| ==> f.tslot[n] == -1) && |y| <= MAX_NAME && NulFree(y)
    ensures var g := StreamInUse(c, f, s, n, y);
            && NodesOk(c, g, -1) && View(c, g) == LiveRegistry.CreateStream(View(c, f), f.sname[s], y)
            && (f.sname[s], y) in View(c, g).streams
  {
    hide Ranges, ServersKeyed, StreamsKeyed, Counted, FlaggedHave, View, CString, NulFree;
    CStringKeeps(y);
    ServerNamed(c, f, f.sname[s]);
    if n == |f.tslot| {
      StreamsGrown(c, f);
      StreamAdded(c, f.(tname := f.tname + [[]], tslot := f.tslot + [-1]), s, n, y);
    } else {
      StreamAdded(c, f, s, n, y);
    }
  }

  /** A name that is cut is not the name that was asked for, so no stream of that name is there. */
  lemma StreamCut(c: Config, f: Nodes, s: nat, n: nat, y: Name)
    requires NodesOk(c, f, -1) && LiveServer(f, s) && (f.sname[s], y) !in View(c, f).streams
    requires n <= |f.tslot| && (n < |f.tslot| ==> f.tslot[n] == -1) && |y| <= MAX_NAME && !NulFree(y)
    ensures var g := StreamInUse(c, f, s, n, y);
            && Sized(c, g) && (f.sname[s], y) !in View(c, g).streams
            && View(c, g) != LiveRegistry.CreateStream(View(c, f), f.sname[s], y)
  {
    hide StreamsKeyed, Counted, FlaggedHave, CString, NulFree;
    var g := StreamInUse(c, f, s, n, y);
    CStringKeeps(y);
    SlotOwned(c, f, s, y);
    forall i | LiveStream(g, i) ensures g.tslot[i] < |g.owner| && (i != n ==> LiveStream(f, i)) {}
    forall i | LiveStream(g, i) ensures (g.sname[g.owner[g.tslot[i]]], g.tname[i]) != (f.sname[s], y) {
      if i != n { assert LiveStream(f, i); }
    }
    assert f.sname[s] in View(c, f).servers;
  }

  lemma StreamsGrown(c: Config, f: Nodes)
    requires NodesOk(c, f, -1)
    ensures var g := f.(tname := f.tname + [[]], tslot := f.tslot + [-1]); NodesOk(c, g, -1) && View(c, g) == View(c, f)
  {
    var g := f.(tname := f.tname + [[]], tslot := f.tslot + [-1]);
    assert forall s :: LiveServer(g, s) <==> LiveServer(f, s);
    assert forall i :: LiveStream(g, i) <==> LiveStream(f, i);
    assert forall s :: Members(g, s) == Members(f, s);
    var t, u := View(c, f), View(c, g);
    assert u.servers == t.servers && u.flagged == t.flagged && u.stuck == t.stuck && u.streams == t.streams;
  }

  /** What taking a server node makes of the nodes. */
  ghost function InUse(c: Config, f: Nodes, n: nat, x: Name): Nodes
    requires Sized(c, f) && n <= |f.sslot|
  {
    var g := if n == |f.sslot| then Grown(c, f) else f;
    g.(sname := g.sname[n := CString(x)], sslot := g.sslot[n := c.ServerSlot(x)], deleted := g.deleted[n := false],
       count := g.count[n := 0])
  }

  lemma PutToUse(c: Config, f: Nodes, n: nat, x: Name)
    requires NodesOk(c, f, -1) && n <= |f.sslot| && (n < |f.sslot| ==> f.sslot[n] == -1) && x !in View(c, f).servers
             && NulFree(x) && |x| <= MAX_NAME
    ensures NodesOk(c, InUse(c, f, n, x), -1) && View(c, InUse(c, f, n, x)) == LiveRegistry.CreateServer(View(c, f), x)
  {
    CStringKeeps(x);
    if n == |f.sslot| {
      ServersGrown(c, f);
      ServerAdded(c, Grown(c, f), n, x);
    } else {
      ServerAdded(c, f, n, x);
    }
  }

  /** A name that is cut is not the name that was asked for. */
  lemma ServerCut(c: Config, f: Nodes, n: nat, x: Name)
    requires NodesOk(c, f, -1) && n <= |f.sslot| && (n < |f.sslot| ==> f.sslot[n] == -1) && x !in View(c, f).servers
             && !NulFree(x) && |x| <= MAX_NAME
    ensures Sized(c, InUse(c, f, n, x)) && View(c, InUse(c, f, n, x)) != LiveRegistry.CreateServer(View(c, f), x)
  {
    hide StreamsKeyed, Counted, FlaggedHave, CString, NulFree, View, Ranges, ServersKeyed;
    CStringKeeps(x);
    var g := InUse(c, f, n, x);
    ServerNamed(c, f, x);
    ServerNamed(c, g, x);
    forall s | LiveServer(g, s) ensures g.sname[s] != x {
      if s != n { assert LiveServer(f, s); }
    }
  }

  lemma LastInside(l: Lists, a: Layout, slot: nat)
    requires Shape(l, a) && slot < |l.heads|
    ensures var chain := a.chains[slot]; At(chain, |chain| - 1) < |l.next|
  {
  }

  lemma SpareNode(l: Lists, a: Layout)
    requires Shape(l, a)
    ensures -1 <= l.free < |l.next| == |l.name| == |a.place| && |l.heads| == |a.chains|
    ensures 0 <= Node(l) <= |a.place| && (l.free == -1 <==> Node(l) == |a.place|)
             && (l.free != -1 ==> a.place[l.free] == -1)
  {
    if a.spare != [] { assert In(a, a.spare[0], -1); }
  }

  lemma HaveServers(c: Config, f: Nodes, x: Name, y: Name)
    requires NodesOk(c, f, -1)
    ensures (x, y) in View(c, f).streams ==>
             x in View(c, f).servers && LiveRegistry.CreateStream(View(c, f), x, y) == View(c, f)
  {
    var t := View(c, f);
    if x !in t.servers {
      NoServerNoStream(c, f, x, y);
    } else if (x, y) in t.streams {
      assert t.streams + {(x, y)} == t.streams;
    }
  }

  lemma NoServerNoStream(c: Config, f: Nodes, x: Name, y: Name)
    requires NodesOk(c, f, -1) && x !in View(c, f).servers
    ensures (x, y) !in View(c, f).streams
  {
    forall i | LiveStream(f, i) ensures f.sname[f.owner[f.tslot[i]]] != x { assert LiveServer(f, f.owner[f.tslot[i]]); }
  }

  lemma ServerNonNegative(c: Config, f: Nodes, s: int)
    requires NodesOk(c, f, -1) && LiveServer(f, s)
    ensures f.count[s] >= 0
  {
  }

  lemma SameServer(c: Config, f: Nodes, s: int, n: int)
    requires NodesOk(c, f, s) && LiveServer(f, s) && LiveServer(f, n) && f.sname[s] == f.sname[n]
    ensures s == n
  {
  }

  lemma StillOk(c: Config, f: Nodes, n: int)
    requires NodesOk(c, f, -1)
    ensures NodesOk(c, f, n)
  {
  }

  lemma FlagSeen(c: Config, f: Nodes, s: int)
    requires NodesOk(c, f, -1) && LiveServer(f, s)
    ensures f.sname[s] in View(c, f).flagged <==> f.deleted[s]
  {
  }

  /** Two servers that are deleted are spare, and then one more leaves lists that no layout fits. */
  method TwoDeletedThenOne(c: Config, x: Name, y: Name, z: Name) returns (r: Registry)
    requires c.Valid() && x != y && NulFree(x) && NulFree(y) && |x| <= MAX_NAME && |y| <= MAX_NAME && |z| <= MAX_NAME
    ensures forall a :: !Shape(r.servers, a)
  {
    hide View, Shape, Ranges, ServersKeyed, StreamsKeyed, Counted, FlaggedHave;
    r := new Registry(c);
    r.Perform(MakeServer(x));
    r.Perform(MakeServer(y));
    assert r.Contents() == Table({x, y}, {}, {}, {}) && r.Spare() == 0;
    r.Perform(Op.DropServer(x));
    assert r.Contents() == Table({y}, {}, {}, {}) && r.Spare() == 1;
    r.Perform(Op.DropServer(y));
    assert r.Contents() == Table({}, {}, {}, {}) && r.Spare() == 2;
    var _ := r.CreateServer(z);
  }
}
