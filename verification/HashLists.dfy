/**
 Nodes with names on singly linked lists: one list for each bucket, one of spare nodes.
 A node that is taken from the spare list keeps its link unless it is cleared.
 */
module HashLists {
  import opened Bytes
  import opened Chains

  datatype Lists = Lists(next: seq<int>, name: seq<seq<Byte>>, heads: seq<int>, free: int, nfree: int)

  /** Which nodes are where: the members of each list, and the list of each node (-1: spare). */
  datatype Layout = Layout(chains: seq<seq<int>>, spare: seq<int>, place: seq<int>)

  ghost predicate Shape(l: Lists, a: Layout) {
    && |l.name| == |l.next| == |a.place| && |l.heads| == |a.chains|
    && IsChain(l.next, l.free, a.spare) && l.nfree == |a.spare|
    && (forall b :: 0 <= b < |a.chains| ==> IsChain(l.next, l.heads[b], a.chains[b]))
    && Placed(a)
  }

  /** Every node is in its place, and nowhere else. */
  ghost predicate Placed(a: Layout) {
    && (forall b, k :: 0 <= b < |a.chains| && 0 <= k < |a.chains[b]| ==> In(a, a.chains[b][k], b))
    && (forall k :: 0 <= k < |a.spare| ==> In(a, a.spare[k], -1))
    && (forall i :: 0 <= i < |a.place| ==> -1 <= a.place[i] < |a.chains|)
    && (forall i :: 0 <= i < |a.place| ==> i in (if a.place[i] == -1 then a.spare else a.chains[a.place[i]]))
  }

  predicate In(a: Layout, i: int, b: int) {
    0 <= i < |a.place| && a.place[i] == b
  }

  // ---------------------------------------------------------------- what is done to them

  /** The link that led to a node, or a list's head, is set. */
  function Link(l: Lists, slot: nat, prev: int, n: int): Lists
    requires slot < |l.heads| && prev < |l.next|
  {
    if prev < 0 then l.(heads := l.heads[slot := n]) else l.(next := l.next[prev := n])
  }

  /** A node to use: the first spare one, or a new one. */
  function Node(l: Lists): int {
    if l.free == -1 then |l.next| else l.free
  }

  function Taken(l: Lists, stored: seq<Byte>): (r: Lists)
    requires -1 <= l.free < |l.next| == |l.name|
    ensures |r.next| == |r.name| && Node(l) < |r.next|
  {
    if l.free == -1 then l.(next := l.next + [-1], name := l.name + [stored])
    else l.(name := l.name[l.free := stored], free := l.next[l.free], nfree := l.nfree - 1)
  }

  function Cleared(l: Lists, n: int): Lists
    requires 0 <= n < |l.next|
  {
    l.(next := l.next[n := -1])
  }

  function Put(l: Lists, n: int): Lists
    requires 0 <= n < |l.next|
  {
    l.(next := l.next[n := l.free], free := n, nfree := l.nfree + 1)
  }

  /** The first node of that name on a list, and the one before it. */
  method Find(l: Lists, slot: nat, name: seq<Byte>, ghost a: Layout) returns (prev: int, cur: int, ghost k: nat)
    requires Shape(l, a) && slot < |l.heads|
    ensures k <= |a.chains[slot]| && cur == At(a.chains[slot], k) && prev == At(a.chains[slot], k - 1)
    ensures forall j :: 0 <= j < k ==> l.name[a.chains[slot][j]] != name
    ensures k < |a.chains[slot]| ==> l.name[cur] == name
  {
    ghost var chain := a.chains[slot];
    prev, cur, k := -1, l.heads[slot], 0;
    while cur != -1 && l.name[cur] != name
      invariant k <= |chain| && cur == At(chain, k) && prev == At(chain, k - 1)
      invariant forall j :: 0 <= j < k ==> l.name[chain[j]] != name
      decreases |chain| - k
    {
      prev, cur, k := cur, l.next[cur], k + 1;
    }
  }

  // ---------------------------------------------------------------- unlinking

  function Removed(a: Layout, slot: nat, k: nat): Layout
    requires slot < |a.chains| && k < |a.chains[slot]| && 0 <= a.chains[slot][k] < |a.place|
  {
    var n := a.chains[slot][k];
    Layout(a.chains[slot := Without(a.chains[slot], k)], [n] + a.spare, a.place[n := -1])
  }

  lemma RemoveLinks(l: Lists, a: Layout, slot: nat, k: nat)
    requires Shape(l, a) && slot < |l.heads| && k < |a.chains[slot]|
    ensures var chain := a.chains[slot]; var n := chain[k];
            var l1 := Link(l, slot, At(chain, k - 1), l.next[n]);
            && (forall b :: 0 <= b < |a.chains| && b != slot ==> IsChain(l1.next, l1.heads[b], a.chains[b]))
            && IsChain(l1.next, l1.heads[slot], Without(chain, k)) && IsChain(l1.next, l1.free, a.spare)
            && |l1.next| == |l.next|
  {
    var chain := a.chains[slot];
    ChainUnlink(l.next, l.heads[slot], chain, k);
    if k > 0 {
      var p := chain[k-1];
      assert In(a, p, slot);
      forall b | 0 <= b < |a.chains| && b != slot ensures IsChain(l.next[p := l.next[chain[k]]], l.heads[b],
          a.chains[b]) {
        Elsewhere(a, p, slot, b);
        ChainFrame(l.next, l.heads[b], a.chains[b], p, l.next[chain[k]]);
      }
      Elsewhere(a, p, slot, -1);
      ChainFrame(l.next, l.free, a.spare, p, l.next[chain[k]]);
    }
  }

  lemma Elsewhere(a: Layout, n: int, slot: int, b: int)
    requires Placed(a) && In(a, n, slot) && b != slot && -1 <= b < |a.chains|
    ensures n !in (if b == -1 then a.spare else a.chains[b])
  {
  }

  lemma RemovePlaces(a: Layout, slot: nat, k: nat)
    requires Placed(a) && slot < |a.chains| && k < |a.chains[slot]| && Distinct(a.chains[slot])
    ensures In(a, a.chains[slot][k], slot) && Placed(Removed(a, slot, k))
  {
    var chain := a.chains[slot];
    var n := chain[k];
    assert In(a, n, slot);
    var r := Removed(a, slot, k);
    WithoutMembers(chain, k);
    forall b, j | 0 <= b < |r.chains| && 0 <= j < |r.chains[b]| ensures In(r, r.chains[b][j], b) {
      var i := r.chains[b][j];
      assert i in r.chains[b];
      assert i in a.chains[b];
      var x :| 0 <= x < |a.chains[b]| && a.chains[b][x] == i;
      assert In(a, a.chains[b][x], b);
    }
    forall j | 0 <= j < |r.spare| ensures In(r, r.spare[j], -1) {
      if j > 0 { assert r.spare[j] == a.spare[j-1]; assert In(a, a.spare[j-1], -1); }
    }
    forall i | 0 <= i < |r.place| ensures i in (if r.place[i] == -1 then r.spare else r.chains[r.place[i]]) {
      if i == n { assert r.spare[0] == n; }
    }
  }

  /** A node unlinked and put back leaves every other list as it was. */
  lemma RemoveShape(l: Lists, a: Layout, slot: nat, k: nat)
    requires Shape(l, a) && slot < |l.heads| && k < |a.chains[slot]|
    ensures var chain := a.chains[slot]; var n := chain[k];
            && 0 <= n < |l.next| && |a.place| == |l.next|
            && Shape(Put(Link(l, slot, At(chain, k - 1), l.next[n]), n), Removed(a, slot, k))
  {
    var chain := a.chains[slot];
    var n := chain[k];
    var l1 := Link(l, slot, At(chain, k - 1), l.next[n]);
    var r := Removed(a, slot, k);
    RemoveLinks(l, a, slot, k);
    ChainIsAcyclic(l.next, l.heads[slot], chain);
    RemovePlaces(a, slot, k);
    WithoutMembers(chain, k);
    forall b | 0 <= b < |r.chains| ensures IsChain(l1.next[n := l.free], l1.heads[b], r.chains[b]) {
      if b != slot { Elsewhere(a, n, slot, b); }
      ChainFrame(l1.next, l1.heads[b], r.chains[b], n, l.free);
    }
    Elsewhere(a, n, slot, -1);
    ChainFrame(l1.next, l.free, a.spare, n, l.free);
    ChainPush(l1.next[n := l.free], l.free, a.spare, n);
  }

  // ---------------------------------------------------------------- inserting

  ghost function Added(l: Lists, a: Layout, slot: nat): Layout
    requires Shape(l, a) && slot < |a.chains|
  {
    var n := Node(l);
    Layout(a.chains[slot := a.chains[slot] + [n]], if l.free == -1 then a.spare else a.spare[1..],
           if l.free == -1 then a.place + [slot] else a.place[n := slot])
  }

  /** A node taken, cleared or not, and hung on the end of a list. */
  ghost function Inserted(l: Lists, a: Layout, slot: nat, stored: seq<Byte>, clear: bool): Lists
    requires Shape(l, a) && slot < |l.heads|
  {
    var n := Node(l);
    var l1 := Taken(l, stored);
    Link(if clear then Cleared(l1, n) else l1, slot, At(a.chains[slot], |a.chains[slot]| - 1), n)
  }

  lemma ChainAppend(next: seq<int>, head: int, c: seq<int>, n: int)
    requires IsChain(next, head, c) && 0 <= n < |next| && n !in c && next[n] == -1
    ensures c == [] ==> IsChain(next, n, [n])
    ensures c != [] ==> IsChain(next[c[|c|-1] := n], head, c + [n])
  {
    if c != [] {
      ChainIsAcyclic(next, head, c);
      var d := c + [n];
      assert forall k :: 0 <= k < |c| ==> d[k] == c[k] && c[k] in c;
    }
  }

  /** The lists with a node in hand that is on none of them, and whose link is cleared. */
  ghost predicate InHand(l: Lists, a: Layout, n: int) {
    && |l.heads| == |a.chains| && 0 <= n < |l.next|
    && (forall b :: 0 <= b < |a.chains| ==> IsChain(l.next, l.heads[b], a.chains[b]) && n !in a.chains[b])
    && l.next[n] == -1
  }

  lemma TakeShape(l: Lists, a: Layout, stored: seq<Byte>, clear: bool)
    requires Shape(l, a) && (clear || |a.spare| <= 1)
    ensures var n := Node(l); var l1 := Taken(l, stored); var l2 := if clear then Cleared(l1, n) else l1;
            var spare := if l.free == -1 then a.spare else a.spare[1..];
            && 0 <= n < |l2.next| && InHand(l2, a, n) && IsChain(l2.next, l2.free, spare) && n !in spare
            && l2.nfree == |spare| && |l2.name| == |l2.next|
  {
    var n := Node(l);
    if l.free == -1 {
      assert a.spare == [];
      assert IsChain(l.next + [-1], -1, []);
      forall b | 0 <= b < |a.chains| ensures IsChain(l.next + [-1], l.heads[b], a.chains[b]) && n !in a.chains[b] {}
      assert (l.next + [-1])[n := -1] == l.next + [-1];
    } else {
      ChainTail(l.next, l.free, a.spare, 1);
      ChainIsAcyclic(l.next, l.free, a.spare);
      var rest := a.spare[1..];
      assert forall k :: 0 <= k < |rest| ==> rest[k] == a.spare[k+1];
      assert In(a, a.spare[0], -1);
      forall b | 0 <= b < |a.chains| ensures n !in a.chains[b] && IsChain(l.next[n := -1], l.heads[b], a.chains[b]) {
        Elsewhere(a, n, -1, b);
        ChainFrame(l.next, l.heads[b], a.chains[b], n, -1);
      }
      ChainFrame(l.next, At(a.spare, 1), rest, n, -1);
      if !clear { assert l.next[n := -1] == l.next; }
    }
  }

  lemma InsertPlaces(l: Lists, a: Layout, slot: nat)
    requires Shape(l, a) && slot < |l.heads|
    ensures 0 <= Node(l) <= |a.place| && Placed(Added(l, a, slot))
  {
    hide Taken;
    var n, r := Node(l), Added(l, a, slot);
    if l.free != -1 {
      ChainIsAcyclic(l.next, l.free, a.spare);
      assert In(a, a.spare[0], -1);
    }
    forall b, j | 0 <= b < |r.chains| && 0 <= j < |r.chains[b]| ensures In(r, r.chains[b][j], b) {
      if !(b == slot && j == |a.chains[slot]|) { assert In(a, a.chains[b][j], b); }
    }
    forall j | 0 <= j < |r.spare| ensures In(r, r.spare[j], -1) {
      var k := if l.free == -1 then j else j + 1;
      assert r.spare[j] == a.spare[k] && In(a, a.spare[k], -1);
    }
    forall i | 0 <= i < |r.place| ensures i in (if r.place[i] == -1 then r.spare else r.chains[r.place[i]]) {
      if i == n {
        assert r.chains[slot][|a.chains[slot]|] == n;
      } else if a.place[i] == -1 {
        var k :| 0 <= k < |a.spare| && a.spare[k] == i;
        assert r.spare[if l.free == -1 then k else k - 1] == i;
      } else {
        var k :| 0 <= k < |a.chains[a.place[i]]| && a.chains[a.place[i]][k] == i;
        assert r.chains[a.place[i]][k] == i;
      }
    }
  }

  lemma InsertLast(l: Lists, a: Layout, slot: nat, n: int, spare: seq<int>)
    requires Placed(a) && InHand(l, a, n) && slot < |a.chains| && a.chains[slot] != []
    requires IsChain(l.next, l.free, spare) && forall x :: x in spare ==> x in a.spare
    ensures var p := At(a.chains[slot], |a.chains[slot]| - 1);
            && 0 <= p < |l.next| && IsChain(l.next[p := n], l.free, spare)
            && IsChain(l.next[p := n], l.heads[slot], a.chains[slot] + [n])
            && forall b :: 0 <= b < |a.chains| && b != slot ==> IsChain(l.next[p := n], l.heads[b], a.chains[b])
  {
    var chain := a.chains[slot];
    var p := chain[|chain|-1];
    ChainAppend(l.next, l.heads[slot], chain, n);
    assert In(a, p, slot);
    forall b | 0 <= b < |a.chains| && b != slot ensures IsChain(l.next[p := n], l.heads[b], a.chains[b]) {
      Elsewhere(a, p, slot, b);
      ChainFrame(l.next, l.heads[b], a.chains[b], p, n);
    }
    Elsewhere(a, p, slot, -1);
    ChainFrame(l.next, l.free, spare, p, n);
  }

  /** The node in hand hung on the end of a list. */
  lemma InsertInHand(l: Lists, a: Layout, slot: nat, n: int, r: Layout)
    requires Placed(a) && Placed(r) && InHand(l, a, n) && slot < |a.chains|
             && r.chains == a.chains[slot := a.chains[slot] + [n]]
    requires IsChain(l.next, l.free, r.spare) && forall x :: x in r.spare ==> x in a.spare
    requires |l.name| == |l.next| == |r.place| && l.nfree == |r.spare|
    ensures Shape(Link(l, slot, At(a.chains[slot], |a.chains[slot]| - 1), n), r)
  {
    hide Placed;
    var chain := a.chains[slot];
    if chain == [] {
      ChainAppend(l.next, l.heads[slot], [], n);
      assert [] + [n] == [n];
    } else {
      InsertLast(l, a, slot, n, r.spare);
    }
  }

  /** With a cleared link, or from a spare list of one, inserting leaves every other list as it was. */
  lemma InsertShape(l: Lists, a: Layout, slot: nat, stored: seq<Byte>, clear: bool)
    requires Shape(l, a) && slot < |l.heads| && (clear || |a.spare| <= 1)
    ensures Shape(Inserted(l, a, slot, stored, clear), Added(l, a, slot))
  {
    hide IsChain, Placed;
    TakeShape(l, a, stored, clear);
    InsertPlaces(l, a, slot);
    var l1 := Taken(l, stored);
    InsertInHand(if clear then Cleared(l1, Node(l)) else l1, a, slot, Node(l), Added(l, a, slot));
  }

  /** Following the links after an uncleared node is hung on: the spare nodes behind it come along. */
  lemma DraggedAlong(l: Lists, a: Layout, slot: nat, stored: seq<Byte>)
    requires Shape(l, a) && slot < |l.heads| && |a.spare| > 1
    ensures var l3 := Inserted(l, a, slot, stored, false);
            IsChain(l3.next, l3.heads[slot], a.chains[slot] + a.spare) && IsChain(l3.next, l3.free, a.spare[1..])
  {
    var n, chain, rest := Node(l), a.chains[slot], a.spare[1..];
    var l3 := Inserted(l, a, slot, stored, false);
    assert In(a, n, -1);
    ChainIsAcyclic(l.next, l.free, a.spare);
    ChainIsAcyclic(l.next, l.heads[slot], chain);
    ChainTail(l.next, l.free, a.spare, 1);
    var long := chain + a.spare;
    forall k | 0 <= k < |long| ensures 0 <= long[k] < |l3.next| && l3.next[long[k]] == At(long, k + 1) {
      if k < |chain| { assert In(a, chain[k], slot); } else { assert In(a, a.spare[k-|chain|], -1); }
    }
    if chain != [] {
      assert In(a, chain[|chain|-1], slot);
      Elsewhere(a, chain[|chain|-1], slot, -1);
      assert forall x :: x in rest ==> x in a.spare;
      ChainFrame(l.next, At(a.spare, 1), rest, chain[|chain|-1], n);
    }
  }

  lemma NotBoth(a: Layout, b: nat, j: nat, k: nat)
    requires Placed(a) && b < |a.chains| && j < |a.chains[b]| && k < |a.spare|
    ensures a.chains[b][j] != a.spare[k]
  {
    assert In(a, a.chains[b][j], b) && In(a, a.spare[k], -1);
  }

  /** From a spare list of more than one, an uncleared link leaves lists that no layout fits. */
  lemma InsertEntangles(l: Lists, a: Layout, slot: nat, stored: seq<Byte>, a': Layout)
    requires Shape(l, a) && slot < |l.heads| && |a.spare| > 1
    ensures !Shape(Inserted(l, a, slot, stored, false), a')
  {
    var l3 := Inserted(l, a, slot, stored, false);
    DraggedAlong(l, a, slot, stored);
    if Shape(l3, a') {
      ChainIsUnique(l3.next, l3.heads[slot], a.chains[slot] + a.spare, a'.chains[slot]);
      ChainIsUnique(l3.next, l3.free, a.spare[1..], a'.spare);
      NotBoth(a', slot, |a.chains[slot]| + 1, 0);
    }
  }

  // ---------------------------------------------------------------- more lists, and counting

  /** Empty lists are added. */
  lemma GrowShape(l: Lists, a: Layout, k: nat)
    requires Shape(l, a)
    ensures Shape(l.(heads := l.heads + seq(k, i => -1)), a.(chains := a.chains + seq(k, i => [])))
  {
    var r := a.(chains := a.chains + seq(k, i => []));
    forall b, j | 0 <= b < |r.chains| && 0 <= j < |r.chains[b]| ensures In(r, r.chains[b][j], b) {
      assert In(a, a.chains[b][j], b);
    }
    forall j | 0 <= j < |r.spare| ensures In(r, r.spare[j], -1) { assert In(a, a.spare[j], -1); }
  }

  ghost function UpTo(n: nat): (r: set<int>)
    ensures |r| == n && forall i :: i in r <==> 0 <= i < n
  {
    if n == 0 then {} else UpTo(n - 1) + {n - 1}
  }

  /** Every node that was ever allocated is spare or on a list. */
  lemma Conserved(l: Lists, a: Layout)
    requires Shape(l, a)
    ensures |l.next| == l.nfree + |set i | 0 <= i < |l.next| && a.place[i] >= 0|
  {
    ChainIsAcyclic(l.next, l.free, a.spare);
    MembersSize<int>(a.spare);
    var live, spare := (set i | 0 <= i < |l.next| && a.place[i] >= 0), Elements<int>(a.spare);
    forall k | 0 <= k < |a.spare| ensures a.place[a.spare[k]] == -1 { assert In(a, a.spare[k], -1); }
    assert live !! spare;
    assert UpTo(|l.next|) == live + spare;
  }
}
