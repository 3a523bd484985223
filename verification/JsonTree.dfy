/** The tree that the parser builds: items linked to their neighbours and children, in the order they are allocated. */
module JsonTree {
  import opened Json

  datatype Kind = KFalse | KTrue | KNull | KNumber | KString | KArray | KObject

  datatype Text = Nil | Chars(s: seq<Char>)

  /** Links are places in the heap of items; NONE is the null pointer. */
  datatype Item = Item(next: int, prev: int, child: int, kind: Kind, text: Text, num: int, name: Text)

  const NONE := -1

  /** A new item, all zero. */
  const NEW_ITEM := Item(NONE, NONE, NONE, KFalse, Nil, 0, Nil)

  // ---------------------------------------------------------------- how a value lies in the heap

  /** The number of items of a value. */
  function Size(v: Value): (r: nat)
    ensures r > 0
    decreases v, 0
  {
    match v
    case Array(items) => 1 + SizeItems(items, |items|)
    case Object(members) => 1 + SizeMembers(members, |members|)
    case _ => 1
  }

  function SizeItems(items: seq<Value>, n: nat): (r: nat)
    requires n <= |items|
    ensures n > 0 ==> r > 0
    decreases items, n
  {
    if n == 0 then 0 else SizeItems(items, n - 1) + Size(items[n-1])
  }

  function SizeMembers(members: seq<Member>, n: nat): (r: nat)
    requires n <= |members|
    ensures n > 0 ==> r > 0
    decreases members, n
  {
    if n == 0 then 0 else SizeMembers(members, n - 1) + Size(members[n-1].value)
  }

  /** The text is there, and C does not end it before its end. */
  predicate HasText(t: Text, s: seq<Char>) {
    t == Chars(s) && 0 !in s
  }

  /** The value `v` is at item `k`, its other items right behind it, whatever links lead to `k` itself. */
  ghost predicate Laid(heap: seq<Item>, k: nat, v: Value)
    decreases v, 0, 0
  {
    && k + Size(v) <= |heap|
    && var it := heap[k];
    match v
    case Null => it.kind == KNull && it.child == NONE && it.text == Nil
    case False => it.kind == KFalse && it.child == NONE && it.text == Nil
    case True => it.kind == KTrue && it.child == NONE && it.text == Nil
    case Number(n) => it.kind == KNumber && it.num == n && it.child == NONE && it.text == Nil
    case Str(s) => it.kind == KString && HasText(it.text, s) && it.child == NONE
    case Array(items) =>
      && it.kind == KArray && it.text == Nil
      && it.child == (if items == [] then NONE else k + 1)
      && LinkedItems(heap, k + 1, items, |items|)
      && (items != [] ==> EndsAt(heap, k + 1 + SizeItems(items, |items| - 1)))
    case Object(members) =>
      && it.kind == KObject && it.text == Nil
      && it.child == (if members == [] then NONE else k + 1)
      && LinkedMembers(heap, k + 1, members, |members|)
      && (members != [] ==> EndsAt(heap, k + 1 + SizeMembers(members, |members| - 1)))
  }

  predicate EndsAt(heap: seq<Item>, last: nat) {
    last < |heap| && heap[last].next == NONE
  }

  /** Neighbours are linked both ways. */
  predicate Neighbours(heap: seq<Item>, first: nat, c: nat, p: nat)
    requires first <= p < |heap| && c < |heap|
  {
    if c == first then heap[c].prev == NONE else heap[c].prev == p && heap[p].next == c
  }

  /** The first `n` items of a list lie in a row from `c` on; the last one's `next` is left open. */
  ghost predicate LinkedItems(heap: seq<Item>, c: nat, items: seq<Value>, n: nat)
    requires n <= |items|
    decreases items, 1, n
  {
    n == 0
    || (&& LinkedItems(heap, c, items, n - 1)
        && var at := c + SizeItems(items, n - 1);
        && Laid(heap, at, items[n-1])
        && Neighbours(heap, c, at, if n == 1 then c else c + SizeItems(items, n - 2)))
  }

  ghost predicate LinkedMembers(heap: seq<Item>, c: nat, members: seq<Member>, n: nat)
    requires n <= |members|
    decreases members, 1, n
  {
    n == 0
    || (&& LinkedMembers(heap, c, members, n - 1)
        && var at := c + SizeMembers(members, n - 1);
        && Laid(heap, at, members[n-1].value)
        && HasText(heap[at].name, members[n-1].name)
        && Neighbours(heap, c, at, if n == 1 then c else c + SizeMembers(members, n - 2)))
  }

  // ---------------------------------------------------------------- what does not disturb it

  /** Up to the links that lead elsewhere, and its name. */
  predicate SameContent(a: Item, b: Item) {
    a.child == b.child && a.kind == b.kind && a.text == b.text && a.num == b.num
  }

  predicate SameBetween(heap: seq<Item>, heap': seq<Item>, lo: int, hi: int) {
    |heap| >= hi && |heap'| >= hi && forall x :: 0 <= lo <= x < hi ==> heap'[x] == heap[x]
  }

  lemma {:induction false} LaidFrame(heap: seq<Item>, heap': seq<Item>, k: nat, v: Value)
    requires Laid(heap, k, v) && |heap'| >= k + Size(v)
    requires SameContent(heap[k], heap'[k]) && SameBetween(heap, heap', k + 1, k + Size(v))
    ensures Laid(heap', k, v)
    decreases v, 0, 0
  {
    match v
    case Array(items) => ItemsFrame(heap, heap', k + 1, items, |items|);
    case Object(members) => MembersFrame(heap, heap', k + 1, members, |members|);
    case _ =>
  }

  /** A list so far, when nothing but the `next` of its last item has changed. */
  lemma {:induction false} ItemsFrame(heap: seq<Item>, heap': seq<Item>, c: nat, items: seq<Value>, n: nat)
    requires n <= |items| && LinkedItems(heap, c, items, n)
    requires n > 0 ==> var last := c + SizeItems(items, n - 1);
             && SameBetween(heap, heap', c, last) && SameBetween(heap, heap', last + 1, c + SizeItems(items, n))
             && last < |heap| && last < |heap'| && heap'[last] == heap[last].(next := heap'[last].next)
    ensures LinkedItems(heap', c, items, n)
    decreases items, 1, n
  {
    if n > 0 {
      var at := c + SizeItems(items, n - 1);
      LaidFrame(heap, heap', at, items[n-1]);
      if n > 1 {
        var p := c + SizeItems(items, n - 2);
        assert heap'[p] == heap[p];
      }
      ItemsFrame(heap, heap', c, items, n - 1);
    }
  }

  lemma {:induction false} MembersFrame(heap: seq<Item>, heap': seq<Item>, c: nat, members: seq<Member>, n: nat)
    requires n <= |members| && LinkedMembers(heap, c, members, n)
    requires n > 0 ==> var last := c + SizeMembers(members, n - 1);
             && SameBetween(heap, heap', c, last) && SameBetween(heap, heap', last + 1, c + SizeMembers(members, n))
             && last < |heap| && last < |heap'| && heap'[last] == heap[last].(next := heap'[last].next)
    ensures LinkedMembers(heap', c, members, n)
    decreases members, 1, n
  {
    if n > 0 {
      var at := c + SizeMembers(members, n - 1);
      LaidFrame(heap, heap', at, members[n-1].value);
      if n > 1 {
        var p := c + SizeMembers(members, n - 2);
        assert heap'[p] == heap[p];
      }
      MembersFrame(heap, heap', c, members, n - 1);
    }
  }

  // ---------------------------------------------------------------- lists while they grow

  /** The first `n` items are all there is behind the list's owner; `child` is the last of them. */
  ghost predicate ItemRow(heap: seq<Item>, c: nat, items: seq<Value>, n: nat, child: nat) {
    && 0 < n <= |items| && LinkedItems(heap, c, items, n) && |heap| == c + SizeItems(items, n)
    && child == c + SizeItems(items, n - 1) && EndsAt(heap, child)
  }

  ghost predicate MemberRow(heap: seq<Item>, c: nat, members: seq<Member>, n: nat, child: nat) {
    && 0 < n <= |members| && LinkedMembers(heap, c, members, n) && |heap| == c + SizeMembers(members, n)
    && child == c + SizeMembers(members, n - 1) && EndsAt(heap, child)
  }

  /** A new item linked behind `child`. */
  function Linked(heap: seq<Item>, child: nat): (r: seq<Item>)
    requires child < |heap|
    ensures |r| == |heap| + 1 && r[|heap|] == NEW_ITEM.(prev := child)
    ensures r[child] == heap[child].(next := |heap|)
    ensures forall x :: 0 <= x < |heap| && x != child ==> r[x] == heap[x]
  {
    heap[child := heap[child].(next := |heap|)] + [NEW_ITEM.(prev := child)]
  }

  /** Parsing into item `c` has left alone what lies before it, and its links. */
  predicate FilledIn(heap: seq<Item>, heap': seq<Item>, c: nat) {
    && c < |heap| <= |heap'| && SameBetween(heap, heap', 0, c)
    && heap'[c].next == heap[c].next && heap'[c].prev == heap[c].prev
  }

  lemma ItemRowFirst(heap: seq<Item>, c: nat, items: seq<Value>)
    requires items != [] && Laid(heap, c, items[0]) && |heap| == c + Size(items[0])
    requires heap[c].next == NONE && heap[c].prev == NONE
    ensures ItemRow(heap, c, items, 1, c)
  {
    assert SizeItems(items, 0) == 0 && SizeItems(items, 1) == Size(items[0]);
    assert LinkedItems(heap, c, items, 0);
  }

  lemma ItemRowKept(heap: seq<Item>, heap': seq<Item>, c: nat, items: seq<Value>, n: nat, child: nat)
    requires ItemRow(heap, c, items, n, child) && n < |items| && FilledIn(Linked(heap, child), heap', |heap|)
    ensures LinkedItems(heap', c, items, n) && |heap| == c + SizeItems(items, n) && child == c + SizeItems(items, n - 1)
    ensures child < |heap| < |heap'| && heap'[child].next == |heap| && EndsAt(heap', |heap|)
    ensures heap'[|heap|].prev == child
  {
    hide Laid, LinkedItems;
    ItemsFrame(heap, heap', c, items, n);
  }

  lemma ItemRowNext(heap: seq<Item>, heap': seq<Item>, c: nat, items: seq<Value>, n: nat, child: nat)
    requires ItemRow(heap, c, items, n, child) && n < |items|
    requires FilledIn(Linked(heap, child), heap', |heap|)
    requires Laid(heap', |heap|, items[n]) && |heap'| == |heap| + Size(items[n])
    ensures ItemRow(heap', c, items, n + 1, |heap|)
  {
    hide Laid, FilledIn, Linked;
    ItemRowKept(heap, heap', c, items, n, child);
    assert SizeItems(items, n + 1) == SizeItems(items, n) + Size(items[n]);
  }

  lemma MemberRowFirst(heap: seq<Item>, c: nat, members: seq<Member>)
    requires members != [] && Laid(heap, c, members[0].value) && |heap| == c + Size(members[0].value)
    requires heap[c].next == NONE && heap[c].prev == NONE && HasText(heap[c].name, members[0].name)
    ensures MemberRow(heap, c, members, 1, c)
  {
    assert SizeMembers(members, 0) == 0 && SizeMembers(members, 1) == Size(members[0].value);
    assert LinkedMembers(heap, c, members, 0);
  }

  lemma MemberRowNext(heap: seq<Item>, heap': seq<Item>, c: nat, members: seq<Member>, n: nat, child: nat)
    requires MemberRow(heap, c, members, n, child) && n < |members|
    requires FilledIn(Linked(heap, child), heap', |heap|) && HasText(heap'[|heap|].name, members[n].name)
    requires Laid(heap', |heap|, members[n].value) && |heap'| == |heap| + Size(members[n].value)
    ensures MemberRow(heap', c, members, n + 1, |heap|)
  {
    hide Laid, Linked, Size;
    assert SizeMembers(members, n + 1) == SizeMembers(members, n) + Size(members[n].value);
    MembersFrame(heap, heap', c, members, n);
    assert Neighbours(heap', c, |heap|, child);
  }
}
