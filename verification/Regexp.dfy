/**
 The kernel filter's regular expressions: a compiler to a list of nodes, and a
 backtracking matcher with lazy and greedy loops. `Accepts` is the meaning, in
 terms of the words a pattern stands for; the matcher is proved to decide it.

 Characters are the codes of C's `char`; a text is the characters before its NUL.
 A node's `ch` is only set for some node types: for the others it holds whatever
 the allocator returned, which is the parameter `junk` here.
 */
module Regexp {
  import opened Bytes

  const BACKSLASH := '\\' as int
  const DOTCHAR := '.' as int
  const CARET := '^' as int
  const DOLLAR := '$' as int
  const ASTERISK := '*' as int
  const PLUSCHAR := '+' as int
  const QUESTION := '?' as int
  const OPEN := '[' as int
  const CLOSE := ']' as int
  const DASH := '-' as int

  datatype Type = CHAR | DOT | BEGIN | END | STAR | PLUS | QUES | LIST

  datatype Node = Node(typ: Type, ch: int, ccl: seq<int>, nccl: bool)

  predicate IsOp(t: Type) {
    t == STAR || t == PLUS || t == QUES
  }

  /** The list buffer up to its first NUL. */
  function UpToNul(list: seq<int>): seq<int> {
    if list == [] || list[0] == 0 then [] else [list[0]] + UpToNul(list[1..])
  }

  predicate InList(c: int, n: Node) {
    n.typ == LIST && (c in UpToNul(n.ccl)) != n.nccl
  }

  /** The test of one character against one node. */
  predicate Takes(n: Node, c: int) {
    n.typ == DOT || InList(c, n) || c == n.ch
  }

  // ---------------------------------------------------------------- meaning

  datatype Item = Item(atom: Node, op: Type)

  /** The words one item stands for: as many characters as its operator allows, each taken by its node. */
  ghost predicate Fits(it: Item, w: seq<int>) {
    && (forall i :: 0 <= i < |w| ==> Takes(it.atom, w[i]))
    && match it.op
       case STAR => true
       case PLUS => |w| >= 1
       case QUES => |w| <= 1
       case _ => |w| == 1
  }

  /** A word of the pattern is a word of each item in turn. */
  ghost predicate Word(items: seq<Item>, w: seq<int>) {
    exists parts: seq<seq<int>> :: Splits(items, parts, w)
  }

  ghost predicate Splits(items: seq<Item>, parts: seq<seq<int>>, w: seq<int>) {
    |parts| == |items| && Flat(parts) == w && forall i :: 0 <= i < |items| ==> Fits(items[i], parts[i])
  }

  /** How a node list reads: a node and the operator behind it make one item, a lone last `$` is an anchor. */
  function Items(nodes: seq<Node>): seq<Item> {
    if nodes == [] || (nodes[0].typ == END && |nodes| == 1) then []
    else if |nodes| > 1 && IsOp(nodes[1].typ) then [Item(nodes[0], nodes[1].typ)] + Items(nodes[2..])
    else [Item(nodes[0], CHAR)] + Items(nodes[1..])
  }

  predicate Anchored(nodes: seq<Node>) {
    if nodes == [] then false
    else if nodes[0].typ == END && |nodes| == 1 then true
    else if |nodes| > 1 && IsOp(nodes[1].typ) then Anchored(nodes[2..])
    else Anchored(nodes[1..])
  }

  /** From position `t` on the text starts with a word of the pattern, which under `$` is all of it. */
  ghost predicate Accepts(nodes: seq<Node>, text: seq<int>, t: nat)
    requires t <= |text|
  {
    exists u :: t <= u <= |text| && Word(Items(nodes), text[t..u]) && (Anchored(nodes) ==> u == |text|)
  }

  /** The whole search: from the start under a leading `^`, from anywhere otherwise. */
  ghost predicate Found(nodes: seq<Node>, text: seq<int>)
    requires nodes != []
  {
    if nodes[0].typ == BEGIN then Accepts(nodes[1..], text, 0)
    else exists t :: 0 <= t <= |text| && Accepts(nodes, text, t)
  }

  // ---------------------------------------------------------------- the same, node by node

  ghost predicate Run(n: Node, text: seq<int>, t: nat, u: nat)
    requires u <= |text|
  {
    forall i :: t <= i < u ==> Takes(n, text[i])
  }

  /** Is `u - t` a number of repetitions the operator allows? */
  predicate Count(op: Type, t: nat, u: nat) {
    t <= u && match op
              case STAR => true
              case PLUS => u >= t + 1
              case QUES => u <= t + 1
              case _ => u == t + 1
  }

  ghost predicate Reach(nodes: seq<Node>, text: seq<int>, t: nat)
    requires t <= |text|
    decreases |nodes|
  {
    if nodes == [] then true
    else if nodes[0].typ == END && |nodes| == 1 then t == |text|
    else
      var op := if |nodes| > 1 && IsOp(nodes[1].typ) then nodes[1].typ else CHAR;
      var rest := if IsOp(op) then nodes[2..] else nodes[1..];
      exists u: nat :: u <= |text| && Count(op, t, u) && Run(nodes[0], text, t, u) && Reach(rest, text, u)
  }

  /** A run of `cur` that `op` allows, then the rest. */
  ghost predicate Via(op: Type, cur: Node, rest: seq<Node>, text: seq<int>, t: nat)
    requires t <= |text|
  {
    exists u: nat :: u <= |text| && Count(op, t, u) && Run(cur, text, t, u) && Reach(rest, text, u)
  }

  lemma ReachVia(nodes: seq<Node>, text: seq<int>, t: nat)
    requires t <= |text| && nodes != [] && !(nodes[0].typ == END && |nodes| == 1)
    ensures |nodes| > 1 && IsOp(nodes[1].typ) ==>
              (Reach(nodes, text, t) <==> Via(nodes[1].typ, nodes[0], nodes[2..], text, t))
    ensures !(|nodes| > 1 && IsOp(nodes[1].typ)) ==>
              (Reach(nodes, text, t) <==> t < |text| && Takes(nodes[0], text[t]) && Reach(nodes[1..], text, t + 1))
  {
    if !(|nodes| > 1 && IsOp(nodes[1].typ)) && t < |text| {
      assert Run(nodes[0], text, t, t + 1) <==> Takes(nodes[0], text[t]);
      assert Count(CHAR, t, t + 1);
    }
  }

  // ---------------------------------------------------------------- the matcher

  method MatchStar(cur: Node, rest: seq<Node>, text: seq<int>, t: nat, longest: bool) returns (r: bool)
    requires t <= |text|
    ensures r <==> Via(STAR, cur, rest, text, t)
    decreases |rest|, 1
  {
    var u := t;
    if !longest {
      while true
        invariant t <= u <= |text| && Run(cur, text, t, u)
        invariant forall v :: t <= v < u ==> !Reach(rest, text, v)
        decreases |text| - u
      {
        r := MatchHere(rest, text, u, longest);
        if r {
          return;
        }
        if u == |text| || !Takes(cur, text[u]) {
          return false;
        }
        u := u + 1;
      }
    }
    u := RunEnd(cur, text, t);
    while true
      invariant t <= u <= |text| && Run(cur, text, t, u)
      invariant forall v :: u < v <= |text| ==> !Run(cur, text, t, v) || !Reach(rest, text, v)
      decreases u
    {
      r := MatchHere(rest, text, u, longest);
      if r {
        return;
      }
      if u == t {
        return false;
      }
      u := u - 1;
    }
  }

  /** The greedy loops first go as far as the node takes characters. */
  method RunEnd(cur: Node, text: seq<int>, t: nat) returns (u: nat)
    requires t <= |text|
    ensures t <= u <= |text| && Run(cur, text, t, u)
    ensures forall v :: u < v <= |text| ==> !Run(cur, text, t, v)
  {
    u := t;
    while u < |text| && Takes(cur, text[u])
      invariant t <= u <= |text| && Run(cur, text, t, u)
    {
      u := u + 1;
    }
    forall v | u < v <= |text| ensures !Run(cur, text, t, v) {
      assert !Takes(cur, text[u]);
    }
  }

  method MatchPlus(cur: Node, rest: seq<Node>, text: seq<int>, t: nat, longest: bool) returns (r: bool)
    requires t <= |text|
    ensures r <==> Via(PLUS, cur, rest, text, t)
    decreases |rest|, 1
  {
    var u := t;
    if !longest {
      while u < |text| && Takes(cur, text[u])
        invariant t <= u <= |text| && Run(cur, text, t, u)
        invariant forall v :: t < v <= u ==> !Reach(rest, text, v)
        decreases |text| - u
      {
        u := u + 1;
        r := MatchHere(rest, text, u, longest);
        if r {
          return;
        }
      }
      return false;
    }
    u := RunEnd(cur, text, t);
    while u > t
      invariant t <= u <= |text| && Run(cur, text, t, u)
      invariant forall v :: u < v <= |text| ==> !Run(cur, text, t, v) || !Reach(rest, text, v)
      decreases u
    {
      r := MatchHere(rest, text, u, longest);
      if r {
        return;
      }
      u := u - 1;
    }
    return false;
  }

  method MatchQues(cur: Node, rest: seq<Node>, text: seq<int>, t: nat, longest: bool) returns (r: bool)
    requires t <= |text|
    ensures r <==> Via(QUES, cur, rest, text, t)
    decreases |rest|, 1
  {
    var u := t;
    if u < |text| && Takes(cur, text[u]) {
      u := u + 1;
    }
    assert Run(cur, text, t, t);
    while true
      invariant t <= u <= |text| && u <= t + 1 && Run(cur, text, t, u)
      invariant forall v :: u < v <= |text| && v <= t + 1 ==> !Run(cur, text, t, v) || !Reach(rest, text, v)
      decreases u
    {
      r := MatchHere(rest, text, u, longest);
      if r {
        return;
      }
      if u == t {
        return false;
      }
      u := u - 1;
    }
  }

  method MatchHere(nodes: seq<Node>, text: seq<int>, t: nat, longest: bool) returns (r: bool)
    requires t <= |text|
    ensures r <==> Reach(nodes, text, t)
    decreases |nodes|, 0
  {
    if nodes == [] {
      return true;
    }
    if nodes[0].typ == END && |nodes| == 1 {
      return t == |text|;
    }
    ReachVia(nodes, text, t);
    if |nodes| > 1 && IsOp(nodes[1].typ) {
      if nodes[1].typ == STAR {
        r := MatchStar(nodes[0], nodes[2..], text, t, longest);
      } else if nodes[1].typ == PLUS {
        r := MatchPlus(nodes[0], nodes[2..], text, t, longest);
      } else {
        r := MatchQues(nodes[0], nodes[2..], text, t, longest);
      }
      return;
    }
    if t < |text| && Takes(nodes[0], text[t]) {
      r := MatchHere(nodes[1..], text, t + 1, longest);
      return;
    }
    return false;
  }

  // ---------------------------------------------------------------- the matcher decides the meaning

  lemma WordNil(w: seq<int>)
    ensures Word([], w) <==> w == []
  {
    if w == [] { assert Splits([], [], w); }
  }

  lemma SplitsCons(it: Item, items: seq<Item>, part: seq<int>, parts: seq<seq<int>>, w: seq<int>)
    requires Fits(it, part) && Splits(items, parts, w)
    ensures Splits([it] + items, [part] + parts, part + w)
  {
    hide Fits, Flat;
    FlatCons(part, parts);
    var all, ps := [it] + items, [part] + parts;
    forall i | 0 <= i < |all| ensures Fits(all[i], ps[i]) {
      if i > 0 { assert all[i] == items[i-1] && ps[i] == parts[i-1]; }
    }
  }

  lemma SplitsTail(it: Item, items: seq<Item>, part: seq<int>, parts: seq<seq<int>>, w: seq<int>)
    requires Splits([it] + items, [part] + parts, part + w)
    ensures Fits(it, part) && Splits(items, parts, w)
  {
    hide Fits, Flat;
    FlatCons(part, parts);
    SamePart(part, Flat(parts), w);
    var all, ps := [it] + items, [part] + parts;
    assert all[0] == it && ps[0] == part;
    forall i | 0 <= i < |items| ensures Fits(items[i], parts[i]) { assert all[i+1] == items[i] && ps[i+1] == parts[i]; }
  }

  lemma FlatCons(part: seq<int>, parts: seq<seq<int>>)
    ensures Flat([part] + parts) == part + Flat(parts)
  {
    assert ([part] + parts)[1..] == parts;
  }

  lemma SamePart(a: seq<int>, b: seq<int>, c: seq<int>)
    ensures a + b == a + c <==> b == c
  {
    assert b == (a + b)[|a|..] && c == (a + c)[|a|..];
  }

  lemma WordCons(it: Item, items: seq<Item>, w: seq<int>)
    ensures Word([it] + items, w) <==> exists k :: 0 <= k <= |w| && Fits(it, w[..k]) && Word(items, w[k..])
  {
    hide Fits, Splits, Flat;
    var all := [it] + items;
    if Word(all, w) {
      var parts :| Splits(all, parts, w);
      SplitsFirst(all, parts, w);
      var k := |parts[0]|;
      assert parts == [parts[0]] + parts[1..] && w == parts[0] + w[k..] && w[..k] == parts[0];
      SplitsTail(it, items, parts[0], parts[1..], w[k..]);
    }
    if k :| 0 <= k <= |w| && Fits(it, w[..k]) && Word(items, w[k..]) {
      var parts :| Splits(items, parts, w[k..]);
      assert w == w[..k] + w[k..];
      SplitsCons(it, items, w[..k], parts, w[k..]);
    }
  }

  lemma SplitsFirst(items: seq<Item>, parts: seq<seq<int>>, w: seq<int>)
    requires items != [] && Splits(items, parts, w)
    ensures parts != [] && |parts[0]| <= |w| && w[..|parts[0]|] == parts[0]
  {
    assert Flat(parts) == parts[0] + Flat(parts[1..]);
  }

  lemma RunIsFit(n: Node, op: Type, text: seq<int>, t: nat, u: nat)
    requires t <= u <= |text|
    ensures Fits(Item(n, op), text[t..u]) <==> Run(n, text, t, u) && Count(op, t, u)
  {
    var w := text[t..u];
    assert forall i :: 0 <= i < |w| ==> w[i] == text[t+i];
    assert forall i :: t <= i < u ==> text[i] == w[i-t];
  }

  /** A word with a first item: some run of its node, then the rest. */
  lemma WordItem(n: Node, op: Type, items: seq<Item>, text: seq<int>, t: nat, u: nat)
    requires t <= u <= |text|
    ensures Word([Item(n, op)] + items, text[t..u]) <==>
              exists m: nat :: t <= m <= u && Count(op, t, m) && Run(n, text, t, m) && Word(items, text[m..u])
  {
    var w := text[t..u];
    WordCons(Item(n, op), items, w);
    forall k: nat | k <= |w|
      ensures w[..k] == text[t..t+k] && w[k..] == text[t+k..u]
      ensures Fits(Item(n, op), w[..k]) <==> Run(n, text, t, t + k) && Count(op, t, t + k)
    {
      RunIsFit(n, op, text, t, t + k);
    }
    if m: nat :| t <= m <= u && Count(op, t, m) && Run(n, text, t, m) && Word(items, text[m..u]) {
      var k := m - t;
      assert w[k..] == text[m..u] && Fits(Item(n, op), w[..k]);
    }
  }

  ghost predicate AcceptsItems(items: seq<Item>, anchored: bool, text: seq<int>, t: nat)
    requires t <= |text|
  {
    exists u :: t <= u <= |text| && Word(items, text[t..u]) && (anchored ==> u == |text|)
  }

  lemma AcceptsCons(n: Node, op: Type, items: seq<Item>, anchored: bool, text: seq<int>, t: nat)
    requires t <= |text|
    ensures AcceptsItems([Item(n, op)] + items, anchored, text, t) <==>
              exists m: nat :: m <= |text| && Count(op, t, m) && Run(n, text, t, m)
                  && AcceptsItems(items, anchored, text, m)
  {
    if AcceptsItems([Item(n, op)] + items, anchored, text, t) {
      var u :| t <= u <= |text| && Word([Item(n, op)] + items, text[t..u]) && (anchored ==> u == |text|);
      WordItem(n, op, items, text, t, u);
    }
    if m: nat :| m <= |text| && Count(op, t, m) && Run(n, text, t, m) && AcceptsItems(items, anchored, text, m) {
      var u :| m <= u <= |text| && Word(items, text[m..u]) && (anchored ==> u == |text|);
      WordItem(n, op, items, text, t, u);
    }
  }

  /** The node-by-node reading and the words of the pattern agree. */
  lemma {:induction false} ReachIsAccepts(nodes: seq<Node>, text: seq<int>, t: nat)
    requires t <= |text|
    ensures Reach(nodes, text, t) <==> Accepts(nodes, text, t)
    decreases |nodes|
  {
    assert Accepts(nodes, text, t) <==> AcceptsItems(Items(nodes), Anchored(nodes), text, t);
    if nodes == [] {
      WordNil(text[t..t]);
    } else if nodes[0].typ == END && |nodes| == 1 {
      WordNil(text[t..|text|]);
    } else {
      var op := if |nodes| > 1 && IsOp(nodes[1].typ) then nodes[1].typ else CHAR;
      var rest := if IsOp(op) then nodes[2..] else nodes[1..];
      AcceptsCons(nodes[0], op, Items(rest), Anchored(rest), text, t);
      forall m: nat | m <= |text| ensures Reach(rest, text, m) <==> AcceptsItems(Items(rest), Anchored(rest), text, m) {
        ReachIsAccepts(rest, text, m);
      }
      assert Items(nodes) == [Item(nodes[0], op)] + Items(rest) && Anchored(nodes) == Anchored(rest);
    }
  }

  // ---------------------------------------------------------------- compiling

  datatype Compiled = Nodes(nodes: seq<Node>) | Rejected | Undefined

  /** What a bracket expression's body becomes: `Class` with the index of its `]`, or a failure. */
  datatype Scanned = Class(end: nat, list: seq<int>) | BadClass | UndefinedClass

  /** The characters from `lo` to `hi`. */
  function Between(lo: int, hi: int): (s: seq<int>)
    ensures |s| == if lo <= hi then hi - lo + 1 else 0
    ensures forall c :: c in s <==> lo <= c <= hi
    decreases hi - lo
  {
    if lo > hi then [] else [lo] + Between(lo + 1, hi)
  }

  const LISTSIZE := 256

  /**
   The body of a bracket expression, from position `j`, with `list` written so far.
   A backwards range moves the write position back; outside the buffer, and past
   the end of the pattern, anything may happen.
   */
  function ScanClass(p: seq<int>, j: nat, list: seq<int>): (r: Scanned)
    requires 1 <= j <= |p|
    ensures r.Class? ==> j <= r.end < |p|
    decreases |p| - j
  {
    if |list| > LISTSIZE then UndefinedClass
    else if j == |p| then BadClass
    else if p[j] == CLOSE then if |list| < LISTSIZE then Class(j, list) else UndefinedClass
    else if p[j] != DASH then ScanClass(p, j + 1, list + [p[j]])
    else if list == [] || (j + 1 < |p| && p[j+1] == CLOSE) then BadClass
    else if j + 1 == |p| then UndefinedClass
    else
      var lo, hi := p[j-1] + 1, p[j+1];
      var moved := hi - lo + 1;
      if moved >= 0 then ScanClass(p, j + 2, list + Between(lo, hi))
      else if -moved <= |list| then ScanClass(p, j + 2, list[..|list|+moved])
      else UndefinedClass
  }

  /** One node of a pattern and the position behind it, or a failure. */
  datatype Step = Made(node: Node, next: nat) | Bad | Unknown

  /** The node at position `i`; `ch` is what its fresh memory holds where nothing is written. */
  function NodeAt(p: seq<int>, i: nat, ch: int): (r: Step)
    requires i < |p|
    ensures r.Made? ==> i < r.next <= |p|
  {
    if p[i] == BACKSLASH then
      if i + 1 == |p| || p[i+1] == 'd' as int || p[i+1] == 'D' as int then Unknown
      else Made(Node(CHAR, if i + 2 < |p| then p[i+2] else 0, [], false), i + 2)
    else if p[i] == OPEN then
      var neg := i + 1 < |p| && p[i+1] == CARET;
      match ScanClass(p, if neg then i + 2 else i + 1, [])
      case BadClass => Bad
      case UndefinedClass => Unknown
      case Class(end, list) => Made(Node(LIST, ch, list, neg), end + 1)
    else Made(SimpleNode(p[i], ch), i + 1)
  }

  /** Compile from position `i`; `k` nodes have been made, and `junk(k)` is what the next one's memory holds. */
  function CompileFrom(p: seq<int>, i: nat, k: nat, junk: nat -> int): Compiled
    requires i <= |p|
    decreases |p| - i
  {
    if i == |p| then Nodes([])
    else
      match NodeAt(p, i, junk(k))
      case Made(node, next) => Cons(node, CompileFrom(p, next, k + 1, junk))
      case Bad => Rejected
      case Unknown => Undefined
  }

  function Cons(n: Node, rest: Compiled): Compiled {
    if rest.Nodes? then Nodes([n] + rest.nodes) else rest
  }

  /** A character that stands alone. */
  function SimpleNode(c: int, ch: int): Node {
    if c == DOTCHAR then Node(DOT, ch, [], false)
    else if c == CARET then Node(BEGIN, CARET, [], false)
    else if c == DOLLAR then Node(END, DOLLAR, [], false)
    else if c == ASTERISK then Node(STAR, ch, [], false)
    else if c == PLUSCHAR then Node(PLUS, ch, [], false)
    else if c == QUESTION then Node(QUES, ch, [], false)
    else Node(CHAR, c, [], false)
  }

  /** The loop that fills in a range, character by character. */
  method CreatList(list: seq<int>, lo: int, hi: int) returns (r: seq<int>)
    ensures r == list + Between(lo, hi)
  {
    r := list;
    var c := lo;
    while c <= hi
      invariant lo <= c
      invariant r + Between(c, hi) == list + Between(lo, hi)
      decreases hi - c
    {
      assert r + Between(c, hi) == (r + [c]) + Between(c + 1, hi);
      r, c := r + [c], c + 1;
    }
  }

  method ReadClass(p: seq<int>, start: nat) returns (r: Scanned)
    requires 1 <= start <= |p|
    ensures r == ScanClass(p, start, [])
  {
    var j, list := start, [];
    while j < |p| && p[j] != CLOSE
      invariant start <= j <= |p|
      invariant ScanClass(p, start, []) == ScanClass(p, j, list)
      decreases |p| - j
    {
      if |list| > LISTSIZE {
        return UndefinedClass;
      }
      if p[j] != DASH {
        list, j := list + [p[j]], j + 1;
        continue;
      }
      if list == [] || (j + 1 < |p| && p[j+1] == CLOSE) {
        return BadClass;
      }
      if j + 1 == |p| {
        return UndefinedClass;
      }
      var moved := p[j+1] - (p[j-1] + 1) + 1;
      if moved >= 0 {
        list := CreatList(list, p[j-1] + 1, p[j+1]);
      } else if -moved <= |list| {
        list := list[..|list|+moved];
      } else {
        return UndefinedClass;
      }
      j := j + 2;
      if j > |p| {
        return UndefinedClass;
      }
    }
    if |list| > LISTSIZE || (j < |p| && |list| == LISTSIZE) {
      return UndefinedClass;
    }
    return if j < |p| then Class(j, list) else BadClass;
  }

  /** Nodes already made, in front of what compiling the rest gives. */
  function Prepend(made: seq<Node>, rest: Compiled): Compiled {
    if rest.Nodes? then Nodes(made + rest.nodes) else rest
  }

  lemma PrependCons(made: seq<Node>, n: Node, rest: Compiled)
    ensures Prepend(made, Cons(n, rest)) == Prepend(made + [n], rest)
  {
    if rest.Nodes? { assert made + ([n] + rest.nodes) == made + [n] + rest.nodes; }
  }

  /** The compiler's switch on one pattern character. */
  method CompileNode(p: seq<int>, i: nat, ch: int) returns (r: Step)
    requires i < |p|
    ensures r == NodeAt(p, i, ch)
  {
    if p[i] == BACKSLASH {
      if i + 1 == |p| || p[i+1] == 'd' as int || p[i+1] == 'D' as int {
        return Unknown;
      }
      return Made(Node(CHAR, if i + 2 < |p| then p[i+2] else 0, [], false), i + 2);
    }
    if p[i] == OPEN {
      var neg := i + 1 < |p| && p[i+1] == CARET;
      var scan := ReadClass(p, if neg then i + 2 else i + 1);
      match scan
      case BadClass => return Bad;
      case UndefinedClass => return Unknown;
      case Class(end, list) => return Made(Node(LIST, ch, list, neg), end + 1);
    }
    return Made(SimpleNode(p[i], ch), i + 1);
  }

  method Compile(p: seq<int>, junk: nat -> int) returns (r: Compiled)
    ensures r == CompileFrom(p, 0, 0, junk)
  {
    var i, made := 0, [];
    while i < |p|
      invariant 0 <= i <= |p|
      invariant CompileFrom(p, 0, 0, junk) == Prepend(made, CompileFrom(p, i, |made|, junk))
      decreases |p| - i
    {
      var step := CompileNode(p, i, junk(|made|));
      if step.Bad? {
        return Rejected;
      }
      if step.Unknown? {
        return Undefined;
      }
      PrependCons(made, step.node, CompileFrom(p, step.next, |made| + 1, junk));
      made, i := made + [step.node], step.next;
    }
    return Nodes(made);
  }

  datatype Outcome = Error | NoMatch | Match | Unspecified

  /** The entry point: -1, 0 and 1 are `Error`, `NoMatch` and `Match`. */
  method RegexpMatch(p: seq<int>, text: seq<int>, longest: bool, junk: nat -> int) returns (r: Outcome)
    ensures var c := CompileFrom(p, 0, 0, junk);
      match c
      case Undefined => r == Unspecified
      case Rejected => r == Error
      case Nodes(nodes) =>
        if nodes == [] then r == Error
        else r == if Found(nodes, text) then Match else NoMatch
  {
    var c := Compile(p, junk);
    if c.Undefined? {
      return Unspecified;
    }
    if c.Rejected? || c.nodes == [] {
      return Error;
    }
    var nodes := c.nodes;
    if nodes[0].typ == BEGIN {
      ReachIsAccepts(nodes[1..], text, 0);
      var ok := MatchHere(nodes[1..], text, 0, longest);
      return if ok then Match else NoMatch;
    }
    var t := 0;
    while true
      invariant 0 <= t <= |text|
      invariant forall v: nat :: v < t ==> !Accepts(nodes, text, v)
      decreases |text| - t
    {
      ReachIsAccepts(nodes, text, t);
      var ok := MatchHere(nodes, text, t, longest);
      if ok {
        return Match;
      }
      if t == |text| {
        return NoMatch;
      }
      t := t + 1;
    }
  }
}
