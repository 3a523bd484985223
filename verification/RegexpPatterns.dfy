/**
 Well-formed patterns as their author means them, how they are written, and the
 proof of what compiling and matching the written form decides. That is what was
 meant, but for two things. An escape takes the character behind the one escaped,
 so what is compiled is the pattern `AsRead`, and that is the pattern itself only
 if each escape is followed by its own character (`EscapesExactly`). A bracket
 also takes the character that its node's unset `ch` happens to hold
 (`StrayFound`): nothing is missed (`NothingMissed`), and nothing is found by
 mistake if no bracket's memory holds a character of the text that is not meant
 (`HarmlessIsMeant`). What is no well-formed bracket is refused (`PiecesRefused`).
 */
module RegexpPatterns {
  import opened Bytes
  import opened Regexp

  /** A bracket expression's parts: single characters and ranges. */
  datatype Part = One(c: int) | Range(lo: int, hi: int)

  datatype Atom = Lit(c: int) | Esc(c: int) | Any | Set(neg: bool, parts: seq<Part>)

  /** `op` is STAR, PLUS, QUES, or CHAR for none. */
  datatype Piece = Piece(atom: Atom, op: Type)

  datatype Pattern = Pattern(begin: bool, pieces: seq<Piece>, end: bool)

  // ---------------------------------------------------------------- meaning

  predicate Covers(part: Part, c: int) {
    match part
    case One(d) => c == d
    case Range(lo, hi) => lo <= c <= hi
  }

  predicate Means(a: Atom, c: int) {
    match a
    case Lit(d) => c == d
    case Esc(d) => c == d
    case Any => true
    case Set(neg, parts) => (exists i :: 0 <= i < |parts| && Covers(parts[i], c)) != neg
  }

  ghost predicate MeantBy(pc: Piece, w: seq<int>) {
    && (forall i :: 0 <= i < |w| ==> Means(pc.atom, w[i]))
    && match pc.op
       case STAR => true
       case PLUS => |w| >= 1
       case QUES => |w| <= 1
       case _ => |w| == 1
  }

  ghost predicate MeantSplit(pieces: seq<Piece>, parts: seq<seq<int>>, w: seq<int>) {
    |parts| == |pieces| && Flat(parts) == w && forall i :: 0 <= i < |pieces| ==> MeantBy(pieces[i], parts[i])
  }

  /** The word `w` is in the language of the pieces. */
  ghost predicate MeantWord(pieces: seq<Piece>, w: seq<int>) {
    exists parts: seq<seq<int>> :: MeantSplit(pieces, parts, w)
  }

  /** Some substring is a word: one at the start under `^`, one at the end under `$`. */
  ghost predicate MeantFound(p: Pattern, text: seq<int>) {
    exists t, u :: 0 <= t <= u <= |text| && MeantWord(p.pieces, text[t..u]) && (p.begin ==> t == 0)
        && (p.end ==> u == |text|)
  }

  // ---------------------------------------------------------------- spelling

  predicate Special(c: int) {
    || c == '\\' as int || c == '.' as int || c == '^' as int || c == '$' as int
    || c == '*' as int || c == '+' as int || c == '?' as int || c == '[' as int
  }

  predicate PartOk(part: Part) {
    match part
    case One(c) => c > 0 && c != ']' as int && c != '-' as int
    case Range(lo, hi) => 0 < lo <= hi && lo != ']' as int && lo != '-' as int && hi != ']' as int
  }

  predicate AtomOk(a: Atom) {
    match a
    case Lit(c) => c > 0 && !Special(c)
    case Esc(c) => c > 0 && c != 'd' as int && c != 'D' as int
    case Any => true
    case Set(neg, parts) =>
      && (forall i :: 0 <= i < |parts| ==> PartOk(parts[i]))
      && |ListOf(parts)| < 256
      && (!neg && parts != [] ==> First(parts[0]) != '^' as int)
  }

  function First(part: Part): int {
    if part.One? then part.c else part.lo
  }

  function ShowPart(part: Part): seq<int> {
    match part
    case One(c) => [c]
    case Range(lo, hi) => [lo, '-' as int, hi]
  }

  function ShowParts(parts: seq<Part>): seq<int> {
    if parts == [] then [] else ShowPart(parts[0]) + ShowParts(parts[1..])
  }

  function ShowAtom(a: Atom): seq<int> {
    match a
    case Lit(c) => [c]
    case Esc(c) => ['\\' as int, c]
    case Any => ['.' as int]
    case Set(neg, parts) => (if neg then ['[' as int, '^' as int] else ['[' as int]) + ShowParts(parts) + [']' as int]
  }

  function ShowOp(op: Type): seq<int> {
    match op
    case STAR => ['*' as int]
    case PLUS => ['+' as int]
    case QUES => ['?' as int]
    case _ => []
  }

  function ShowPieces(pieces: seq<Piece>): seq<int> {
    if pieces == [] then [] else ShowAtom(pieces[0].atom) + ShowOp(pieces[0].op) + ShowPieces(pieces[1..])
  }

  function ShowEnd(end: bool): seq<int> {
    if end then ['$' as int] else []
  }

  function Show(p: Pattern): seq<int> {
    (if p.begin then ['^' as int] else []) + ShowPieces(p.pieces) + ShowEnd(p.end)
  }

  // ---------------------------------------------------------------- what the compiler takes it for

  /** The character at a position, or the NUL behind the last. */
  function CharAt(s: seq<int>, i: nat): int {
    if i < |s| then s[i] else 0
  }

  /** An escape in front of the character `next`. */
  function ReadAtom(a: Atom, next: int): Atom {
    if a.Esc? then Esc(next) else a
  }

  /** What is written behind the first atom. */
  function Behind(pieces: seq<Piece>, tail: seq<int>): seq<int>
    requires pieces != []
  {
    ShowOp(pieces[0].op) + (ShowPieces(pieces[1..]) + tail)
  }

  /** Each escape is taken for the character behind the one that it escapes. */
  function ReadPieces(pieces: seq<Piece>, tail: seq<int>): (read: seq<Piece>)
    ensures |read| == |pieces|
  {
    if pieces == [] then []
    else [Piece(ReadAtom(pieces[0].atom, CharAt(Behind(pieces, tail), 0)), pieces[0].op)]
         + ReadPieces(pieces[1..], tail)
  }

  function AsRead(p: Pattern): Pattern {
    p.(pieces := ReadPieces(p.pieces, ShowEnd(p.end)))
  }

  /** Behind each escaped character the same one is written once more. */
  predicate EscapesFollowed(pieces: seq<Piece>, tail: seq<int>) {
    pieces == []
    || ((pieces[0].atom.Esc? ==> CharAt(Behind(pieces, tail), 0) == pieces[0].atom.c)
        && EscapesFollowed(pieces[1..], tail))
  }

  // ---------------------------------------------------------------- nodes

  function PartList(part: Part): seq<int> {
    if part.One? then [part.c] else Between(part.lo, part.hi)
  }

  /** The characters a bracket expression writes into its list. */
  function ListOf(parts: seq<Part>): seq<int> {
    if parts == [] then []
    else PartList(parts[0]) + ListOf(parts[1..])
  }

  function AtomNode(a: Atom, ch: int): Node {
    match a
    case Lit(c) => Node(CHAR, c, [], false)
    case Esc(c) => Node(CHAR, c, [], false)
    case Any => Node(DOT, ch, [], false)
    case Set(neg, parts) => Node(LIST, ch, ListOf(parts), neg)
  }

  function PieceOf(pc: Piece, k: nat, junk: nat -> int): (nodes: seq<Node>)
    ensures |nodes| == if pc.op == CHAR then 1 else 2
  {
    if pc.op == CHAR then [AtomNode(pc.atom, junk(k))]
    else [AtomNode(pc.atom, junk(k)), Node(pc.op, junk(k + 1), [], false)]
  }

  function PieceNodes(pieces: seq<Piece>, k: nat, junk: nat -> int): seq<Node> {
    if pieces == [] then []
    else PieceOf(pieces[0], k, junk) + PieceNodes(pieces[1..], k + |PieceOf(pieces[0], k, junk)|, junk)
  }

  /** What the unset `ch` of each piece's node holds. */
  function Left(pieces: seq<Piece>, k: nat, junk: nat -> int): (chs: seq<int>)
    ensures |chs| == |pieces|
  {
    if pieces == [] then [] else [junk(k)] + Left(pieces[1..], k + |PieceOf(pieces[0], k, junk)|, junk)
  }

  function LeftIn(p: Pattern, junk: nat -> int): (chs: seq<int>)
    ensures |chs| == |p.pieces|
  {
    Left(p.pieces, if p.begin then 1 else 0, junk)
  }

  function EndNodes(end: bool): seq<Node> {
    if end then [Node(END, DOLLAR, [], false)] else []
  }

  function PatternNodes(p: Pattern, junk: nat -> int): seq<Node> {
    if p.begin then [Node(BEGIN, CARET, [], false)] + (PieceNodes(p.pieces, 1, junk) + EndNodes(p.end))
    else PieceNodes(p.pieces, 0, junk) + EndNodes(p.end)
  }

  // ---------------------------------------------------------------- the compiler reads what was written

  lemma ScanOne(p: seq<int>, j: nat, list: seq<int>)
    requires 1 <= j < |p| && p[j] != CLOSE && p[j] != DASH && |list| < LISTSIZE
    ensures ScanClass(p, j, list) == ScanClass(p, j + 1, list + [p[j]])
  {
  }

  lemma ScanDash(p: seq<int>, j: nat, list: seq<int>, lo: int, hi: int)
    requires 1 <= j && j + 1 < |p| && p[j] == DASH && p[j-1] == lo <= hi == p[j+1] && hi != CLOSE
    requires 0 < |list| <= LISTSIZE
    ensures ScanClass(p, j, list) == ScanClass(p, j + 2, list + Between(lo + 1, hi))
  {
  }

  lemma ScanRange(p: seq<int>, j: nat, list: seq<int>, lo: int, hi: int)
    requires 1 <= j && j + 2 < |p| && p[j] == lo && p[j+1] == DASH && p[j+2] == hi
    requires lo != CLOSE && lo != DASH && hi != CLOSE && lo <= hi && |list| < LISTSIZE
    ensures ScanClass(p, j, list) == ScanClass(p, j + 3, list + Between(lo, hi))
  {
    hide ScanClass;
    ScanOne(p, j, list);
    ScanDash(p, j + 1, list + [lo], lo, hi);
    Regroup(list, [lo], Between(lo + 1, hi));
  }

  /** The parts of a bracket expression are read, whatever is behind them. */
  lemma {:induction false} PartsScan(p: seq<int>, j: nat, parts: seq<Part>, list: seq<int>)
    requires 1 <= j && Stands(p, j, ShowParts(parts))
    requires forall i :: 0 <= i < |parts| ==> PartOk(parts[i])
    requires |list| + |ListOf(parts)| < LISTSIZE
    ensures var end := j + |ShowParts(parts)|;
            end <= |p| && ScanClass(p, j, list) == ScanClass(p, end, list + ListOf(parts))
    decreases |parts|
  {
    hide Between, ShowPart, Stands, ScanClass;
    if parts == [] {
      assert list + [] == list && ShowParts(parts) == [] + [];
      StandsSplit(p, j, [], []);
    } else {
      var part, rest := parts[0], parts[1..];
      StandsSplit(p, j, ShowPart(part), ShowParts(rest));
      PartsScan(p, j + |ShowPart(part)|, rest, list + PartList(part));
      PartScan(p, j, part, list);
      Regroup(list, PartList(part), ListOf(rest));
    }
  }

  lemma ScanClose(p: seq<int>, j: nat, list: seq<int>)
    requires 1 <= j < |p| && p[j] == CLOSE && |list| < LISTSIZE
    ensures ScanClass(p, j, list) == Class(j, list)
  {
  }

  lemma PartScan(p: seq<int>, j: nat, part: Part, list: seq<int>)
    requires 1 <= j && Stands(p, j, ShowPart(part)) && PartOk(part) && |list| < LISTSIZE
    ensures ScanClass(p, j, list) ==
            ScanClass(p, j + |ShowPart(part)|, list + PartList(part))
  {
    StandsAt(p, j, ShowPart(part), 0);
    match part
    case One(c) => ScanOne(p, j, list);
    case Range(lo, hi) =>
      StandsAt(p, j, ShowPart(part), 1);
      StandsAt(p, j, ShowPart(part), 2);
      ScanRange(p, j, list, lo, hi);
  }

  lemma AtomCompiles(p: seq<int>, i: nat, a: Atom, ch: int)
    requires AtomOk(a) && Stands(p, i, ShowAtom(a))
    ensures var next := i + |ShowAtom(a)|; NodeAt(p, i, ch) == Made(AtomNode(ReadAtom(a, CharAt(p, next)), ch), next)
  {
    hide ScanClass, Stands, ShowParts, ListOf;
    if a.Set? {
      SetCompiles(p, i, a.neg, a.parts, ch);
    } else {
      StandsAt(p, i, ShowAtom(a), 0);
      if a.Esc? { StandsAt(p, i, ShowAtom(a), 1); }
    }
  }

  lemma SetCompiles(p: seq<int>, i: nat, neg: bool, parts: seq<Part>, ch: int)
    requires AtomOk(Set(neg, parts)) && Stands(p, i, ShowAtom(Set(neg, parts)))
    ensures NodeAt(p, i, ch) == Made(Node(LIST, ch, ListOf(parts), neg), i + |ShowAtom(Set(neg, parts))|)
  {
    hide ScanClass, Stands, ListOf;
    var a := Set(neg, parts);
    var open := if neg then [OPEN, CARET] else [OPEN];
    StandsAt(p, i, ShowAtom(a), 0);
    StandsAt(p, i, ShowAtom(a), 1);
    assert ShowAtom(a) == open + (ShowParts(parts) + [CLOSE]);
    StandsSplit(p, i, open, ShowParts(parts) + [CLOSE]);
    var end := i + |open| + |ShowParts(parts)|;
    StandsSplit(p, i + |open|, ShowParts(parts), [CLOSE]);
    StandsAt(p, end, [CLOSE], 0);
    PartsScan(p, i + |open|, parts, []);
    NoList(ListOf(parts));
    ScanClose(p, end, ListOf(parts));
    if !neg && parts != [] { assert ShowAtom(a)[1] == First(parts[0]); }
  }

  lemma NoList(list: seq<int>)
    ensures [] + list == list
  {
  }

  lemma CompileStep(p: seq<int>, i: nat, k: nat, junk: nat -> int, node: Node, next: nat, rest: seq<Node>)
    requires i < |p| && NodeAt(p, i, junk(k)) == Made(node, next)
    requires CompileFrom(p, next, k + 1, junk) == Nodes(rest)
    ensures CompileFrom(p, i, k, junk) == Nodes([node] + rest)
  {
  }

  lemma OpCompiles(p: seq<int>, i: nat, op: Type, ch: int)
    requires IsOp(op) && Stands(p, i, ShowOp(op))
    ensures NodeAt(p, i, ch) == Made(Node(op, ch, [], false), i + 1) && |ShowOp(op)| == 1
  {
    StandsAt(p, i, ShowOp(op), 0);
  }

  lemma PieceCompiles(p: seq<int>, i: nat, pc: Piece, k: nat, junk: nat -> int, rest: seq<Node>, i': nat, k': nat)
    requires AtomOk(pc.atom) && (pc.op == CHAR || IsOp(pc.op)) && Stands(p, i, ShowAtom(pc.atom) + ShowOp(pc.op))
    requires i' == i + |ShowAtom(pc.atom) + ShowOp(pc.op)| && k' == k + |PieceOf(pc, k, junk)|
    requires i' <= |p| && CompileFrom(p, i', k', junk) == Nodes(rest)
    ensures var read := pc.(atom := ReadAtom(pc.atom, CharAt(p, i + |ShowAtom(pc.atom)|)));
            CompileFrom(p, i, k, junk) == Nodes(PieceOf(read, k, junk) + rest)
  {
    hide CompileFrom, NodeAt, Stands;
    var a, node := ShowAtom(pc.atom), AtomNode(ReadAtom(pc.atom, CharAt(p, i + |ShowAtom(pc.atom)|)), junk(k));
    StandsSplit(p, i, a, ShowOp(pc.op));
    AtomCompiles(p, i, pc.atom, junk(k));
    if pc.op == CHAR {
      CompileStep(p, i, k, junk, node, i + |a|, rest);
    } else {
      var n := Node(pc.op, junk(k + 1), [], false);
      OpCompiles(p, i + |a|, pc.op, junk(k + 1));
      CompileStep(p, i + |a|, k + 1, junk, n, i + |a| + 1, rest);
      CompileStep(p, i, k, junk, node, i + |a|, [n] + rest);
      assert [node] + ([n] + rest) == [node, n] + rest;
    }
  }

  predicate PiecesOk(pieces: seq<Piece>) {
    forall i :: 0 <= i < |pieces| ==> AtomOk(pieces[i].atom) && (pieces[i].op == CHAR || IsOp(pieces[i].op))
  }

  lemma {:induction false} PiecesCompile(p: seq<int>, i: nat, pieces: seq<Piece>, tail: seq<int>, k: nat,
                                         junk: nat -> int, rest: seq<Node>, end: nat, made: nat)
    requires Stands(p, i, ShowPieces(pieces)) && Stands(p, end, tail) && |p| == end + |tail| && PiecesOk(pieces)
    requires end == i + |ShowPieces(pieces)| && made == k + |PieceNodes(pieces, k, junk)|
    requires CompileFrom(p, end, made, junk) == Nodes(rest)
    ensures CompileFrom(p, i, k, junk) == Nodes(PieceNodes(ReadPieces(pieces, tail), k, junk) + rest)
    decreases |pieces|
  {
    hide CompileFrom, Stands, PieceOf, ReadAtom, Behind, CharAt, ShowAtom, ShowOp;
    if pieces == [] {
      assert [] + rest == rest;
    } else {
      var pc, ps := pieces[0], pieces[1..];
      var i', k' := i + |ShowAtom(pc.atom) + ShowOp(pc.op)|, k + |PieceOf(pc, k, junk)|;
      PiecesStand(p, i, pieces);
      PiecesCompile(p, i', ps, tail, k', junk, rest, end, made);
      BehindStands(p, i, pieces, tail);
      var read := pc.(atom := ReadAtom(pc.atom, CharAt(Behind(pieces, tail), 0)));
      var nodes := PieceNodes(ReadPieces(ps, tail), k', junk);
      PieceCompiles(p, i, pc, k, junk, nodes + rest, i', k');
      Regroup(PieceOf(read, k, junk), nodes, rest);
      FirstRead(read, ReadPieces(ps, tail), k, junk);
    }
  }

  lemma FirstRead(pc: Piece, rest: seq<Piece>, k: nat, junk: nat -> int)
    ensures PieceNodes([pc] + rest, k, junk)
            == PieceOf(pc, k, junk) + PieceNodes(rest, k + |PieceOf(pc, k, junk)|, junk)
  {
    assert ([pc] + rest)[1..] == rest;
  }

  lemma BehindStands(p: seq<int>, i: nat, pieces: seq<Piece>, tail: seq<int>)
    requires pieces != [] && Stands(p, i, ShowPieces(pieces))
    requires var end := i + |ShowPieces(pieces)|; Stands(p, end, tail) && |p| == end + |tail|
    ensures CharAt(Behind(pieces, tail), 0) == CharAt(p, i + |ShowAtom(pieces[0].atom)|)
  {
    hide Stands, ShowAtom, ShowOp;
    var a, o, m := ShowAtom(pieces[0].atom), ShowOp(pieces[0].op), ShowPieces(pieces[1..]);
    PiecesStand(p, i, pieces);
    StandsSplit(p, i, a, o);
    if o != [] { StandsAt(p, i + |a|, o, 0); }
    else if m != [] { StandsAt(p, i + |a + o|, m, 0); }
    else if tail != [] { StandsAt(p, i + |ShowPieces(pieces)|, tail, 0); }
  }

  lemma PiecesStand(p: seq<int>, i: nat, pieces: seq<Piece>)
    requires pieces != [] && Stands(p, i, ShowPieces(pieces))
    ensures var shown := ShowAtom(pieces[0].atom) + ShowOp(pieces[0].op);
      && Stands(p, i, shown) && Stands(p, i + |shown|, ShowPieces(pieces[1..]))
      && |ShowPieces(pieces)| == |shown| + |ShowPieces(pieces[1..])|
  {
    StandsSplit(p, i, ShowAtom(pieces[0].atom) + ShowOp(pieces[0].op), ShowPieces(pieces[1..]));
  }

  lemma EndCompiles(p: seq<int>, i: nat, end: bool, k: nat, junk: nat -> int)
    requires i + (if end then 1 else 0) == |p| && (end ==> p[i] == DOLLAR)
    ensures CompileFrom(p, i, k, junk) == Nodes(EndNodes(end))
  {
    if end { CompileStep(p, i, k, junk, Node(END, DOLLAR, [], false), i + 1, []); }
  }

  lemma ShowStands(p: Pattern)
    ensures var s, b, m := Show(p), if p.begin then 1 else 0, ShowPieces(p.pieces);
      && Stands(s, b, m) && Stands(s, b + |m|, ShowEnd(p.end)) && |s| == b + |m| + |ShowEnd(p.end)|
      && (p.begin ==> s[0] == CARET) && (p.end ==> s[b+|m|] == DOLLAR)
  {
  }

  lemma {:induction false} SameCount(pieces: seq<Piece>, tail: seq<int>, k: nat, junk: nat -> int)
    ensures |PieceNodes(ReadPieces(pieces, tail), k, junk)| == |PieceNodes(pieces, k, junk)|
    ensures Left(ReadPieces(pieces, tail), k, junk) == Left(pieces, k, junk)
    decreases |pieces|
  {
    if pieces != [] {
      var read := ReadPieces(pieces, tail);
      assert read[1..] == ReadPieces(pieces[1..], tail);
      SameCount(pieces[1..], tail, k + |PieceOf(pieces[0], k, junk)|, junk);
    }
  }

  /** Compiling a well-formed pattern as it is written gives the nodes of the pattern that it is taken for. */
  lemma PatternCompiles(p: Pattern, junk: nat -> int)
    requires PiecesOk(p.pieces)
    ensures CompileFrom(Show(p), 0, 0, junk) == Nodes(PatternNodes(AsRead(p), junk))
  {
    hide Show, ShowPieces, Stands, CompileFrom, ReadPieces, PieceNodes, EndNodes;
    var s, b, m := Show(p), if p.begin then 1 else 0, ShowPieces(p.pieces);
    ShowStands(p);
    var end, made := b + |m|, b + |PieceNodes(p.pieces, b, junk)|;
    EndCompiles(s, end, p.end, made, junk);
    PiecesCompile(s, b, p.pieces, ShowEnd(p.end), b, junk, EndNodes(p.end), end, made);
    if p.begin {
      BeginCompiles(s, junk, PieceNodes(AsRead(p).pieces, 1, junk) + EndNodes(p.end));
    }
  }

  lemma BeginCompiles(s: seq<int>, junk: nat -> int, rest: seq<Node>)
    requires |s| > 0 && s[0] == CARET && CompileFrom(s, 1, 1, junk) == Nodes(rest)
    ensures CompileFrom(s, 0, 0, junk) == Nodes([Node(BEGIN, CARET, [], false)] + rest)
  {
    hide CompileFrom, ScanClass;
    assert NodeAt(s, 0, junk(0)) == Made(Node(BEGIN, CARET, [], false), 1);
    CompileStep(s, 0, 0, junk, Node(BEGIN, CARET, [], false), 1, rest);
  }

  lemma {:induction false} ReadsItself(pieces: seq<Piece>, tail: seq<int>)
    requires PiecesOk(pieces)
    ensures ReadPieces(pieces, tail) == pieces <==> EscapesFollowed(pieces, tail)
    decreases |pieces|
  {
    hide Behind, CharAt;
    if pieces != [] {
      ReadsItself(pieces[1..], tail);
      assert pieces == [pieces[0]] + pieces[1..];
      assert ReadPieces(pieces, tail)[1..] == ReadPieces(pieces[1..], tail);
    }
  }

  lemma HeadNodes(pieces: seq<Piece>, k: nat, junk: nat -> int)
    requires pieces != []
    ensures var nodes, n := PieceNodes(pieces, k, junk), |PieceOf(pieces[0], k, junk)|;
            && n <= |nodes| && nodes[0] == AtomNode(pieces[0].atom, junk(k))
            && nodes[n..] == PieceNodes(pieces[1..], k + n, junk)
  {
    assert PieceNodes(pieces, k, junk)[0] == PieceOf(pieces[0], k, junk)[0];
  }

  lemma {:induction false} NodesTell(pieces: seq<Piece>, tail: seq<int>, k: nat, junk: nat -> int)
    requires PieceNodes(ReadPieces(pieces, tail), k, junk) == PieceNodes(pieces, k, junk)
    ensures ReadPieces(pieces, tail) == pieces
    decreases |pieces|
  {
    hide PieceNodes, Behind, CharAt;
    if pieces != [] {
      var read := ReadPieces(pieces, tail);
      assert read[1..] == ReadPieces(pieces[1..], tail);
      HeadNodes(read, k, junk);
      HeadNodes(pieces, k, junk);
      NodesTell(pieces[1..], tail, k + |PieceOf(pieces[0], k, junk)|, junk);
      assert pieces == [pieces[0]] + pieces[1..] && read == [read[0]] + read[1..];
    }
  }

  lemma NodesInside(p: Pattern, junk: nat -> int)
    ensures var b := if p.begin then 1 else 0;
            var n := b + |PieceNodes(p.pieces, b, junk)|;
            n <= |PatternNodes(p, junk)| && PatternNodes(p, junk)[b..n] == PieceNodes(p.pieces, b, junk)
  {
  }

  /**
   The pattern's own nodes are what compiling gives if and only if behind each escaped character the same one is
   written once more.
   */
  lemma EscapesExactly(p: Pattern, junk: nat -> int)
    requires PiecesOk(p.pieces)
    ensures CompileFrom(Show(p), 0, 0, junk) == Nodes(PatternNodes(p, junk))
            <==> EscapesFollowed(p.pieces, ShowEnd(p.end))
  {
    hide CompileFrom, Show, PatternNodes, PieceNodes, ReadPieces, EscapesFollowed, EndNodes;
    var b, q := if p.begin then 1 else 0, AsRead(p);
    PatternCompiles(p, junk);
    ReadsItself(p.pieces, ShowEnd(p.end));
    if PatternNodes(q, junk) == PatternNodes(p, junk) {
      SameCount(p.pieces, ShowEnd(p.end), b, junk);
      NodesInside(p, junk);
      NodesInside(q, junk);
      NodesTell(p.pieces, ShowEnd(p.end), b, junk);
    }
  }

  // ---------------------------------------------------------------- nodes mean what the pattern means

  /** Well-formed but for the characters escaped. */
  predicate BracketsOk(pieces: seq<Piece>) {
    forall i :: 0 <= i < |pieces| ==>
      (pieces[i].atom.Set? ==> AtomOk(pieces[i].atom)) && (pieces[i].op == CHAR || IsOp(pieces[i].op))
  }

  lemma {:induction false} ReadBrackets(pieces: seq<Piece>, tail: seq<int>)
    requires PiecesOk(pieces)
    ensures BracketsOk(ReadPieces(pieces, tail))
    decreases |pieces|
  {
    if pieces != [] {
      var read := ReadPieces(pieces, tail);
      ReadBrackets(pieces[1..], tail);
      assert read[1..] == ReadPieces(pieces[1..], tail);
      forall i | 0 <= i < |read|
        ensures (read[i].atom.Set? ==> AtomOk(read[i].atom)) && (read[i].op == CHAR || IsOp(read[i].op))
      {
        if i == 0 { assert AtomOk(pieces[0].atom); } else { assert read[i] == read[1..][i-1]; }
      }
    }
  }

  lemma {:induction false} ListCovers(parts: seq<Part>, c: int)
    ensures c in ListOf(parts) <==> exists i :: 0 <= i < |parts| && Covers(parts[i], c)
  {
    hide Covers, PartList;
    if parts != [] {
      var rest := parts[1..];
      ListCovers(rest, c);
      PartCovers(parts[0], c);
      if i :| 0 <= i < |parts| && Covers(parts[i], c) {
        if i > 0 { assert rest[i-1] == parts[i]; }
      }
      if i :| 0 <= i < |rest| && Covers(rest[i], c) { assert parts[i+1] == rest[i]; }
    }
  }

  lemma PartCovers(part: Part, c: int)
    ensures c in PartList(part) <==> Covers(part, c)
  {
  }

  lemma {:induction false} WholeList(list: seq<int>)
    requires 0 !in list
    ensures UpToNul(list) == list
  {
    if list != [] { WholeList(list[1..]); }
  }

  lemma {:induction false} ListHasNoNul(parts: seq<Part>)
    requires forall i :: 0 <= i < |parts| ==> PartOk(parts[i])
    ensures 0 !in ListOf(parts)
  {
    if parts != [] { ListHasNoNul(parts[1..]); }
  }

  /**
   A bracket node takes the characters it should, and besides them the one its
   unset `ch` happens to hold.
   */
  lemma NodeTakes(a: Atom, ch: int, c: int)
    requires a.Set? ==> AtomOk(a)
    ensures Takes(AtomNode(a, ch), c) <==> Means(a, c) || (a.Set? && c == ch)
  {
    if a.Set? {
      ListHasNoNul(a.parts);
      WholeList(ListOf(a.parts));
      ListCovers(a.parts, c);
    }
  }

  /** What an atom takes when its memory holds `ch`. */
  predicate StrayMeans(a: Atom, ch: int, c: int) {
    Means(a, c) || (a.Set? && c == ch)
  }

  ghost predicate StrayBy(pc: Piece, ch: int, w: seq<int>) {
    && (forall i :: 0 <= i < |w| ==> StrayMeans(pc.atom, ch, w[i]))
    && match pc.op
       case STAR => true
       case PLUS => |w| >= 1
       case QUES => |w| <= 1
       case _ => |w| == 1
  }

  ghost predicate StraySplit(pieces: seq<Piece>, chs: seq<int>, parts: seq<seq<int>>, w: seq<int>)
    requires |chs| == |pieces|
  {
    |parts| == |pieces| && Flat(parts) == w && forall i :: 0 <= i < |pieces| ==> StrayBy(pieces[i], chs[i], parts[i])
  }

  ghost predicate StrayWord(pieces: seq<Piece>, chs: seq<int>, w: seq<int>)
    requires |chs| == |pieces|
  {
    exists parts: seq<seq<int>> :: StraySplit(pieces, chs, parts, w)
  }

  /** What is found: the pattern as meant, with one more character in each bracket. */
  ghost predicate StrayFound(p: Pattern, chs: seq<int>, text: seq<int>)
    requires |chs| == |p.pieces|
  {
    exists t, u :: 0 <= t <= u <= |text| && StrayWord(p.pieces, chs, text[t..u]) && (p.begin ==> t == 0)
        && (p.end ==> u == |text|)
  }

  lemma PieceItem(pc: Piece, k: nat, junk: nat -> int, rest: seq<Node>)
    requires pc.op == CHAR || IsOp(pc.op)
    requires rest == [] || !IsOp(rest[0].typ)
    ensures var nodes := PieceOf(pc, k, junk) + rest;
      Items(nodes) == [Item(AtomNode(pc.atom, junk(k)), pc.op)] + Items(rest) && Anchored(nodes) == Anchored(rest)
  {
    var nodes := PieceOf(pc, k, junk) + rest;
    assert nodes[|PieceOf(pc, k, junk)|..] == rest;
  }

  function ItemOf(pc: Piece, ch: int): Item {
    Item(AtomNode(pc.atom, ch), pc.op)
  }

  lemma {:induction false} PieceItems(pieces: seq<Piece>, k: nat, junk: nat -> int, end: bool)
    returns (items: seq<Item>)
    requires BracketsOk(pieces)
    ensures items == Items(PieceNodes(pieces, k, junk) + EndNodes(end)) && |items| == |pieces|
    ensures Anchored(PieceNodes(pieces, k, junk) + EndNodes(end)) == end
    ensures forall i :: 0 <= i < |pieces| ==> items[i] == ItemOf(pieces[i], Left(pieces, k, junk)[i])
    decreases |pieces|
  {
    hide ListOf;
    if pieces == [] {
      assert PieceNodes(pieces, k, junk) + EndNodes(end) == EndNodes(end);
      items := [];
    } else {
      var it, nodes := ItemOf(pieces[0], junk(k)), PieceNodes(pieces, k, junk) + EndNodes(end);
      var k' := k + |PieceOf(pieces[0], k, junk)|;
      var rest := PieceItems(pieces[1..], k', junk, end);
      NotOp(pieces[1..], k', junk, end);
      FirstPieceItem(pieces, k, junk, end, nodes, PieceNodes(pieces[1..], k', junk) + EndNodes(end));
      items := [it] + rest;
      forall i | 0 <= i < |pieces| ensures items[i] == ItemOf(pieces[i], Left(pieces, k, junk)[i]) {
        if i > 0 { assert items[i] == rest[i-1] && pieces[1..][i-1] == pieces[i]; }
      }
    }
  }

  lemma FirstPieceItem(pieces: seq<Piece>, k: nat, junk: nat -> int, end: bool, nodes: seq<Node>, rest: seq<Node>)
    requires pieces != [] && (pieces[0].op == CHAR || IsOp(pieces[0].op)) && (rest == [] || !IsOp(rest[0].typ))
    requires nodes == PieceNodes(pieces, k, junk) + EndNodes(end)
    requires rest == PieceNodes(pieces[1..], k + |PieceOf(pieces[0], k, junk)|, junk) + EndNodes(end)
    ensures Items(nodes) == [Item(AtomNode(pieces[0].atom, junk(k)), pieces[0].op)] + Items(rest)
    ensures Anchored(nodes) == Anchored(rest)
  {
    Regroup(PieceOf(pieces[0], k, junk), PieceNodes(pieces[1..], k + |PieceOf(pieces[0], k, junk)|, junk),
        EndNodes(end));
    PieceItem(pieces[0], k, junk, rest);
  }

  lemma NotOp(pieces: seq<Piece>, k: nat, junk: nat -> int, end: bool)
    requires BracketsOk(pieces)
    ensures var nodes := PieceNodes(pieces, k, junk) + EndNodes(end);
      nodes == [] || (!IsOp(nodes[0].typ) && nodes[0].typ != BEGIN)
  {
    if pieces != [] { assert PieceNodes(pieces, k, junk)[0] == AtomNode(pieces[0].atom, junk(k)); }
  }

  lemma SameFit(pc: Piece, ch: int, w: seq<int>)
    requires pc.atom.Set? ==> AtomOk(pc.atom)
    ensures Fits(ItemOf(pc, ch), w) <==> StrayBy(pc, ch, w)
  {
    forall i | 0 <= i < |w| ensures Takes(AtomNode(pc.atom, ch), w[i]) <==> StrayMeans(pc.atom, ch, w[i]) {
      NodeTakes(pc.atom, ch, w[i]);
    }
  }

  lemma SameWords(items: seq<Item>, pieces: seq<Piece>, chs: seq<int>, w: seq<int>)
    requires |items| == |pieces| == |chs| && BracketsOk(pieces)
    requires forall i :: 0 <= i < |pieces| ==> items[i] == ItemOf(pieces[i], chs[i])
    ensures Word(items, w) <==> StrayWord(pieces, chs, w)
  {
    forall parts: seq<seq<int>> | |parts| == |pieces|
        ensures Splits(items, parts, w) <==> StraySplit(pieces, chs, parts, w) {
      forall i | 0 <= i < |pieces| ensures Fits(items[i], parts[i]) <==> StrayBy(pieces[i], chs[i], parts[i]) {
        SameFit(pieces[i], chs[i], parts[i]);
      }
    }
    if Word(items, w) {
      var parts :| Splits(items, parts, w);
      assert StraySplit(pieces, chs, parts, w);
    }
    if StrayWord(pieces, chs, w) {
      var parts :| StraySplit(pieces, chs, parts, w);
      assert Splits(items, parts, w);
    }
  }

  lemma AcceptsIsStray(p: Pattern, b: nat, junk: nat -> int, text: seq<int>, t: nat)
    requires BracketsOk(p.pieces) && t <= |text|
    ensures var nodes := PieceNodes(p.pieces, b, junk) + EndNodes(p.end);
      Accepts(nodes, text, t) <==>
        exists u :: t <= u <= |text| && StrayWord(p.pieces, Left(p.pieces, b, junk), text[t..u])
            && (p.end ==> u == |text|)
  {
    var nodes := PieceNodes(p.pieces, b, junk) + EndNodes(p.end);
    var items := PieceItems(p.pieces, b, junk, p.end);
    forall u | t <= u <= |text|
      ensures Word(Items(nodes), text[t..u]) <==> StrayWord(p.pieces, Left(p.pieces, b, junk), text[t..u])
    {
      SameWords(items, p.pieces, Left(p.pieces, b, junk), text[t..u]);
    }
  }

  /** What the nodes of a pattern find. */
  lemma FoundIsStray(p: Pattern, junk: nat -> int, text: seq<int>)
    requires BracketsOk(p.pieces) && PatternNodes(p, junk) != []
    ensures Found(PatternNodes(p, junk), text) <==> StrayFound(p, LeftIn(p, junk), text)
  {
    var b := if p.begin then 1 else 0;
    var nodes := PieceNodes(p.pieces, b, junk) + EndNodes(p.end);
    NotOp(p.pieces, b, junk, p.end);
    assert p.begin ==> PatternNodes(p, junk)[1..] == nodes;
    if Found(PatternNodes(p, junk), text) {
      var t: nat :| t <= |text| && Accepts(nodes, text, t) && (p.begin ==> t == 0);
      AcceptsIsStray(p, b, junk, text, t);
    }
    if StrayFound(p, LeftIn(p, junk), text) {
      var t, u :| 0 <= t <= u <= |text| && StrayWord(p.pieces, LeftIn(p, junk), text[t..u]) && (p.begin ==> t == 0)
          && (p.end ==> u == |text|);
      AcceptsIsStray(p, b, junk, text, t);
    }
  }

  /** The memory of the pattern's own brackets holds no character of the text that they are not to take. */
  ghost predicate Harmless(p: Pattern, chs: seq<int>, text: seq<int>)
    requires |chs| == |p.pieces|
  {
    forall i :: 0 <= i < |p.pieces| && p.pieces[i].atom.Set? && chs[i] in text ==> Means(p.pieces[i].atom, chs[i])
  }

  lemma {:induction false} FlatMembers(parts: seq<seq<int>>, i: nat, c: int)
    requires i < |parts| && c in parts[i]
    ensures c in Flat(parts)
  {
    if i > 0 { FlatMembers(parts[1..], i - 1, c); }
  }

  /** Every word that is meant is found. */
  lemma WordNotMissed(pieces: seq<Piece>, chs: seq<int>, w: seq<int>)
    requires |chs| == |pieces| && MeantWord(pieces, w)
    ensures StrayWord(pieces, chs, w)
  {
    var parts :| MeantSplit(pieces, parts, w);
    forall i | 0 <= i < |pieces| ensures StrayBy(pieces[i], chs[i], parts[i]) { assert MeantBy(pieces[i], parts[i]); }
    assert StraySplit(pieces, chs, parts, w);
  }

  lemma WordMeant(p: Pattern, chs: seq<int>, text: seq<int>, w: seq<int>)
    requires |chs| == |p.pieces| && Harmless(p, chs, text) && StrayWord(p.pieces, chs, w) && forall c ::
             c in w ==> c in text
    ensures MeantWord(p.pieces, w)
  {
    var parts :| StraySplit(p.pieces, chs, parts, w);
    forall i | 0 <= i < |p.pieces| ensures MeantBy(p.pieces[i], parts[i]) {
      assert StrayBy(p.pieces[i], chs[i], parts[i]);
      forall x | 0 <= x < |parts[i]| ensures Means(p.pieces[i].atom, parts[i][x]) {
        FlatMembers(parts, i, parts[i][x]);
        assert StrayMeans(p.pieces[i].atom, chs[i], parts[i][x]);
      }
    }
    assert MeantSplit(p.pieces, parts, w);
  }

  /** Whatever the memory holds, what is meant is found. */
  lemma NothingMissed(p: Pattern, chs: seq<int>, text: seq<int>)
    requires |chs| == |p.pieces| && MeantFound(p, text)
    ensures StrayFound(p, chs, text)
  {
    var t, u :| 0 <= t <= u <= |text| && MeantWord(p.pieces, text[t..u]) && (p.begin ==> t == 0)
        && (p.end ==> u == |text|);
    WordNotMissed(p.pieces, chs, text[t..u]);
  }

  /** If it is harmless, nothing else is. */
  lemma HarmlessIsMeant(p: Pattern, chs: seq<int>, text: seq<int>)
    requires |chs| == |p.pieces| && Harmless(p, chs, text)
    ensures StrayFound(p, chs, text) <==> MeantFound(p, text)
  {
    if StrayFound(p, chs, text) {
      var t, u :| 0 <= t <= u <= |text| && StrayWord(p.pieces, chs, text[t..u]) && (p.begin ==> t == 0)
          && (p.end ==> u == |text|);
      forall c | c in text[t..u] ensures c in text { var x :| 0 <= x < u - t
          && text[t..u][x] == c; assert text[t+x] == c; }
      WordMeant(p, chs, text, text[t..u]);
    }
    if MeantFound(p, text) { NothingMissed(p, chs, text); }
  }

  /**
   For one bracket the condition is exact: it finds a one-character text rightly if and only if its memory is
   harmless for it.
   */
  lemma OneBracketExactly(a: Atom, ch: int, c: int)
    requires a.Set?
    ensures var p := Pattern(true, [Piece(a, CHAR)], true);
            (StrayFound(p, [ch], [c]) <==> MeantFound(p, [c])) <==> Harmless(p, [ch], [c])
  {
    var pieces := [Piece(a, CHAR)];
    var p := Pattern(true, pieces, true);
    if Harmless(p, [ch], [c]) {
      HarmlessIsMeant(p, [ch], [c]);
    } else {
      assert ch == c && !Means(a, c);
      FlatOne([c]);
      assert [c][0..1] == [c];
      assert StraySplit(pieces, [ch], [[c]], [c]);
      assert StrayWord(pieces, [ch], [c][0..1]);
      if MeantFound(p, [c]) { WholeMeant(a, c); }
    }
  }

  lemma MeantOne(a: Atom, w: seq<int>)
    requires MeantWord([Piece(a, CHAR)], w)
    ensures |w| == 1 && Means(a, w[0])
  {
    var parts :| MeantSplit([Piece(a, CHAR)], parts, w);
    FlatOne(parts[0]);
    assert parts == [parts[0]];
  }

  lemma WholeMeant(a: Atom, c: int)
    requires MeantFound(Pattern(true, [Piece(a, CHAR)], true), [c])
    ensures Means(a, c)
  {
    assert [c][0..1] == [c];
    MeantOne(a, [c]);
  }

  /** For instance `[a]` finds the text "b" when the memory of its node holds a `b`. */
  lemma StrayCharacterFound(junk: nat -> int)
    requires junk(0) == 'b' as int
    ensures var p, text := Pattern(false, [Piece(Set(false, [One('a' as int)]), CHAR)], false), ['b' as int];
            PiecesOk(p.pieces) && Found(PatternNodes(p, junk), text) && !MeantFound(p, text)
  {
    var a, b := 'a' as int, 'b' as int;
    var set1 := Set(false, [One(a)]);
    var pieces := [Piece(set1, CHAR)];
    var p, text := Pattern(false, pieces, false), [b];
    assert ListOf([One(a)]) == [a] + ListOf([]);
    var chs := LeftIn(p, junk);
    assert pieces[1..] == [] && chs == [b] + Left([], 1, junk) == [b];
    FlatOne([b]);
    assert text[0..1] == [b];
    assert StraySplit(pieces, chs, [[b]], [b]);
    assert StrayWord(pieces, chs, text[0..1]);
    assert StrayFound(p, chs, text);
    FoundIsStray(p, junk, text);
    forall t, u | 0 <= t <= u <= 1 ensures !MeantWord(pieces, text[t..u]) {
      if MeantWord(pieces, text[t..u]) { MeantOne(set1, text[t..u]); }
    }
  }

  /**
   The whole: matching the written form of a well-formed pattern answers whether
   some substring is in the language of the pattern that it is taken for, with
   what the brackets' memory adds, in the lazy and in the longest mode alike.
   The empty pattern is refused.
   */
  method MatchPattern(p: Pattern, text: seq<int>, longest: bool, junk: nat -> int) returns (r: Outcome)
    requires PiecesOk(p.pieces)
    ensures if Show(p) == [] then r == Error
            else r == if StrayFound(AsRead(p), LeftIn(p, junk), text) then Match else NoMatch
    ensures Show(p) != [] && EscapesFollowed(p.pieces, ShowEnd(p.end)) && Harmless(p, LeftIn(p, junk), text) ==>
              r == if MeantFound(p, text) then Match else NoMatch
    ensures r == NoMatch && EscapesFollowed(p.pieces, ShowEnd(p.end)) ==> !MeantFound(p, text)
  {
    hide CompileFrom, Show, PatternNodes, ReadPieces, Found, StrayFound, MeantFound, Harmless, Left, EscapesFollowed,
         PiecesOk, BracketsOk;
    ghost var q, chs := AsRead(p), LeftIn(p, junk);
    PatternCompiles(p, junk);
    ReadBrackets(p.pieces, ShowEnd(p.end));
    SameCount(p.pieces, ShowEnd(p.end), if p.begin then 1 else 0, junk);
    ReadsItself(p.pieces, ShowEnd(p.end));
    r := RegexpMatch(Show(p), text, longest, junk);
    if PatternNodes(q, junk) != [] { FoundIsStray(q, junk, text); }
    EmptyShow(p, junk);
    if MeantFound(p, text) { NothingMissed(p, chs, text); }
    if Harmless(p, chs, text) { HarmlessIsMeant(p, chs, text); }
  }

  lemma EmptyShow(p: Pattern, junk: nat -> int)
    requires PiecesOk(p.pieces)
    ensures Show(p) == [] <==> PatternNodes(AsRead(p), junk) == []
  {
    if p.pieces != [] { assert |ShowAtom(p.pieces[0].atom)| > 0; }
  }

  // ---------------------------------------------------------------- escapes

  lemma FlatTwo(a: seq<int>, b: seq<int>)
    ensures Flat([a, b]) == a + b
  {
    assert [a, b][1..] == [b];
    FlatOne(b);
  }

  lemma TwoLiterals(pieces: seq<Piece>, chs: seq<int>, w: seq<int>)
    requires |pieces| == |chs| == 2 && forall i :: 0 <= i < 2 ==> pieces[i].op == CHAR && !pieces[i].atom.Set?
    ensures StrayWord(pieces, chs, w) <==> |w| == 2 && Means(pieces[0].atom, w[0]) && Means(pieces[1].atom, w[1])
    ensures StrayWord(pieces, chs, w) <==> MeantWord(pieces, w)
  {
    if StrayWord(pieces, chs, w) {
      var parts :| StraySplit(pieces, chs, parts, w);
      assert StrayBy(pieces[0], chs[0], parts[0]) && StrayBy(pieces[1], chs[1], parts[1]);
      FlatTwo(parts[0], parts[1]);
      assert parts == [parts[0], parts[1]];
    }
    if |w| == 2 && Means(pieces[0].atom, w[0]) && Means(pieces[1].atom, w[1]) {
      FlatTwo([w[0]], [w[1]]);
      assert w == [w[0]] + [w[1]];
      assert MeantSplit(pieces, [[w[0]], [w[1]]], w);
    }
    if MeantWord(pieces, w) { WordNotMissed(pieces, chs, w); }
  }

  /**
   For instance `\.a` does not find the text ".a": an escaped character and a
   literal find their own text if and only if the two are the same.
   */
  lemma EscapedMissed(c: int, d: int, junk: nat -> int)
    requires AtomOk(Esc(c)) && AtomOk(Lit(d))
    ensures var p, text := Pattern(false, [Piece(Esc(c), CHAR), Piece(Lit(d), CHAR)], false), [c, d];
            && PiecesOk(p.pieces) && Show(p) == [BACKSLASH, c, d] && MeantFound(p, text)
            && (StrayFound(AsRead(p), LeftIn(p, junk), text) <==> c == d)
  {
    hide StrayWord, MeantWord, AtomOk, Left;
    var ps, rs, text := [Piece(Esc(c), CHAR), Piece(Lit(d), CHAR)], [Piece(Esc(d), CHAR), Piece(Lit(d), CHAR)], [c, d];
    var p := Pattern(false, ps, false);
    var chs := LeftIn(p, junk);
    assert ps[1..] == [Piece(Lit(d), CHAR)];
    assert ShowPieces(ps[1..]) == [d];
    assert Behind(ps, []) == [d];
    assert ReadPieces(ps, []) == rs;
    assert text[0..2] == text;
    TwoLiterals(ps, chs, text);
    forall t, u | 0 <= t <= u <= 2 ensures StrayWord(rs, chs, text[t..u]) <==> c == d && t == 0 && u == 2 {
      TwoLiterals(rs, chs, text[t..u]);
    }
  }

  // ---------------------------------------------------------------- brackets that are refused

  /** A bracket that is not closed, has a dash in front of the rest, or a dash behind its parts. */
  datatype Broken =
    | Unclosed(neg: bool, parts: seq<Part>)
    | DashFirst(neg: bool, rest: seq<int>)
    | DashLast(neg: bool, parts: seq<Part>, rest: seq<int>)

  predicate BrokenOk(b: Broken) {
    b.DashFirst?
    || (&& (forall i :: 0 <= i < |b.parts| ==> PartOk(b.parts[i])) && |ListOf(b.parts)| < LISTSIZE
        && (b.DashLast? ==> b.parts != []) && (!b.neg && b.parts != [] ==> First(b.parts[0]) != '^' as int))
  }

  function ShowInside(b: Broken): seq<int> {
    match b
    case Unclosed(_, parts) => ShowParts(parts)
    case DashFirst(_, rest) => ['-' as int] + rest
    case DashLast(_, parts, rest) => ShowParts(parts) + (['-' as int, ']' as int] + rest)
  }

  function ShowBroken(b: Broken): seq<int> {
    (if b.neg then ['[' as int, '^' as int] else ['[' as int]) + ShowInside(b)
  }

  lemma InsideIsBad(p: seq<int>, j: nat, b: Broken)
    requires 1 <= j && BrokenOk(b) && Stands(p, j, ShowInside(b)) && |p| == j + |ShowInside(b)|
    ensures ScanClass(p, j, []) == BadClass
  {
    hide Stands, ListOf, ShowParts, ScanClass, PartOk;
    match b
    case Unclosed(_, parts) =>
      PartsScan(p, j, parts, []);
      NoList(ListOf(parts));
      ScanBad(p, |p|, ListOf(parts));
    case DashFirst(_, rest) =>
      StandsAt(p, j, ShowInside(b), 0);
      ScanBad(p, j, []);
    case DashLast(_, parts, rest) =>
      DashLastIsBad(p, j, parts, rest);
  }

  lemma DashLastIsBad(p: seq<int>, j: nat, parts: seq<Part>, rest: seq<int>)
    requires 1 <= j && Stands(p, j, ShowParts(parts) + (['-' as int, ']' as int] + rest))
    requires (forall i :: 0 <= i < |parts| ==> PartOk(parts[i])) && |ListOf(parts)| < LISTSIZE
    ensures ScanClass(p, j, []) == BadClass
  {
    hide Stands, ListOf, ShowParts, ScanClass, PartOk;
    var end, tail := j + |ShowParts(parts)|, ['-' as int, ']' as int] + rest;
    StandsSplit(p, j, ShowParts(parts), tail);
    StandsAt(p, end, tail, 0);
    StandsAt(p, end, tail, 1);
    PartsScan(p, j, parts, []);
    NoList(ListOf(parts));
    ScanBad(p, end, ListOf(parts));
  }

  lemma ScanBad(p: seq<int>, j: nat, list: seq<int>)
    requires 1 <= j <= |p| && |list| < LISTSIZE
    requires j == |p| || (p[j] == '-' as int && (list == [] || (j + 1 < |p| && p[j+1] == ']' as int)))
    ensures ScanClass(p, j, list) == BadClass
  {
  }

  lemma InsideStarts(b: Broken)
    requires BrokenOk(b) && !b.neg && ShowInside(b) != []
    ensures ShowInside(b)[0] != '^' as int
  {
    if !b.DashFirst? { assert ShowParts(b.parts) == [] || ShowParts(b.parts)[0] == First(b.parts[0]); }
  }

  lemma BrokenIsBad(p: seq<int>, i: nat, b: Broken, ch: int)
    requires BrokenOk(b) && Stands(p, i, ShowBroken(b)) && |p| == i + |ShowBroken(b)|
    ensures NodeAt(p, i, ch) == Bad
  {
    hide Stands, ScanClass, BrokenOk, ShowInside;
    var open := if b.neg then [OPEN, CARET] else [OPEN];
    StandsSplit(p, i, open, ShowInside(b));
    StandsAt(p, i, open, 0);
    if b.neg { StandsAt(p, i, open, 1); }
    if !b.neg && ShowInside(b) != [] {
      InsideStarts(b);
      StandsAt(p, i + 1, ShowInside(b), 0);
    }
    InsideIsBad(p, i + |open|, b);
  }

  /** The compiler refuses a pattern whose pieces end in a broken bracket. */
  lemma {:induction false} PiecesRefused(p: seq<int>, i: nat, pieces: seq<Piece>, b: Broken, k: nat, junk: nat -> int)
    requires PiecesOk(pieces) && BrokenOk(b) && Stands(p, i, ShowPieces(pieces) + ShowBroken(b))
    requires |p| == i + |ShowPieces(pieces) + ShowBroken(b)|
    ensures CompileFrom(p, i, k, junk) == Rejected
    decreases |pieces|
  {
    hide Stands, NodeAt, ShowAtom, ShowOp, ShowBroken, BrokenOk;
    StandsSplit(p, i, ShowPieces(pieces), ShowBroken(b));
    if pieces == [] {
      BrokenIsBad(p, i, b, junk(k));
      BrokenShown(b);
    } else {
      var pc, ps := pieces[0], pieces[1..];
      var a, o := ShowAtom(pc.atom), ShowOp(pc.op);
      Regroup(a + o, ShowPieces(ps), ShowBroken(b));
      StandsSplit(p, i, a + o, ShowPieces(ps) + ShowBroken(b));
      StandsSplit(p, i, a, o);
      AtomCompiles(p, i, pc.atom, junk(k));
      if pc.op == CHAR {
        NoOpShown(a);
        PiecesRefused(p, i + |a|, ps, b, k + 1, junk);
      } else {
        OpCompiles(p, i + |a|, pc.op, junk(k + 1));
        PiecesRefused(p, i + |a| + 1, ps, b, k + 2, junk);
      }
    }
  }

  lemma NoOpShown(a: seq<int>)
    ensures ShowOp(CHAR) == [] && a + [] == a
  {
  }

  lemma BrokenShown(b: Broken)
    ensures ShowBroken(b) != []
  {
  }

  /** So matching answers with an error: what is written behind well-formed pieces is no bracket. */
  method MatchBroken(pieces: seq<Piece>, b: Broken, text: seq<int>, longest: bool, junk: nat -> int)
    returns (r: Outcome)
    requires PiecesOk(pieces) && BrokenOk(b)
    ensures r == Error
  {
    var p := ShowPieces(pieces) + ShowBroken(b);
    PiecesRefused(p, 0, pieces, b, 0, junk);
    r := RegexpMatch(p, text, longest, junk);
  }

  /** A range written backwards takes characters back: the last ones, as many as its ends are apart. */
  lemma BackwardRange(p: seq<int>, j: nat, list: seq<int>, lo: int, hi: int)
    requires 1 <= j && j + 2 < |p| && p[j] == lo && p[j+1] == '-' as int && p[j+2] == hi
    requires lo != ']' as int && lo != '-' as int && hi != ']' as int && lo > hi && |list| < LISTSIZE
    ensures var left := |list| + 1 - (lo - hi);
            ScanClass(p, j, list) == if left >= 0 then ScanClass(p, j + 3, (list + [lo])[..left]) else UndefinedClass
  {
    hide ScanClass;
    ScanOne(p, j, list);
    ScanBack(p, j + 1, list + [lo], lo, hi);
  }

  lemma ScanBack(p: seq<int>, j: nat, list: seq<int>, lo: int, hi: int)
    requires 1 <= j && j + 1 < |p| && p[j] == DASH && p[j-1] == lo > hi == p[j+1] && hi != CLOSE
    requires 0 < |list| <= LISTSIZE
    ensures var left := |list| - (lo - hi);
            ScanClass(p, j, list) == if left >= 0 then ScanClass(p, j + 2, list[..left]) else UndefinedClass
  {
  }
}
