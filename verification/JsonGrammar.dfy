/**
 The texts that the parser takes, written out: a tree of what stands where, with all blanks, and the value it means.
 `ParsesExactly`: parsing gives a value and a position if and only if the text of some tree of that value ends there.
 More than JSON is taken: a sign means nothing, a string may end at a control character, an unknown escape is its
 second character, and blanks are all characters up to 32.
 */
module JsonGrammar {
  import opened Bytes
  import opened Json
  import opened JsonRoundTrip

  // ---------------------------------------------------------------- texts

  /** A part of a string: a character, an escape by its letter, or one by code point, whose UTF-8 bytes are `bytes`. */
  datatype Piece = Plain(c: Char) | Escaped(c: Char) | CodePoint(u: int, hex: seq<Char>, bytes: seq<Char>)

  datatype Literal = Literal(pieces: seq<Piece>, closed: bool)

  datatype Tree =
    | TNull | TFalse | TTrue
    | TNumber(minus: bool, zero: bool, digits: seq<Char>, n: int)
    | TString(s: Literal)
    | TArray(blanks: seq<Char>, items: seq<Item>)
    | TObject(blanks: seq<Char>, entries: seq<Entry>)

  datatype Item = Item(before: seq<Char>, tree: Tree, after: seq<Char>)

  datatype Entry = Entry(before: seq<Char>, name: Literal, colonBefore: seq<Char>, colonAfter: seq<Char>, tree: Tree,
                         after: seq<Char>)

  const C_QUOTE: Char := '"' as int
  const C_BACKSLASH: Char := '\\' as int
  const C_U: Char := 'u' as int
  const C_COMMA: Char := ',' as int
  const C_COLON: Char := ':' as int
  const C_OPEN: Char := '[' as int
  const C_CLOSE: Char := ']' as int
  const C_BEGIN: Char := '{' as int
  const C_END: Char := '}' as int

  function PieceText(p: Piece): (t: seq<Char>)
    ensures t != []
  {
    match p
    case Plain(c) => [c]
    case Escaped(c) => [C_BACKSLASH, c]
    case CodePoint(_, hex, _) => [C_BACKSLASH, C_U] + hex
  }

  function PiecesText(ps: seq<Piece>): seq<Char> {
    if ps == [] then [] else PieceText(ps[0]) + PiecesText(ps[1..])
  }

  function ClosingText(closed: bool): seq<Char> {
    if closed then [C_QUOTE] else []
  }

  function LiteralText(s: Literal): seq<Char> {
    [C_QUOTE] + (PiecesText(s.pieces) + ClosingText(s.closed))
  }

  function NumberText(minus: bool, zero: bool, digits: seq<Char>): seq<Char> {
    (if minus then ['-' as int] else []) + ((if zero then ['0' as int] else []) + digits)
  }

  function Text(t: Tree): seq<Char>
    decreases t
  {
    match t
    case TNull => ['n' as int, 'u' as int, 'l' as int, 'l' as int]
    case TFalse => ['f' as int, 'a' as int, 'l' as int, 's' as int, 'e' as int]
    case TTrue => ['t' as int, 'r' as int, 'u' as int, 'e' as int]
    case TNumber(minus, zero, digits, _) => NumberText(minus, zero, digits)
    case TString(s) => LiteralText(s)
    case TArray(blanks, items) => [C_OPEN] + ((if items == [] then blanks else ItemsText(items)) + [C_CLOSE])
    case TObject(blanks, entries) => [C_BEGIN] + ((if entries == [] then blanks else EntriesText(entries)) + [C_END])
  }

  function ItemsText(items: seq<Item>): seq<Char>
    decreases items
  {
    if items == [] then []
    else items[0].before + (Text(items[0].tree) + (items[0].after + More(|items| > 1) + ItemsText(items[1..])))
  }

  function More(more: bool): seq<Char> {
    if more then [C_COMMA] else []
  }

  function EntriesText(entries: seq<Entry>): seq<Char>
    decreases entries
  {
    if entries == [] then []
    else
      var e := entries[0];
      e.before + (LiteralText(e.name) + (e.colonBefore + ([C_COLON] + (e.colonAfter + (Text(e.tree)
        + (e.after + More(|entries| > 1) + EntriesText(entries[1..])))))))
  }

  // ---------------------------------------------------------------- which are taken

  function Unsigned(c: Char): int {
    if c < 0 then c + 256 else c
  }

  /** RFC 3629, section 3: one to three bytes for a code point below 2^16. */
  predicate IsUtf8(bytes: seq<Char>, u: int) {
    if u < 0x80 then |bytes| == 1 && Unsigned(bytes[0]) == u
    else if u < 0x800 then
      && |bytes| == 2 && 0xC0 <= Unsigned(bytes[0]) < 0xE0 && 0x80 <= Unsigned(bytes[1]) < 0xC0
      && u == (Unsigned(bytes[0]) - 0xC0) * 64 + (Unsigned(bytes[1]) - 0x80)
    else
      && |bytes| == 3 && 0xE0 <= Unsigned(bytes[0]) < 0xF0 && 0x80 <= Unsigned(bytes[1]) < 0xC0
      && 0x80 <= Unsigned(bytes[2]) < 0xC0
      && u == (Unsigned(bytes[0]) - 0xE0) * 4096 + (Unsigned(bytes[1]) - 0x80) * 64 + (Unsigned(bytes[2]) - 0x80)
  }

  predicate IsHex(c: Char, digit: int) {
    0 <= digit < 16 && (c == "0123456789abcdef"[digit] as int || c == "0123456789ABCDEF"[digit] as int)
  }

  predicate IsHex4(hex: seq<Char>, u: int) {
    && |hex| == 4 && 0 <= u < 0x1_0000
    && IsHex(hex[0], u / 0x1000) && IsHex(hex[1], u / 0x100 % 16) && IsHex(hex[2], u / 16 % 16)
    && IsHex(hex[3], u % 16)
  }

  predicate PieceOk(p: Piece) {
    match p
    case Plain(c) => c > 31 && c != C_QUOTE && c != C_BACKSLASH
    case Escaped(c) => c != C_U
    case CodePoint(u, hex, bytes) => IsHex4(hex, u) && IsUtf8(bytes, u)
  }

  predicate PiecesOk(ps: seq<Piece>) {
    forall i :: 0 <= i < |ps| ==> PieceOk(ps[i])
  }

  /** What an escape by letter stands for. */
  function EscapedMeans(c: Char): Char {
    if c == 'b' as int then 8
    else if c == 'f' as int then 12
    else if c == 'n' as int then 10
    else if c == 'r' as int then 13
    else if c == 't' as int then 9
    else c
  }

  function PieceMeans(p: Piece): seq<Char> {
    match p
    case Plain(c) => [c]
    case Escaped(c) => [EscapedMeans(c)]
    case CodePoint(_, _, bytes) => bytes
  }

  function PiecesMean(ps: seq<Piece>): seq<Char> {
    if ps == [] then [] else PieceMeans(ps[0]) + PiecesMean(ps[1..])
  }

  function LiteralMeans(s: Literal): seq<Char> {
    BeforeNul(PiecesMean(s.pieces))
  }

  /** A string ends at its first NUL, which only an escape can put there. */
  lemma {:induction false} NulCuts(s: seq<Char>)
    ensures var r := BeforeNul(s); 0 !in r && r <= s && (|r| < |s| ==> s[|r|] == 0)
    decreases |s|
  {
    if s != [] && s[0] != 0 {
      NulCuts(s[1..]);
      assert s == [s[0]] + s[1..];
    }
  }

  predicate IsDecimal(digits: seq<Char>) {
    (forall i :: 0 <= i < |digits| ==> '0' as int <= digits[i] <= '9' as int)
    && (digits != [] ==> digits[0] != '0' as int)
  }

  function Decimal(digits: seq<Char>): int {
    if digits == [] then 0 else Decimal(digits[..|digits|-1]) * 10 + (digits[|digits|-1] as int - '0' as int)
  }

  /** A C int that differs from the number by a multiple of 2^32. */
  predicate IsInt(n: int, decimal: int) {
    -0x8000_0000 <= n < 0x8000_0000 && (decimal - n) % 0x1_0000_0000 == 0
  }

  /** What may follow: no digit that would belong to the number, a control character behind a string not closed. */
  predicate Ends(t: Tree, next: Char) {
    match t
    case TNumber(_, zero, digits, _) =>
      !(('0' as int <= next <= '9' as int) && !(zero && digits == [] && next == '0' as int))
    case TString(s) => LiteralEnds(s, next)
    case _ => true
  }

  predicate LiteralEnds(s: Literal, next: Char) {
    s.closed || next <= 31
  }

  /** The first character of `blanks`, or what is behind it. */
  function Next(blanks: seq<Char>, behind: Char): Char {
    if blanks == [] then behind else blanks[0]
  }

  ghost predicate TreeOk(t: Tree)
    decreases t
  {
    match t
    case TNumber(minus, zero, digits, n) =>
      IsDecimal(digits) && (minus || zero || digits != []) && IsInt(n, Decimal(digits))
    case TString(s) => PiecesOk(s.pieces)
    case TArray(blanks, items) => Blank(blanks) && ItemsOk(items)
    case TObject(blanks, entries) => Blank(blanks) && EntriesOk(entries)
    case _ => true
  }

  ghost predicate ItemsOk(items: seq<Item>)
    decreases items
  {
    items == []
    || (&& Blank(items[0].before) && TreeOk(items[0].tree) && Blank(items[0].after)
        && Ends(items[0].tree, Next(items[0].after, if |items| > 1 then C_COMMA else C_CLOSE))
        && ItemsOk(items[1..]))
  }

  ghost predicate EntriesOk(entries: seq<Entry>)
    decreases entries
  {
    entries == []
    || (var e := entries[0];
        && Blank(e.before) && PiecesOk(e.name.pieces) && Blank(e.colonBefore) && Blank(e.colonAfter)
        && LiteralEnds(e.name, Next(e.colonBefore, C_COLON))
        && TreeOk(e.tree) && Blank(e.after)
        && Ends(e.tree, Next(e.after, if |entries| > 1 then C_COMMA else C_END))
        && EntriesOk(entries[1..]))
  }

  /** The value of a tree. */
  function Means(t: Tree): Value
    decreases t
  {
    match t
    case TNull => Null
    case TFalse => False
    case TTrue => True
    case TNumber(_, _, _, n) => Number(n)
    case TString(s) => Str(LiteralMeans(s))
    case TArray(_, items) => Array(ItemsMean(items))
    case TObject(_, entries) => Object(EntriesMean(entries))
  }

  function ItemsMean(items: seq<Item>): seq<Value>
    decreases items
  {
    if items == [] then [] else [Means(items[0].tree)] + ItemsMean(items[1..])
  }

  function EntriesMean(entries: seq<Entry>): seq<Member>
    decreases entries
  {
    if entries == [] then []
    else [Member(LiteralMeans(entries[0].name), Means(entries[0].tree))] + EntriesMean(entries[1..])
  }

  // ---------------------------------------------------------------- strings

  lemma HexRead(c: Char, digit: int)
    requires IsHex(c, digit)
    ensures HexDigit(c) == digit
  {
  }

  lemma Hex4Read(m: seq<Char>, i: nat, hex: seq<Char>, u: int)
    requires IsHex4(hex, u) && Stands(m, i, hex)
    ensures Hex4(m, i) == u
  {
    hide Stands, HexDigit, IsHex;
    StandsAt(m, i, hex, 0);
    StandsAt(m, i, hex, 1);
    StandsAt(m, i, hex, 2);
    StandsAt(m, i, hex, 3);
    HexRead(hex[0], u / 0x1000);
    HexRead(hex[1], u / 0x100 % 16);
    HexRead(hex[2], u / 16 % 16);
    HexRead(hex[3], u % 16);
    FourDigits(u);
  }

  lemma FourDigits(u: int)
    requires 0 <= u < 0x1_0000
    ensures ((u / 0x1000 * 16 + u / 0x100 % 16) * 16 + u / 16 % 16) * 16 + u % 16 == u
  {
    assert u / 16 / 16 == u / 0x100 && u / 0x100 / 16 == u / 0x1000;
  }

  lemma UnsignedOf(c: Char, n: int)
    requires 0 <= n < 256
    ensures Unsigned(c) == n <==> c == AsChar(n)
  {
  }

  lemma SixBits(u: int, a: int, b: int, c: int)
    requires 0 <= a && 0 <= b < 64 && 0 <= c < 64
    ensures u == a * 4096 + b * 64 + c <==> u >= 0 && u / 4096 == a && u / 64 % 64 == b && u % 64 == c
  {
    if u == a * 4096 + b * 64 + c { assert u / 64 == a * 64 + b; }
    if u >= 0 && u / 4096 == a && u / 64 % 64 == b && u % 64 == c { assert u / 64 / 64 == u / 4096; }
  }

  lemma TwoBytes(bytes: seq<Char>, u: int)
    requires 0x80 <= u < 0x800 && |bytes| == 2
    ensures IsUtf8(bytes, u) <==> bytes == Utf8(u)
  {
    UnsignedOf(bytes[0], 0xC0 + u / 64);
    UnsignedOf(bytes[1], 0x80 + u % 64);
  }

  lemma ThreeBytes(bytes: seq<Char>, u: int)
    requires 0x800 <= u < 0x1_0000 && |bytes| == 3
    ensures IsUtf8(bytes, u) <==> bytes == Utf8(u)
  {
    hide Unsigned, AsChar;
    UnsignedOf(bytes[0], 0xE0 + u / 4096);
    UnsignedOf(bytes[1], 0x80 + u / 64 % 64);
    UnsignedOf(bytes[2], 0x80 + u % 64);
    var a, b, c := Unsigned(bytes[0]) - 0xE0, Unsigned(bytes[1]) - 0x80, Unsigned(bytes[2]) - 0x80;
    if 0 <= a && 0 <= b < 64 && 0 <= c < 64 { SixBits(u, a, b, c); }
    if bytes == Utf8(u) { SixBits(u, u / 4096, u / 64 % 64, u % 64); }
  }

  /** The bytes of a code point are the only ones that spell it. */
  lemma Utf8Exactly(bytes: seq<Char>, u: int)
    requires 0 <= u < 0x1_0000
    ensures IsUtf8(bytes, u) <==> bytes == Utf8(u)
  {
    if u < 0x80 { if |bytes| == 1 { UnsignedOf(bytes[0], u); } }
    else if u < 0x800 { if |bytes| == 2 { TwoBytes(bytes, u); } }
    else if |bytes| == 3 { ThreeBytes(bytes, u); }
  }

  lemma PieceParses(m: seq<Char>, i: nat, p: Piece)
    requires PieceOk(p) && Stands(m, i, PieceText(p))
    ensures ParseChars(m, i) == Prepend(PieceMeans(p), ParseChars(m, i + |PieceText(p)|))
  {
    hide Stands, IsUtf8, Utf8, IsHex4, Hex4;
    StandsAt(m, i, PieceText(p), 0);
    if !p.Plain? { StandsAt(m, i, PieceText(p), 1); }
    if p.CodePoint? {
      StandsSplit(m, i, [C_BACKSLASH, C_U], p.hex);
      HexInRange(p.hex, p.u);
      Hex4Read(m, i + 2, p.hex, p.u);
      Utf8Exactly(p.bytes, p.u);
    }
  }

  lemma HexInRange(hex: seq<Char>, u: int)
    requires IsHex4(hex, u)
    ensures 0 <= u < 0x1_0000 && |hex| == 4
  {
  }

  lemma {:induction false} PiecesParse(m: seq<Char>, i: nat, ps: seq<Piece>, closed: bool)
    requires PiecesOk(ps) && Stands(m, i, PiecesText(ps) + ClosingText(closed))
    requires var end := i + |PiecesText(ps)|; end < |m| && (closed || m[end] <= 31)
    ensures ParseChars(m, i) == Result.Ok(PiecesMean(ps), i + |PiecesText(ps)| + |ClosingText(closed)|)
    decreases |ps|
  {
    hide Stands, PieceText, PieceMeans, PieceOk;
    if ps == [] {
      assert PiecesText(ps) + ClosingText(closed) == ClosingText(closed);
      if closed { StandsAt(m, i, ClosingText(closed), 0); }
    } else {
      var rest := PiecesText(ps[1..]) + ClosingText(closed);
      Regroup(PieceText(ps[0]), PiecesText(ps[1..]), ClosingText(closed));
      StandsSplit(m, i, PieceText(ps[0]), rest);
      PieceParses(m, i, ps[0]);
      PiecesParse(m, i + |PieceText(ps[0])|, ps[1..], closed);
    }
  }

  lemma LiteralParses(m: seq<Char>, pos: nat, s: Literal)
    requires PiecesOk(s.pieces) && Stands(m, pos, LiteralText(s))
    requires var end := pos + |LiteralText(s)|; end < |m| && LiteralEnds(s, m[end])
    ensures ParseString(m, pos) == Result.Ok(LiteralMeans(s), pos + |LiteralText(s)|)
  {
    hide Stands, PiecesOk, ParseChars;
    StandsSplit(m, pos, [C_QUOTE], PiecesText(s.pieces) + ClosingText(s.closed));
    StandsAt(m, pos, [C_QUOTE], 0);
    PiecesParse(m, pos + 1, s.pieces, s.closed);
  }

  // ---------------------------------------------------------------- numbers

  lemma WrapAlso(a: int, b: int)
    requires (a - b) % 0x1_0000_0000 == 0
    ensures Wrap(a) == Wrap(b)
  {
  }

  lemma WrapIsInt(n: int, decimal: int)
    ensures IsInt(n, decimal) <==> n == Wrap(decimal)
  {
  }

  lemma WrapShift(a: int, k: int)
    ensures Wrap(a + k * 0x1_0000_0000) == Wrap(a)
  {
    WrapAlso(a + k * 0x1_0000_0000, a);
  }

  lemma WrapIs(d: int) returns (k: int)
    ensures Wrap(d) == d + k * 0x1_0000_0000
  {
    k := -((d + 0x8000_0000) / 0x1_0000_0000);
  }

  lemma WrapDigit(d: int, x: int)
    ensures Wrap(Wrap(d) * 10 + x) == Wrap(d * 10 + x)
  {
    hide Wrap;
    var k := WrapIs(d);
    assert Wrap(d) * 10 + x == d * 10 + x + 10 * k * 0x1_0000_0000;
    WrapShift(d * 10 + x, 10 * k);
  }

  /** All digits but the last, then the last. */
  lemma {:induction false} DigitsParse(m: seq<Char>, j: nat, digits: seq<Char>, n: nat)
    requires Block(m) && n <= |digits| && Stands(m, j, digits) && j + |digits| < |m|
    requires forall i :: 0 <= i < |digits| ==> IsDigit(digits[i])
    ensures ParseDigits(m, j, 0) == ParseDigits(m, j + n, Wrap(Decimal(digits[..n])))
    decreases n
  {
    hide Stands, Wrap;
    if n > 0 {
      DigitsParse(m, j, digits, n - 1);
      StandsAt(m, j, digits, n - 1);
      var d := Decimal(digits[..n-1]);
      assert digits[..n][..n-1] == digits[..n-1];
      WrapDigit(d, digits[n-1] as int - '0' as int);
    } else {
      assert Wrap(0) == 0 by { WrapZero(); }
    }
  }

  lemma WrapZero()
    ensures Wrap(0) == 0
  {
  }

  /** The parts of a number, and what is behind it. */
  lemma NumberStands(m: seq<Char>, pos: nat, minus: bool, zero: bool, digits: seq<Char>)
    requires Stands(m, pos, NumberText(minus, zero, digits))
    ensures var i := if minus then pos + 1 else pos;
            var j := if zero then i + 1 else i;
            && (minus ==> pos < |m| && m[pos] == MINUS) && (zero ==> i < |m| && m[i] == ZERO)
            && Stands(m, j, digits) && j + |digits| == pos + |NumberText(minus, zero, digits)| <= |m|
            && (digits != [] ==> m[j] == digits[0])
  {
    hide Stands;
    var sign: seq<Char> := if minus then [MINUS] else [];
    var nought: seq<Char> := if zero then [ZERO] else [];
    StandsSplit(m, pos, sign, nought + digits);
    StandsSplit(m, pos + |sign|, nought, digits);
    if minus { StandsAt(m, pos, sign, 0); }
    if zero { StandsAt(m, pos + |sign|, nought, 0); }
    if digits != [] { StandsAt(m, pos + |sign| + |nought|, digits, 0); }
  }

  lemma {:induction false} AllDigits(m: seq<Char>, j: nat, digits: seq<Char>)
    requires Block(m) && IsDecimal(digits) && Stands(m, j, digits)
    requires j + |digits| < |m| && !IsDigit(m[j+|digits|])
    ensures ParseDigits(m, j, 0) == Result.Ok(Number(Wrap(Decimal(digits))), j + |digits|)
  {
    hide Stands, Wrap, ParseDigits, Decimal;
    DigitsParse(m, j, digits, |digits|);
    assert digits[..|digits|] == digits;
    DigitsEnd(m, j + |digits|, Wrap(Decimal(digits)));
  }

  lemma NumberParses(m: seq<Char>, pos: nat, t: Tree)
    requires Block(m) && t.TNumber? && TreeOk(t) && Stands(m, pos, Text(t))
    requires var end := pos + |Text(t)|; end < |m| && Ends(t, m[end])
    ensures pos < |m| && (m[pos] == MINUS || IsDigit(m[pos]))
    ensures ParseNumber(m, pos) == Result.Ok(Number(t.n), pos + |Text(t)|)
  {
    hide Stands, Wrap, IsInt, ParseDigits, Decimal, NumberText;
    NumberStands(m, pos, t.minus, t.zero, t.digits);
    WrapIsInt(t.n, Decimal(t.digits));
    if t.digits != [] {
      AllDigits(m, pos + |Text(t)| - |t.digits|, t.digits);
    } else {
      NoDecimal();
      WrapZero();
    }
  }

  lemma NoDecimal()
    ensures Decimal([]) == 0
  {
  }

  lemma DigitsEnd(m: seq<Char>, i: nat, n: int)
    requires Block(m) && i < |m| && !IsDigit(m[i])
    ensures ParseDigits(m, i, n) == Result.Ok(Number(n), i)
  {
  }

  // ---------------------------------------------------------------- values

  lemma TreeStarts(t: Tree)
    requires TreeOk(t)
    ensures Text(t) != [] && Text(t)[0] > 32 && Text(t)[0] != C_CLOSE
  {
    if t.TNumber? && !t.minus && !t.zero { assert Text(t) == t.digits; }
  }

  lemma WordParses(m: seq<Char>, pos: nat, t: Tree)
    requires Block(m) && (t.TNull? || t.TFalse? || t.TTrue?) && Stands(m, pos, Text(t))
    ensures pos <= |m| && ParseValue(m, pos) == Result.Ok(Means(t), pos + |Text(t)|)
  {
    assert Text(t) == Render(Means(t), 0, true);
    WordBack(m, pos, Means(t));
  }

  /** The parser takes the text of every tree, up to its end, as the value it means. */
  lemma {:induction false} TreeParses(m: seq<Char>, pos: nat, t: Tree)
    requires Block(m) && TreeOk(t) && Stands(m, pos, Text(t))
    requires var end := pos + |Text(t)|; end < |m| && Ends(t, m[end])
    ensures pos <= |m| && ParseValue(m, pos) == Result.Ok(Means(t), pos + |Text(t)|)
    decreases t, 1
  {
    hide Stands, ParseString, ParseNumber, ParseArray, ParseObject, ParseValue;
    if t.TNull? || t.TFalse? || t.TTrue? {
      WordParses(m, pos, t);
    } else {
      TreeStarts(t);
      StandsAt(m, pos, Text(t), 0);
      if t.TNumber? {
        NumberParses(m, pos, t);
        Dispatch(m, pos);
      } else {
        Dispatch(m, pos);
        if t.TString? { LiteralParses(m, pos, t.s); }
        else if t.TArray? { ArrayParses(m, pos, t.blanks, t.items); }
        else { ObjectParses(m, pos, t.blanks, t.entries); }
      }
    }
  }

  lemma {:induction false} ArrayParses(m: seq<Char>, pos: nat, blanks: seq<Char>, items: seq<Item>)
    requires Block(m) && Blank(blanks) && ItemsOk(items) && Stands(m, pos, Text(TArray(blanks, items)))
    requires pos + |Text(TArray(blanks, items))| < |m| && m[pos] == LBRACKET
    ensures ParseArray(m, pos) == Result.Ok(Array(ItemsMean(items)), pos + |Text(TArray(blanks, items))|)
    decreases items, 3
  {
    hide Stands, ParseItems, ItemsText, ItemsOk, ItemsMean, Skip;
    var inner := if items == [] then blanks else ItemsText(items);
    StandsSplit(m, pos, [C_OPEN], inner + [C_CLOSE]);
    StandsSplit(m, pos + 1, inner, [C_CLOSE]);
    StandsAt(m, pos + 1 + |inner|, [C_CLOSE], 0);
    if items == [] {
      SkipsBlanks(m, pos + 1, blanks);
      NoItemsMean();
    } else {
      ItemsStart(m, pos + 1, items);
      ItemsParse(m, pos + 1, items);
      ItemsSkip(m, pos + 1);
    }
  }

  lemma NoItemsMean()
    ensures ItemsMean([]) == [] && EntriesMean([]) == []
  {
  }

  lemma ItemsSkip(m: seq<Char>, pos: nat)
    requires Block(m) && pos <= |m|
    ensures ParseItems(m, pos) == ParseItems(m, Skip(m, pos)) && ParseMembers(m, pos) == ParseMembers(m, Skip(m, pos))
  {
    hide ParseValue, AfterItem, ParseString, AfterMember;
    SkipAgain(m, pos);
  }

  /** A list does not begin with its end. */
  lemma ItemsStart(m: seq<Char>, pos: nat, items: seq<Item>)
    requires items != [] && ItemsOk(items) && Stands(m, pos, ItemsText(items))
    ensures var at := pos + |items[0].before|;
            at < |m| && Skip(m, pos) == at && m[at] != RBRACKET && Stands(m, at, Text(items[0].tree))
  {
    hide Stands, Text, TreeOk;
    var x := items[0];
    var behind := x.after + More(|items| > 1) + ItemsText(items[1..]);
    StandsSplit(m, pos, x.before, Text(x.tree) + behind);
    StandsSplit(m, pos + |x.before|, Text(x.tree), behind);
    TreeStarts(x.tree);
    StandsAt(m, pos + |x.before|, Text(x.tree), 0);
    SkipsBlanks(m, pos, x.before);
  }

  /** Blanks, and a character behind them that is none. */
  lemma BlanksStand(m: seq<Char>, pos: nat, blanks: seq<Char>, c: Char)
    requires Blank(blanks) && c > 32 && Stands(m, pos, blanks + [c])
    ensures var at := pos + |blanks|; at < |m| && m[at] == c && Skip(m, pos) == at && m[pos] == Next(blanks, c)
  {
    hide Stands;
    StandsSplit(m, pos, blanks, [c]);
    StandsAt(m, pos + |blanks|, [c], 0);
    if blanks != [] { StandsAt(m, pos, blanks, 0); }
    SkipsBlanks(m, pos, blanks);
  }

  /** Blanks, something that begins with none, and more. */
  lemma BodyStands(m: seq<Char>, pos: nat, blanks: seq<Char>, body: seq<Char>, tail: seq<Char>)
    requires Blank(blanks) && body != [] && body[0] > 32 && Stands(m, pos, blanks + (body + tail))
    ensures var at := pos + |blanks|;
            at < |m| && Skip(m, pos) == at && m[at] == body[0] && Stands(m, at, body) && Stands(m, at + |body|, tail)
  {
    hide Stands;
    StandsSplit(m, pos, blanks, body + tail);
    StandsSplit(m, pos + |blanks|, body, tail);
    StandsAt(m, pos + |blanks|, body, 0);
    SkipsBlanks(m, pos, blanks);
  }

  /** Blanks behind a value, then a comma and what is behind it, or the end of the list. */
  lemma SeparatorStands(m: seq<Char>, end: nat, after: seq<Char>, more: bool, rest: seq<Char>, close: Char)
    requires Blank(after) && close > 32 && (!more ==> rest == [])
    requires Stands(m, end, after + More(more) + rest + [close])
    ensures var sep := end + |after|;
            && sep < |m| && m[sep] == (if more then C_COMMA else close) && Skip(m, end) == sep
            && m[end] == Next(after, m[sep]) && (more ==> Stands(m, sep + 1, rest + [close]))
  {
    hide Stands;
    if more {
      assert after + More(more) + rest + [close] == (after + [C_COMMA]) + (rest + [close]);
      StandsSplit(m, end, after + [C_COMMA], rest + [close]);
      BlanksStand(m, end, after, C_COMMA);
    } else {
      assert after + More(more) + rest + [close] == after + [close];
      BlanksStand(m, end, after, close);
    }
  }

  /** Where the parts of the first item stand. */
  lemma ItemStands(m: seq<Char>, pos: nat, items: seq<Item>)
    requires items != [] && ItemsOk(items) && Stands(m, pos, ItemsText(items) + [C_CLOSE])
    ensures var x, more := items[0], |items| > 1;
            var at := pos + |x.before|;
            var end := at + |Text(x.tree)|;
            var sep := end + |x.after|;
            && Skip(m, pos) == at && Stands(m, at, Text(x.tree))
            && sep < |m| && m[sep] == (if more then C_COMMA else C_CLOSE)
            && Skip(m, end) == sep && m[end] == Next(x.after, m[sep])
            && (more ==> Stands(m, sep + 1, ItemsText(items[1..]) + [C_CLOSE]))
            && pos + |ItemsText(items)| == sep + |More(more)| + |ItemsText(items[1..])|
  {
    hide Stands, Text, TreeOk, Skip, Blank;
    var x, more, rest := items[0], |items| > 1, ItemsText(items[1..]);
    var behind := x.after + More(more) + rest + [C_CLOSE];
    TreeStarts(x.tree);
    assert ItemsText(items) + [C_CLOSE] == x.before + (Text(x.tree) + behind);
    BodyStands(m, pos, x.before, Text(x.tree), behind);
    if !more { NoText(); }
    SeparatorStands(m, pos + |x.before| + |Text(x.tree)|, x.after, more, rest, C_CLOSE);
  }

  lemma NoText()
    ensures ItemsText([]) == [] && EntriesText([]) == []
  {
  }

  lemma {:induction false} ItemsParse(m: seq<Char>, pos: nat, items: seq<Item>)
    requires Block(m) && items != [] && ItemsOk(items) && Stands(m, pos, ItemsText(items) + [C_CLOSE])
    ensures pos <= |m| && ParseItems(m, pos) == Result.Ok(ItemsMean(items), pos + |ItemsText(items)| + 1)
    decreases items, 2
  {
    hide Stands, ParseItems, ParseValue, AfterItem, Text, ItemsText, Ends, Skip, Blank, TreeOk;
    ItemStands(m, pos, items);
    var x := items[0];
    var at := pos + |x.before|;
    var sep := at + |Text(x.tree)| + |x.after|;
    TreeParses(m, at, x.tree);
    ItemsStep(m, pos);
    AfterItemAt(m, sep);
    if |items| > 1 {
      ItemsParse(m, sep + 1, items[1..]);
    } else {
      NoText();
      NoItemsMean();
    }
  }

  lemma {:induction false} ObjectParses(m: seq<Char>, pos: nat, blanks: seq<Char>, entries: seq<Entry>)
    requires Block(m) && Blank(blanks) && EntriesOk(entries) && Stands(m, pos, Text(TObject(blanks, entries)))
    requires pos + |Text(TObject(blanks, entries))| < |m| && m[pos] == LBRACE
    ensures ParseObject(m, pos) == Result.Ok(Object(EntriesMean(entries)), pos + |Text(TObject(blanks, entries))|)
    decreases entries, 3
  {
    hide Stands, Text, ParseMembers, EntriesText, EntriesOk, EntriesMean, Skip, Blank;
    ObjectText(blanks, entries);
    var inner := if entries == [] then blanks else EntriesText(entries);
    StandsSplit(m, pos, [C_BEGIN], inner + [C_END]);
    if entries == [] {
      BlanksStand(m, pos + 1, blanks, C_END);
      NoItemsMean();
    } else {
      EntriesBegin(m, pos + 1, entries);
      EntriesParse(m, pos + 1, entries);
      ItemsSkip(m, pos + 1);
    }
  }

  lemma ObjectText(blanks: seq<Char>, entries: seq<Entry>)
    ensures Text(TObject(blanks, entries))
            == [C_BEGIN] + ((if entries == [] then blanks else EntriesText(entries)) + [C_END])
  {
  }

  /** A list of entries begins with a name. */
  lemma EntriesBegin(m: seq<Char>, pos: nat, entries: seq<Entry>)
    requires entries != [] && EntriesOk(entries) && Stands(m, pos, EntriesText(entries) + [C_END])
    ensures var at := Skip(m, pos); at < |m| && m[at] == C_QUOTE
  {
    hide Stands, EntriesText, EntriesOk, Skip;
    EntryStands(m, pos, entries);
  }

  /** Where the parts of the first entry stand. */
  lemma EntryStands(m: seq<Char>, pos: nat, entries: seq<Entry>)
    requires entries != [] && EntriesOk(entries) && Stands(m, pos, EntriesText(entries) + [C_END])
    ensures var e, more := entries[0], |entries| > 1;
            var at := pos + |e.before|;
            var colon := at + |LiteralText(e.name)| + |e.colonBefore|;
            var val := colon + 1 + |e.colonAfter|;
            var end := val + |Text(e.tree)|;
            var sep := end + |e.after|;
            && Skip(m, pos) == at && Stands(m, at, LiteralText(e.name)) && m[at] == C_QUOTE
            && colon < |m| && m[colon] == C_COLON && Skip(m, at + |LiteralText(e.name)|) == colon
            && m[at+|LiteralText(e.name)|] == Next(e.colonBefore, C_COLON)
            && Skip(m, colon + 1) == val && Stands(m, val, Text(e.tree))
            && sep < |m| && m[sep] == (if more then C_COMMA else C_END)
            && Skip(m, end) == sep && m[end] == Next(e.after, m[sep])
            && (more ==> Stands(m, sep + 1, EntriesText(entries[1..]) + [C_END]))
            && pos + |EntriesText(entries)| == sep + |More(more)| + |EntriesText(entries[1..])|
  {
    hide Stands, Text, TreeOk, Skip, Blank, LiteralText, Next, PiecesOk;
    var e, more, rest := entries[0], |entries| > 1, EntriesText(entries[1..]);
    var name, behind := LiteralText(e.name), e.after + More(more) + rest + [C_END];
    var value := e.colonAfter + (Text(e.tree) + behind);
    EntryText(entries);
    LiteralStarts(e.name);
    BodyStands(m, pos, e.before, name, e.colonBefore + [C_COLON] + value);
    var at := pos + |e.before| + |name|;
    StandsSplit(m, at, e.colonBefore + [C_COLON], value);
    BlanksStand(m, at, e.colonBefore, C_COLON);
    TreeStarts(e.tree);
    BodyStands(m, at + |e.colonBefore| + 1, e.colonAfter, Text(e.tree), behind);
    if !more { NoText(); }
    SeparatorStands(m, at + |e.colonBefore| + 1 + |e.colonAfter| + |Text(e.tree)|, e.after, more, rest, C_END);
  }

  lemma EntryText(entries: seq<Entry>)
    requires entries != []
    ensures var e, rest := entries[0], EntriesText(entries[1..]);
            var behind := e.after + More(|entries| > 1) + rest + [C_END];
            && EntriesText(entries) + [C_END]
               == e.before
                  + (LiteralText(e.name) + (e.colonBefore + [C_COLON] + (e.colonAfter + (Text(e.tree) + behind))))
            && |EntriesText(entries)| == |e.before| + |LiteralText(e.name)| + |e.colonBefore| + 1 + |e.colonAfter|
                                         + |Text(e.tree)| + |e.after| + |More(|entries| > 1)| + |rest|
  {
    hide Text, LiteralText, More;
    var e := entries[0];
    Rebracket(e.before, LiteralText(e.name), e.colonBefore, [C_COLON], e.colonAfter, Text(e.tree),
              e.after + More(|entries| > 1) + EntriesText(entries[1..]), [C_END]);
  }

  lemma Rebracket(a: seq<Char>, b: seq<Char>, c: seq<Char>, d: seq<Char>, e: seq<Char>, f: seq<Char>, g: seq<Char>,
                  z: seq<Char>)
    ensures a + (b + (c + (d + (e + (f + g))))) + z == a + (b + (c + d + (e + (f + (g + z)))))
  {
    Regroup(f, g, z);
    Regroup(e, f + g, z);
    Regroup(d, e + (f + g), z);
    Regroup(c, d + (e + (f + g)), z);
    Regroup(c, d, e + (f + (g + z)));
    Regroup(b, c + (d + (e + (f + g))), z);
    Regroup(a, b + (c + (d + (e + (f + g)))), z);
  }

  lemma LiteralStarts(s: Literal)
    ensures LiteralText(s) != [] && LiteralText(s)[0] == C_QUOTE
  {
  }

  lemma {:induction false} EntryParses(m: seq<Char>, pos: nat, entries: seq<Entry>)
    requires Block(m) && entries != [] && EntriesOk(entries) && Stands(m, pos, EntriesText(entries) + [C_END])
    ensures pos <= |m|
    ensures var e := entries[0];
            var end := pos + |e.before| + |LiteralText(e.name)| + |e.colonBefore| + 1 + |e.colonAfter| + |Text(e.tree)|;
            ParseMember(m, pos) == Result.Ok(Member(LiteralMeans(e.name), Means(e.tree)), end)
    decreases entries, 1
  {
    hide Stands, ParseValue, ParseString, Text, EntriesText, LiteralText, LiteralMeans, Ends, Skip, Blank, TreeOk,
         PiecesOk, Means;
    EntryStands(m, pos, entries);
    var e := entries[0];
    var at := pos + |e.before|;
    var val := at + |LiteralText(e.name)| + |e.colonBefore| + 1 + |e.colonAfter|;
    LiteralParses(m, at, e.name);
    TreeParses(m, val, e.tree);
  }

  lemma {:induction false} EntriesParse(m: seq<Char>, pos: nat, entries: seq<Entry>)
    requires Block(m) && entries != [] && EntriesOk(entries) && Stands(m, pos, EntriesText(entries) + [C_END])
    ensures pos <= |m| && ParseMembers(m, pos) == Result.Ok(EntriesMean(entries), pos + |EntriesText(entries)| + 1)
    decreases entries, 2
  {
    hide Stands, ParseMember, ParseMembers, AfterMember, Text, EntriesText, LiteralText, LiteralMeans, Means, Ends,
      Skip, Blank, TreeOk, PiecesOk;
    EntryStands(m, pos, entries);
    EntryParses(m, pos, entries);
    MembersStep(m, pos);
    var sep := ParseMember(m, pos).pos + |entries[0].after|;
    AfterMemberAt(m, sep);
    if |entries| > 1 {
      EntriesParse(m, sep + 1, entries[1..]);
    } else {
      NoText();
      NoItemsMean();
    }
  }

  // ---------------------------------------------------------------- what is taken has a tree

  lemma {:induction false} SkipStands(m: seq<Char>, pos: nat)
    requires pos <= |m|
    ensures Blank(m[pos..Skip(m, pos)]) && Stands(m, pos, m[pos..Skip(m, pos)])
    decreases |m| - pos
  {
    if pos < |m| && m[pos] <= 32 {
      SkipStands(m, pos + 1);
      var s := m[pos..Skip(m, pos)];
      forall i | 0 <= i < |s| ensures s[i] <= 32 { if i > 0 { assert s[i] == m[pos+1..Skip(m, pos)][i-1]; } }
    }
  }

  lemma HexDigitIs(c: Char)
    requires HexDigit(c) >= 0
    ensures IsHex(c, HexDigit(c))
  {
  }

  lemma Hex4Is(m: seq<Char>, i: nat)
    requires Hex4(m, i) >= 0
    ensures i + 4 <= |m| && IsHex4(m[i..i+4], Hex4(m, i)) && Stands(m, i, m[i..i+4])
  {
    hide HexDigit, IsHex;
    var a, b, c, d := HexDigit(m[i]), HexDigit(m[i+1]), HexDigit(m[i+2]), HexDigit(m[i+3]);
    HexDigitIs(m[i]);
    HexDigitIs(m[i+1]);
    HexDigitIs(m[i+2]);
    HexDigitIs(m[i+3]);
    HexBounds(m[i], a);
    HexBounds(m[i+1], b);
    HexBounds(m[i+2], c);
    HexBounds(m[i+3], d);
    DigitsOfFour(a, b, c, d);
  }

  lemma HexBounds(c: Char, digit: int)
    requires IsHex(c, digit)
    ensures 0 <= digit < 16
  {
  }

  lemma DigitsOfFour(a: int, b: int, c: int, d: int)
    requires 0 <= a < 16 && 0 <= b < 16 && 0 <= c < 16 && 0 <= d < 16
    ensures var u := ((a * 16 + b) * 16 + c) * 16 + d;
            0 <= u < 0x1_0000 && u / 0x1000 == a && u / 0x100 % 16 == b && u / 16 % 16 == c && u % 16 == d
  {
    var u := ((a * 16 + b) * 16 + c) * 16 + d;
    assert u / 16 == (a * 16 + b) * 16 + c && u / 0x100 == a * 16 + b;
  }

  /** The piece a string goes on with. */
  lemma PieceThere(m: seq<Char>, i: nat) returns (p: Piece)
    requires i < |m| && ParseChars(m, i).Ok? && m[i] != QUOTE && m[i] > 31
    ensures PieceOk(p) && Stands(m, i, PieceText(p))
    ensures ParseChars(m, i) == Prepend(PieceMeans(p), ParseChars(m, i + |PieceText(p)|))
    ensures ParseChars(m, i + |PieceText(p)|).Ok?
  {
    hide IsUtf8, Utf8, IsHex4, Hex4;
    if m[i] != BACKSLASH {
      p := Plain(m[i]);
    } else if m[i+1] != 117 {
      p := Escaped(m[i+1]);
    } else {
      var u := Hex4(m, i + 2);
      Hex4Is(m, i + 2);
      HexInRange(m[i+2..i+6], u);
      Utf8Exactly(Utf8(u), u);
      p := CodePoint(u, m[i+2..i+6], Utf8(u));
      assert Stands(m, i, [C_BACKSLASH, C_U]);
      StandsJoin(m, i, [C_BACKSLASH, C_U], p.hex);
    }
  }

  lemma {:induction false} PiecesThere(m: seq<Char>, i: nat) returns (ps: seq<Piece>, closed: bool)
    requires Block(m) && i <= |m| && ParseChars(m, i).Ok?
    ensures PiecesOk(ps) && Stands(m, i, PiecesText(ps) + ClosingText(closed))
    ensures ParseChars(m, i).value == PiecesMean(ps)
    ensures ParseChars(m, i).pos == i + |PiecesText(ps)| + |ClosingText(closed)| < |m|
    ensures closed || m[ParseChars(m, i).pos] <= 31
    decreases |m| - i
  {
    hide Stands, PieceText, PieceMeans, PieceOk, ParseChars, PiecesOk, PiecesText, PiecesMean;
    AnyChars(m, i);
    if m[i] == QUOTE || m[i] <= 31 {
      ps, closed := [], m[i] == QUOTE;
      CharsEnd(m, i);
    } else {
      var p := PieceThere(m, i);
      var n := |PieceText(p)|;
      StandsInside(m, i, PieceText(p));
      ps, closed := PiecesThere(m, i + n);
      StandsJoin(m, i, PieceText(p), PiecesText(ps) + ClosingText(closed));
      Regroup(PieceText(p), PiecesText(ps), ClosingText(closed));
      PiecesCons(p, ps);
      ps := [p] + ps;
    }
  }

  lemma AnyChars(m: seq<Char>, i: nat)
    requires i <= |m| && ParseChars(m, i).Ok?
    ensures i < |m|
  {
  }

  lemma CharsEnd(m: seq<Char>, i: nat)
    requires Block(m) && i < |m| && (m[i] == QUOTE || m[i] <= 31)
    ensures var closed := m[i] == QUOTE;
            && ParseChars(m, i) == Result.Ok([], i + |ClosingText(closed)|) && i + |ClosingText(closed)| < |m|
            && (closed || m[i+|ClosingText(closed)|] <= 31)
            && Stands(m, i, PiecesText([]) + ClosingText(closed)) && PiecesMean([]) == [] && PiecesText([]) == []
            && PiecesOk([])
  {
  }

  lemma StandsOne(m: seq<Char>, i: nat)
    requires i < |m|
    ensures Stands(m, i, [m[i]]) && Stands(m, i, [])
  {
  }

  lemma StandsInside(m: seq<Char>, i: nat, s: seq<Char>)
    requires Stands(m, i, s)
    ensures i + |s| <= |m|
  {
  }

  lemma PiecesCons(p: Piece, ps: seq<Piece>)
    requires PieceOk(p) && PiecesOk(ps)
    ensures PiecesOk([p] + ps) && PiecesText([p] + ps) == PieceText(p) + PiecesText(ps)
    ensures PiecesMean([p] + ps) == PieceMeans(p) + PiecesMean(ps)
  {
    assert ([p] + ps)[1..] == ps;
  }

  lemma LiteralThere(m: seq<Char>, pos: nat) returns (s: Literal)
    requires Block(m) && pos <= |m| && ParseString(m, pos).Ok?
    ensures PiecesOk(s.pieces) && Stands(m, pos, LiteralText(s))
    ensures ParseString(m, pos).value == LiteralMeans(s)
    ensures ParseString(m, pos).pos == pos + |LiteralText(s)| < |m| && LiteralEnds(s, m[pos+|LiteralText(s)|])
  {
    hide Stands, PiecesOk, ParseChars;
    var ps, closed := PiecesThere(m, pos + 1);
    s := Literal(ps, closed);
    StandsOne(m, pos);
    StandsJoin(m, pos, [C_QUOTE], PiecesText(ps) + ClosingText(closed));
  }

  lemma {:induction false} DigitRun(m: seq<Char>, j: nat) returns (k: nat)
    requires Block(m) && j < |m|
    ensures j <= k < |m| && !IsDigit(m[k]) && forall i :: j <= i < k ==> IsDigit(m[i])
    decreases |m| - j
  {
    if IsDigit(m[j]) { k := DigitRun(m, j + 1); } else { k := j; }
  }

  lemma NumberJoins(m: seq<Char>, pos: nat, minus: bool, zero: bool, digits: seq<Char>)
    requires minus ==> pos < |m| && m[pos] == MINUS
    requires var i := if minus then pos + 1 else pos; zero ==> i < |m| && m[i] == ZERO
    requires Stands(m, pos + (if minus then 1 else 0) + (if zero then 1 else 0), digits)
    ensures Stands(m, pos, NumberText(minus, zero, digits))
    ensures |NumberText(minus, zero, digits)| == (if minus then 1 else 0) + (if zero then 1 else 0) + |digits|
  {
    hide Stands;
    var sign: seq<Char> := if minus then [MINUS] else [];
    var nought: seq<Char> := if zero then [ZERO] else [];
    var i := pos + |sign|;
    if zero { StandsOne(m, i); }
    NothingStands(m, i, nought, digits);
    StandsJoin(m, i, nought, digits);
    if minus { StandsOne(m, pos); }
    NothingStands(m, pos, sign, nought + digits);
    StandsJoin(m, pos, sign, nought + digits);
  }

  lemma NothingStands(m: seq<Char>, i: nat, a: seq<Char>, b: seq<Char>)
    requires Stands(m, i + |a|, b)
    ensures a == [] ==> Stands(m, i, a)
  {
  }

  lemma NumberThere(m: seq<Char>, pos: nat) returns (t: Tree)
    requires Block(m) && pos < |m| && (m[pos] == MINUS || IsDigit(m[pos]))
    ensures t.TNumber? && TreeOk(t) && Stands(m, pos, Text(t)) && pos + |Text(t)| < |m| && Ends(t, m[pos+|Text(t)|])
    ensures ParseNumber(m, pos) == Result.Ok(Means(t), pos + |Text(t)|)
  {
    hide Stands, Wrap, IsInt, ParseDigits, Decimal, NumberText;
    var minus := m[pos] == MINUS;
    var i := if minus then pos + 1 else pos;
    var zero := m[i] == ZERO;
    var j := if zero then i + 1 else i;
    var k := j;
    if m[j] != ZERO { k := DigitRun(m, j); }
    var digits := m[j..k];
    StandsSlices(m, j, k);
    NumberJoins(m, pos, minus, zero, digits);
    if digits != [] { AllDigits(m, j, digits); }
    NoDecimal();
    WrapZero();
    t := TNumber(minus, zero, digits, Wrap(Decimal(digits)));
    WrapIsInt(t.n, Decimal(digits));
  }

  lemma StandsSlices(m: seq<Char>, j: nat, k: nat)
    requires j <= k <= |m|
    ensures Stands(m, j, m[j..k])
  {
  }

  lemma WordThere(m: seq<Char>, pos: nat, t: Tree)
    requires Block(m) && (t.TNull? || t.TFalse? || t.TTrue?) && StartsWith(m, pos, Text(t))
    ensures Stands(m, pos, Text(t)) && pos + |Text(t)| < |m|
  {
    StandsSlices(m, pos, pos + |Text(t)|);
    var last := |Text(t)| - 1;
    assert Text(t)[last] != 0;
    StandsAt(m, pos, Text(t), last);
  }

  /** Whatever the parser takes is the text of a tree that means what it gives. */
  lemma {:induction false} ValueThere(m: seq<Char>, pos: nat) returns (t: Tree)
    requires Block(m) && pos <= |m| && ParseValue(m, pos).Ok?
    ensures TreeOk(t) && Stands(m, pos, Text(t)) && Means(t) == ParseValue(m, pos).value
    ensures ParseValue(m, pos).pos == pos + |Text(t)| < |m| && Ends(t, m[pos+|Text(t)|])
    decreases |m| - pos, 1
  {
    hide Stands, ParseString, ParseNumber, ParseArray, ParseObject, ParseValue;
    var w := Worded(m, pos);
    if w.Some? {
      t := w.tree;
      WordThere(m, pos, t);
    } else if m[pos] == QUOTE {
      var s := LiteralThere(m, pos);
      t := TString(s);
    } else if m[pos] == MINUS || IsDigit(m[pos]) {
      t := NumberThere(m, pos);
    } else if m[pos] == LBRACKET {
      t := ArrayThere(m, pos);
    } else {
      t := ObjectThere(m, pos);
    }
  }

  datatype MaybeTree = Some(tree: Tree) | None

  /** A value that is a word, or is told by its first character. */
  lemma Worded(m: seq<Char>, pos: nat) returns (w: MaybeTree)
    requires Block(m) && pos <= |m| && ParseValue(m, pos).Ok?
    ensures w.Some? ==>
              && (w.tree.TNull? || w.tree.TFalse? || w.tree.TTrue?) && StartsWith(m, pos, Text(w.tree))
              && ParseValue(m, pos) == Result.Ok(Means(w.tree), pos + |Text(w.tree)|)
    ensures w.None? ==>
              && pos < |m| && (m[pos] == QUOTE || m[pos] == MINUS || IsDigit(m[pos]) || m[pos] == LBRACKET
                               || m[pos] == LBRACE)
              && ParseValue(m, pos)
                 == if m[pos] == QUOTE then ParseText(m, pos)
                    else if m[pos] == MINUS || IsDigit(m[pos]) then ParseNumber(m, pos)
                    else if m[pos] == LBRACKET then ParseArray(m, pos)
                    else ParseObject(m, pos)
  {
    if StartsWith(m, pos, NULL_TEXT) { w := Some(TNull); }
    else if StartsWith(m, pos, FALSE_TEXT) { w := Some(TFalse); }
    else if StartsWith(m, pos, TRUE_TEXT) { w := Some(TTrue); }
    else { w := None; }
  }

  lemma {:induction false} ArrayThere(m: seq<Char>, pos: nat) returns (t: Tree)
    requires Block(m) && pos < |m| && m[pos] == LBRACKET && ParseArray(m, pos).Ok?
    ensures t.TArray? && TreeOk(t) && Stands(m, pos, Text(t)) && Means(t) == ParseArray(m, pos).value
    ensures ParseArray(m, pos).pos == pos + |Text(t)| < |m|
    decreases |m| - pos, 0
  {
    hide Stands, ParseItems, ItemsText, ItemsOk, ItemsMean, Skip;
    var p := Skip(m, pos + 1);
    SkipStands(m, pos + 1);
    StandsOne(m, pos);
    ItemsSkip(m, pos + 1);
    if m[p] == RBRACKET {
      t := TArray(m[pos+1..p], []);
      StandsOne(m, p);
      StandsJoin(m, pos + 1, t.blanks, [C_CLOSE]);
      StandsJoin(m, pos, [C_OPEN], t.blanks + [C_CLOSE]);
      NoItemsMean();
      NoneOk();
    } else {
      var items := ItemsThere(m, pos + 1);
      t := TArray([], items);
      StandsJoin(m, pos, [C_OPEN], ItemsText(items) + [C_CLOSE]);
    }
  }

  lemma NoneOk()
    ensures ItemsOk([]) && EntriesOk([])
  {
  }

  lemma {:induction false} ItemsThere(m: seq<Char>, pos: nat) returns (items: seq<Item>)
    requires Block(m) && pos <= |m| && ParseItems(m, pos).Ok?
    ensures items != [] && ItemsOk(items) && Stands(m, pos, ItemsText(items) + [C_CLOSE])
    ensures ItemsMean(items) == ParseItems(m, pos).value
    ensures ParseItems(m, pos).pos == pos + |ItemsText(items)| + 1 < |m|
    decreases |m| - pos, 2
  {
    hide Stands, ParseItems, ParseValue, AfterItem, Text, ItemsText, ItemsOk, ItemsMean, Ends, Skip, Blank, TreeOk,
      Means;
    var at := Skip(m, pos);
    SkipStands(m, pos);
    ItemsStep(m, pos);
    var t := ValueThere(m, at);
    var end := at + |Text(t)|;
    var sep := Skip(m, end);
    SkipStands(m, end);
    SkipStops(m, end);
    AfterItemAt(m, sep);
    var x := Item(m[pos..at], t, m[end..sep]);
    NextIs(m, end, sep);
    StandsOne(m, sep);
    if m[sep] == COMMA {
      var rest := ItemsThere(m, sep + 1);
      ItemsCons(m, pos, x, rest);
      items := [x] + rest;
    } else {
      ItemsLast(m, pos, x);
      items := [x];
    }
  }

  lemma {:induction false} SkipStops(m: seq<Char>, pos: nat)
    requires pos <= |m|
    ensures Skip(m, pos) < |m| ==> m[Skip(m, pos)] > 32
    decreases |m| - pos
  {
    if pos < |m| && m[pos] <= 32 { SkipStops(m, pos + 1); }
  }

  lemma NextIs(m: seq<Char>, end: nat, sep: nat)
    requires end <= sep < |m|
    ensures m[end] == Next(m[end..sep], m[sep])
  {
  }

  /** One more item in front of others. */
  lemma ItemsCons(m: seq<Char>, pos: nat, x: Item, rest: seq<Item>)
    requires rest != [] && ItemsOk(rest) && Blank(x.before) && TreeOk(x.tree) && Blank(x.after)
    requires Ends(x.tree, Next(x.after, C_COMMA))
    requires var at := pos + |x.before|;
             var sep := at + |Text(x.tree)| + |x.after|;
             && Stands(m, pos, x.before) && Stands(m, at, Text(x.tree)) && Stands(m, at + |Text(x.tree)|, x.after)
             && Stands(m, sep, [C_COMMA]) && Stands(m, sep + 1, ItemsText(rest) + [C_CLOSE])
    ensures ItemsOk([x] + rest) && ItemsMean([x] + rest) == [Means(x.tree)] + ItemsMean(rest)
    ensures Stands(m, pos, ItemsText([x] + rest) + [C_CLOSE])
    ensures |ItemsText([x] + rest)| == |x.before| + |Text(x.tree)| + |x.after| + 1 + |ItemsText(rest)|
  {
    hide Stands, Text, TreeOk, Ends, Blank, Next, Means;
    var items := [x] + rest;
    assert items[1..] == rest;
    var at := pos + |x.before|;
    var end := at + |Text(x.tree)|;
    StandsJoin(m, end, x.after, [C_COMMA]);
    StandsJoin(m, end, x.after + [C_COMMA], ItemsText(rest) + [C_CLOSE]);
    StandsJoin(m, at, Text(x.tree), x.after + [C_COMMA] + (ItemsText(rest) + [C_CLOSE]));
    StandsJoin(m, pos, x.before, Text(x.tree) + (x.after + [C_COMMA] + (ItemsText(rest) + [C_CLOSE])));
    Regroup(x.after + [C_COMMA], ItemsText(rest), [C_CLOSE]);
    Regroup(Text(x.tree), x.after + [C_COMMA] + ItemsText(rest), [C_CLOSE]);
    Regroup(x.before, Text(x.tree) + (x.after + [C_COMMA] + ItemsText(rest)), [C_CLOSE]);
  }

  lemma ItemsLast(m: seq<Char>, pos: nat, x: Item)
    requires Blank(x.before) && TreeOk(x.tree) && Blank(x.after) && Ends(x.tree, Next(x.after, C_CLOSE))
    requires var at := pos + |x.before|;
             var sep := at + |Text(x.tree)| + |x.after|;
             && Stands(m, pos, x.before) && Stands(m, at, Text(x.tree)) && Stands(m, at + |Text(x.tree)|, x.after)
             && Stands(m, sep, [C_CLOSE])
    ensures ItemsOk([x]) && ItemsMean([x]) == [Means(x.tree)] && Stands(m, pos, ItemsText([x]) + [C_CLOSE])
    ensures |ItemsText([x])| == |x.before| + |Text(x.tree)| + |x.after|
  {
    hide Stands, Text, TreeOk, Ends, Blank, Next, Means;
    assert [x][1..] == [];
    NoneOk();
    NoText();
    NoItemsMean();
    var at := pos + |x.before|;
    var end := at + |Text(x.tree)|;
    StandsJoin(m, end, x.after, [C_CLOSE]);
    StandsJoin(m, at, Text(x.tree), x.after + [C_CLOSE]);
    StandsJoin(m, pos, x.before, Text(x.tree) + (x.after + [C_CLOSE]));
    assert x.after + [] + [] == x.after;
    Regroup(Text(x.tree), x.after, [C_CLOSE]);
    Regroup(x.before, Text(x.tree) + x.after, [C_CLOSE]);
  }

  /** The text of an entry but for what is behind its value. */
  function HeadSize(e: Entry): nat {
    |e.before| + |LiteralText(e.name)| + |e.colonBefore| + 1 + |e.colonAfter| + |Text(e.tree)|
  }

  ghost predicate HeadStands(m: seq<Char>, pos: nat, e: Entry) {
    var name := pos + |e.before|;
    var blanks := name + |LiteralText(e.name)|;
    var colon := blanks + |e.colonBefore|;
    && Stands(m, pos, e.before) && Stands(m, name, LiteralText(e.name)) && Stands(m, blanks, e.colonBefore)
    && Stands(m, colon, [C_COLON]) && Stands(m, colon + 1, e.colonAfter)
    && Stands(m, colon + 1 + |e.colonAfter|, Text(e.tree))
  }

  ghost predicate HeadOk(e: Entry) {
    && Blank(e.before) && PiecesOk(e.name.pieces) && Blank(e.colonBefore) && Blank(e.colonAfter)
    && LiteralEnds(e.name, Next(e.colonBefore, C_COLON)) && TreeOk(e.tree)
  }

  lemma {:induction false} MemberThere(m: seq<Char>, pos: nat) returns (e: Entry)
    requires Block(m) && pos <= |m| && ParseMember(m, pos).Ok?
    ensures HeadOk(e) && HeadStands(m, pos, e)
    ensures ParseMember(m, pos) == Result.Ok(Member(LiteralMeans(e.name), Means(e.tree)), pos + HeadSize(e))
    ensures pos + HeadSize(e) < |m| && Ends(e.tree, m[pos+HeadSize(e)])
    decreases |m| - pos, 2
  {
    hide Stands, ParseValue, ParseString, Text, LiteralText, LiteralMeans, Ends, Skip, Blank, TreeOk, PiecesOk, Means,
         LiteralEnds, Next;
    var at := Skip(m, pos);
    SkipStands(m, pos);
    var s := LiteralThere(m, at);
    var blanks := at + |LiteralText(s)|;
    var colon := Skip(m, blanks);
    SkipStands(m, blanks);
    NextIs(m, blanks, colon);
    StandsOne(m, colon);
    var val := Skip(m, colon + 1);
    SkipStands(m, colon + 1);
    var t := ValueThere(m, val);
    e := Entry(m[pos..at], s, m[blanks..colon], m[colon+1..val], t, []);
  }

  lemma {:induction false} ObjectThere(m: seq<Char>, pos: nat) returns (t: Tree)
    requires Block(m) && pos < |m| && m[pos] == LBRACE && ParseObject(m, pos).Ok?
    ensures t.TObject? && TreeOk(t) && Stands(m, pos, Text(t)) && Means(t) == ParseObject(m, pos).value
    ensures ParseObject(m, pos).pos == pos + |Text(t)| < |m|
    decreases |m| - pos, 0
  {
    hide Stands, ParseMembers, EntriesText, EntriesOk, EntriesMean, Skip, LiteralText;
    var p := Skip(m, pos + 1);
    SkipStands(m, pos + 1);
    StandsOne(m, pos);
    ItemsSkip(m, pos + 1);
    if m[p] == RBRACE {
      t := TObject(m[pos+1..p], []);
      StandsOne(m, p);
      StandsJoin(m, pos + 1, t.blanks, [C_END]);
      StandsJoin(m, pos, [C_BEGIN], t.blanks + [C_END]);
      NoItemsMean();
      NoneOk();
    } else {
      var entries := EntriesThere(m, pos + 1);
      t := TObject([], entries);
      StandsJoin(m, pos, [C_BEGIN], EntriesText(entries) + [C_END]);
    }
  }

  lemma {:induction false} EntriesThere(m: seq<Char>, pos: nat) returns (entries: seq<Entry>)
    requires Block(m) && pos <= |m| && ParseMembers(m, pos).Ok?
    ensures entries != [] && EntriesOk(entries) && Stands(m, pos, EntriesText(entries) + [C_END])
    ensures EntriesMean(entries) == ParseMembers(m, pos).value
    ensures ParseMembers(m, pos).pos == pos + |EntriesText(entries)| + 1 < |m|
    decreases |m| - pos, 3
  {
    hide Stands, ParseMembers, ParseMember, AfterMember, Text, EntriesText, EntriesOk, EntriesMean, Ends, Skip, Blank,
         HeadStands, HeadOk, LiteralText, LiteralMeans, Means, HeadSize;
    MembersStep(m, pos);
    var e := MemberThere(m, pos);
    var end := pos + HeadSize(e);
    var sep := Skip(m, end);
    SkipStands(m, end);
    SkipStops(m, end);
    AfterMemberAt(m, sep);
    var after := m[end..sep];
    NextIs(m, end, sep);
    StandsOne(m, sep);
    if m[sep] == COMMA {
      var rest := EntriesThere(m, sep + 1);
      EntriesCons(m, pos, e, after, rest);
      entries := [e.(after := after)] + rest;
    } else {
      EntriesLast(m, pos, e, after);
      entries := [e.(after := after)];
    }
  }

  lemma EntriesJoin(m: seq<Char>, pos: nat, entries: seq<Entry>)
    requires entries != [] && HeadStands(m, pos, entries[0])
    requires Stands(m, pos + HeadSize(entries[0]),
                    entries[0].after + More(|entries| > 1) + EntriesText(entries[1..]) + [C_END])
    ensures Stands(m, pos, EntriesText(entries) + [C_END])
    ensures |EntriesText(entries)|
            == HeadSize(entries[0]) + |entries[0].after| + |More(|entries| > 1)| + |EntriesText(entries[1..])|
  {
    hide Stands, Text, LiteralText, More, EntriesText;
    var e := entries[0];
    var behind := e.after + More(|entries| > 1) + EntriesText(entries[1..]) + [C_END];
    var name := pos + |e.before|;
    var blanks := name + |LiteralText(e.name)|;
    var colon := blanks + |e.colonBefore|;
    var value := e.colonAfter + (Text(e.tree) + behind);
    StandsJoin(m, colon + 1 + |e.colonAfter|, Text(e.tree), behind);
    StandsJoin(m, colon + 1, e.colonAfter, Text(e.tree) + behind);
    StandsJoin(m, blanks, e.colonBefore, [C_COLON]);
    StandsJoin(m, blanks, e.colonBefore + [C_COLON], value);
    StandsJoin(m, name, LiteralText(e.name), e.colonBefore + [C_COLON] + value);
    StandsJoin(m, pos, e.before, LiteralText(e.name) + (e.colonBefore + [C_COLON] + value));
    EntryText(entries);
  }

  /** One more entry in front of others. */
  lemma EntriesCons(m: seq<Char>, pos: nat, e: Entry, after: seq<Char>, rest: seq<Entry>)
    requires rest != [] && EntriesOk(rest) && HeadOk(e) && HeadStands(m, pos, e) && Blank(after)
    requires Ends(e.tree, Next(after, C_COMMA))
    requires var end := pos + HeadSize(e);
             && Stands(m, end, after) && Stands(m, end + |after|, [C_COMMA])
             && Stands(m, end + |after| + 1, EntriesText(rest) + [C_END])
    ensures var entries := [e.(after := after)] + rest;
            && EntriesOk(entries) && Stands(m, pos, EntriesText(entries) + [C_END])
            && EntriesMean(entries) == [Member(LiteralMeans(e.name), Means(e.tree))] + EntriesMean(rest)
            && |EntriesText(entries)| == HeadSize(e) + |after| + 1 + |EntriesText(rest)|
  {
    hide Stands, Text, TreeOk, Ends, Blank, Next, Means, LiteralText, LiteralMeans, EntriesText, PiecesOk, LiteralEnds;
    var entries := [e.(after := after)] + rest;
    assert entries[1..] == rest && entries[0] == e.(after := after);
    var end := pos + HeadSize(e);
    StandsJoin(m, end, after, [C_COMMA]);
    StandsJoin(m, end, after + [C_COMMA], EntriesText(rest) + [C_END]);
    Regroup(after + [C_COMMA], EntriesText(rest), [C_END]);
    EntriesJoin(m, pos, entries);
  }

  lemma EntriesLast(m: seq<Char>, pos: nat, e: Entry, after: seq<Char>)
    requires HeadOk(e) && HeadStands(m, pos, e) && Blank(after) && Ends(e.tree, Next(after, C_END))
    requires var end := pos + HeadSize(e); Stands(m, end, after) && Stands(m, end + |after|, [C_END])
    ensures var entries := [e.(after := after)];
            && EntriesOk(entries) && Stands(m, pos, EntriesText(entries) + [C_END])
            && EntriesMean(entries) == [Member(LiteralMeans(e.name), Means(e.tree))]
            && |EntriesText(entries)| == HeadSize(e) + |after|
  {
    hide Stands, Text, TreeOk, Ends, Blank, Next, Means, LiteralText, LiteralMeans, EntriesText, PiecesOk, LiteralEnds;
    var entries := [e.(after := after)];
    assert entries[1..] == [];
    NoneOk();
    NoText();
    NoItemsMean();
    StandsJoin(m, pos + HeadSize(e), after, [C_END]);
    assert after + [] + [] == after;
    EntriesJoin(m, pos, entries);
  }

  // ---------------------------------------------------------------- the theorem

  /** At `pos` stands the text of a tree of the value `v`, and ends before `end`. */
  ghost predicate Spelled(m: seq<Char>, pos: nat, v: Value, end: nat) {
    exists t: Tree :: IsSpelling(m, pos, t, v, end)
  }

  ghost predicate IsSpelling(m: seq<Char>, pos: nat, t: Tree, v: Value, end: nat) {
    TreeOk(t) && Means(t) == v && Stands(m, pos, Text(t)) && end == pos + |Text(t)| < |m| && Ends(t, m[end])
  }

  /** The parser takes exactly the spelled values. */
  lemma ParsesExactly(m: seq<Char>, pos: nat, v: Value, end: nat)
    requires Block(m) && pos <= |m|
    ensures ParseValue(m, pos) == Result.Ok(v, end) <==> Spelled(m, pos, v, end)
  {
    hide ParseValue, TreeOk, Means, Stands, Text, Ends;
    if ParseValue(m, pos) == Result.Ok(v, end) {
      var t := ValueThere(m, pos);
      assert IsSpelling(m, pos, t, v, end);
    }
    if Spelled(m, pos, v, end) {
      var t :| IsSpelling(m, pos, t, v, end);
      TreeParses(m, pos, t);
    }
  }

  /** Behind leading blanks. */
  lemma ParseExactly(m: seq<Char>, v: Value, end: nat)
    requires Block(m)
    ensures Parse(m) == Result.Ok(v, end)
            <==> exists pos :: 0 <= pos < |m| && Blank(m[..pos]) && m[pos] > 32 && Spelled(m, pos, v, end)
  {
    hide ParseValue, Spelled;
    var at := Skip(m, 0);
    SkipStands(m, 0);
    SkipStops(m, 0);
    ParsesExactly(m, at, v, end);
    assert m[0..at] == m[..at];
    if Spelled(m, at, v, end) { SpelledAt(m, at, v, end); }
    forall pos: nat | pos < |m| && m[pos] > 32 && Blank(m[..pos]) ensures pos == at {
      StandsSlices(m, 0, pos);
      SkipsBlanks(m, 0, m[..pos]);
    }
  }

  lemma SpelledAt(m: seq<Char>, pos: nat, v: Value, end: nat)
    requires Spelled(m, pos, v, end)
    ensures pos < end < |m| && m[pos] > 32
  {
    hide TreeOk, Means, Stands, Text, Ends;
    var t :| IsSpelling(m, pos, t, v, end);
    TreeStarts(t);
    StandsAt(m, pos, Text(t), 0);
  }
}
