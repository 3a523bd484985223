/**
 The kernel's JSON texts and values: the parser and the printer as functions.
 `char` is signed, so bytes from 0x80 on are negative; `int` has 32 bits and wraps.
 */
module Json {

  type Char = c: int | -128 <= c < 128

  datatype Value =
    | Null | False | True
    | Number(n: int)
    | Str(text: seq<Char>)
    | Array(items: seq<Value>)
    | Object(members: seq<Member>)

  datatype Member = Member(name: seq<Char>, value: Value)

  const TAB: Char := 9
  const NL: Char := 10
  const CR: Char := 13
  const SPACE: Char := 32
  const QUOTE: Char := 34
  const PERCENT: Char := 37
  const STAR: Char := 42
  const COMMA: Char := 44
  const MINUS: Char := 45
  const SLASH: Char := 47
  const ZERO: Char := 48
  const NINE: Char := 57
  const COLON: Char := 58
  const LBRACKET: Char := 91
  const BACKSLASH: Char := 92
  const RBRACKET: Char := 93
  const LBRACE: Char := 123
  const RBRACE: Char := 125

  const NULL_TEXT: seq<Char> := [110, 117, 108, 108]
  const FALSE_TEXT: seq<Char> := [102, 97, 108, 115, 101]
  const TRUE_TEXT: seq<Char> := [116, 114, 117, 101]

  // ---------------------------------------------------------------- parsing

  /** Stuck: the parser would read past the block, or `sscanf` would not find four hexadecimal digits. */
  datatype Result<T> = Ok(value: T, pos: nat) | Failed | Stuck {
    function Map<U>(f: T -> U): Result<U> {
      match this
      case Ok(v, p) => Result.Ok(f(v), p)
      case Failed => Result.Failed
      case Stuck => Result.Stuck
    }
  }

  /** The block of memory a text is in: its NUL is the last byte of it. */
  predicate Block(m: seq<Char>) {
    m != [] && m[|m|-1] == 0
  }

  /** The first character above 32, which NUL is not; the end of the block if there is none. */
  function Skip(m: seq<Char>, i: nat): (r: nat)
    requires i <= |m|
    ensures i <= r <= |m|
    decreases |m| - i
  {
    if i < |m| && m[i] <= 32 then Skip(m, i + 1) else i
  }

  lemma SkipNothing(m: seq<Char>, i: nat)
    requires i < |m| && m[i] > 32
    ensures Skip(m, i) == i
  {
  }

  lemma {:induction false} SkipAgain(m: seq<Char>, i: nat)
    requires i <= |m|
    ensures Skip(m, Skip(m, i)) == Skip(m, i)
    decreases |m| - i
  {
    if i < |m| && m[i] <= 32 { SkipAgain(m, i + 1); }
  }

  predicate StartsWith(m: seq<Char>, pos: nat, word: seq<Char>) {
    pos + |word| <= |m| && m[pos..pos+|word|] == word
  }

  predicate IsDigit(c: Char) {
    ZERO <= c <= NINE
  }

  /** 32-bit wrap-around. */
  function Wrap(n: int): int {
    (n + 0x8000_0000) % 0x1_0000_0000 - 0x8000_0000
  }

  function ParseDigits(m: seq<Char>, i: nat, n: int): (r: Result<Value>)
    requires i <= |m| && Block(m)
    ensures (r.Ok? && i <= r.pos < |m|) || (i == |m| && r.Stuck?)
    decreases |m| - i
  {
    if i == |m| then Stuck
    else if IsDigit(m[i]) then ParseDigits(m, i + 1, Wrap(n * 10 + (m[i] as int - ZERO as int)))
    else Ok(Number(n), i)
  }

  /** A sign is passed over and has no effect; one leading zero is passed over. */
  function ParseNumber(m: seq<Char>, pos: nat): (r: Result<Value>)
    requires pos < |m| && Block(m) && (m[pos] == MINUS || IsDigit(m[pos]))
    ensures r.Ok? && pos < r.pos < |m|
  {
    var i := if m[pos] == MINUS then pos + 1 else pos;
    var j := if m[i] == ZERO then i + 1 else i;
    if IsDigit(m[j]) && m[j] != ZERO then ParseDigits(m, j, 0) else Ok(Number(0), j)
  }

  function HexDigit(c: Char): int {
    if IsDigit(c) then c as int - 48
    else if 97 <= c <= 102 then c as int - 87
    else if 65 <= c <= 70 then c as int - 55
    else -1
  }

  /** The value of four hexadecimal digits, or -1. */
  function Hex4(m: seq<Char>, i: nat): int {
    if i + 4 > |m| then -1
    else
      var a, b, c, d := HexDigit(m[i]), HexDigit(m[i+1]), HexDigit(m[i+2]), HexDigit(m[i+3]);
      if a < 0 || b < 0 || c < 0 || d < 0 then -1 else ((a * 16 + b) * 16 + c) * 16 + d
  }

  function AsChar(n: int): Char
    requires 0 <= n < 256
  {
    if n < 128 then n else n - 256
  }

  function Utf8(u: int): seq<Char>
    requires 0 <= u < 0x1_0000
  {
    if u < 0x80 then [AsChar(u)]
    else if u < 0x800 then [AsChar(0xC0 + u / 64), AsChar(0x80 + u % 64)]
    else [AsChar(0xE0 + u / 4096), AsChar(0x80 + u / 64 % 64), AsChar(0x80 + u % 64)]
  }

  function Unescape(c: Char): Char {
    if c == 98 then 8 else if c == 102 then 12 else if c == 110 then NL else if c == 114 then CR else if c == 116
        then TAB else c
  }

  /** The characters up to a quote, which is passed, or up to a control or negative character, which is not. */
  function ParseChars(m: seq<Char>, i: nat): (r: Result<seq<Char>>)
    ensures r.Ok? ==> i <= r.pos <= |m|
    decreases |m| - i
  {
    if i >= |m| then Stuck
    else if m[i] == QUOTE then Ok([], i + 1)
    else if m[i] <= 31 then Ok([], i)
    else if m[i] != BACKSLASH then Prepend([m[i]], ParseChars(m, i + 1))
    else if i + 1 >= |m| then Stuck
    else if m[i+1] != 117 then Prepend([Unescape(m[i+1])], ParseChars(m, i + 2))
    else
      var u := Hex4(m, i + 2);
      if u < 0 then Stuck else assert u < 0x1_0000; Prepend(Utf8(u), ParseChars(m, i + 6))
  }

  function Prepend<T>(front: seq<T>, r: Result<seq<T>>): Result<seq<T>> {
    if r.Ok? then Ok(front + r.value, r.pos) else r
  }

  /** What C sees of the characters: those before the first NUL. */
  function BeforeNul(s: seq<Char>): (r: seq<Char>)
    ensures 0 !in r
  {
    if s == [] || s[0] == 0 then [] else [s[0]] + BeforeNul(s[1..])
  }

  function ParseString(m: seq<Char>, pos: nat): (r: Result<seq<Char>>)
    requires pos <= |m|
    ensures r.Ok? ==> pos < r.pos <= |m| && 0 !in r.value
  {
    if pos == |m| then Stuck
    else if m[pos] != QUOTE then Failed
    else
      var r := ParseChars(m, pos + 1);
      if r.Ok? then Ok(BeforeNul(r.value), r.pos) else r
  }

  function ParseValue(m: seq<Char>, pos: nat): (r: Result<Value>)
    requires pos <= |m| && Block(m)
    ensures r.Ok? ==> pos < r.pos <= |m|
    decreases |m| - pos, 1
  {
    if pos == |m| then Stuck
    else if StartsWith(m, pos, NULL_TEXT) then Ok(Null, pos + 4)
    else if StartsWith(m, pos, FALSE_TEXT) then Ok(False, pos + 5)
    else if StartsWith(m, pos, TRUE_TEXT) then Ok(True, pos + 4)
    else if m[pos] == QUOTE then ParseText(m, pos)
    else if m[pos] == MINUS || IsDigit(m[pos]) then ParseNumber(m, pos)
    else if m[pos] == LBRACKET then ParseArray(m, pos)
    else if m[pos] == LBRACE then ParseObject(m, pos)
    else Failed
  }

  function ParseText(m: seq<Char>, pos: nat): (r: Result<Value>)
    requires pos <= |m|
    ensures r.Ok? ==> pos < r.pos <= |m|
  {
    var s := ParseString(m, pos);
    s.Map(t => Str(t))
  }

  function ParseArray(m: seq<Char>, pos: nat): (r: Result<Value>)
    requires pos < |m| && Block(m)
    ensures r.Ok? ==> pos < r.pos <= |m|
    decreases |m| - pos, 0
  {
    var p := Skip(m, pos + 1);
    if p == |m| then Stuck
    else if m[p] == RBRACKET then Ok(Array([]), p + 1)
    else
      var r := ParseItems(m, p);
      r.Map(items => Array(items))
  }

  /** The items from here on, up to the closing bracket. */
  function ParseItems(m: seq<Char>, pos: nat): (r: Result<seq<Value>>)
    requires pos <= |m| && Block(m)
    ensures r.Ok? ==> pos < r.pos <= |m|
    decreases |m| - pos, 2
  {
    var r := ParseValue(m, Skip(m, pos));
    if r.Failed? then Failed else if r.Stuck? then Stuck else Prepend([r.value], AfterItem(m, r.pos))
  }

  function AfterItem(m: seq<Char>, pos: nat): (r: Result<seq<Value>>)
    requires pos <= |m| && Block(m)
    ensures r.Ok? ==> pos < r.pos <= |m|
    decreases |m| - pos, 3
  {
    var q := Skip(m, pos);
    if q == |m| then Stuck
    else if m[q] == COMMA then ParseItems(m, q + 1)
    else if m[q] == RBRACKET then Ok([], q + 1)
    else Failed
  }

  function ParseObject(m: seq<Char>, pos: nat): (r: Result<Value>)
    requires pos < |m| && Block(m)
    ensures r.Ok? ==> pos < r.pos <= |m|
    decreases |m| - pos, 0
  {
    var p := Skip(m, pos + 1);
    if p == |m| then Stuck
    else if m[p] == RBRACE then Ok(Object([]), p + 1)
    else
      var r := ParseMembers(m, p);
      r.Map(members => Object(members))
  }

  /** A name, a colon, and a value. */
  function ParseMember(m: seq<Char>, pos: nat): (r: Result<Member>)
    requires pos <= |m| && Block(m)
    ensures r.Ok? ==> pos < r.pos <= |m|
    decreases |m| - pos, 2
  {
    var s := ParseString(m, Skip(m, pos));
    if s.Failed? then Failed else if s.Stuck? then Stuck
    else
      var p := Skip(m, s.pos);
      if p == |m| then Stuck
      else if m[p] != COLON then Failed
      else
        var r := ParseValue(m, Skip(m, p + 1));
        r.Map(v => Member(s.value, v))
  }

  function ParseMembers(m: seq<Char>, pos: nat): (r: Result<seq<Member>>)
    requires pos <= |m| && Block(m)
    ensures r.Ok? ==> pos < r.pos <= |m|
    decreases |m| - pos, 3
  {
    var r := ParseMember(m, pos);
    if r.Failed? then Failed else if r.Stuck? then Stuck else Prepend([r.value], AfterMember(m, r.pos))
  }

  function AfterMember(m: seq<Char>, pos: nat): (r: Result<seq<Member>>)
    requires pos <= |m| && Block(m)
    ensures r.Ok? ==> pos < r.pos <= |m|
    decreases |m| - pos, 4
  {
    var q := Skip(m, pos);
    if q == |m| then Stuck
    else if m[q] == COMMA then ParseMembers(m, q + 1)
    else if m[q] == RBRACE then Ok([], q + 1)
    else Failed
  }

  /** Leading blanks are passed over; whatever follows the value is ignored. */
  function Parse(m: seq<Char>): Result<Value>
    requires Block(m)
  {
    ParseValue(m, Skip(m, 0))
  }

  lemma PrependTwice<T>(a: seq<T>, b: seq<T>, r: Result<seq<T>>)
    ensures Prepend(a, Prepend(b, r)) == Prepend(a + b, r)
  {
    if r.Ok? { assert a + (b + r.value) == a + b + r.value; }
  }

  lemma PrependNone<T>(r: Result<seq<T>>)
    ensures Prepend([], r) == r
  {
    if r.Ok? { assert [] + r.value == r.value; }
  }

  /** What a list comes to, given how its next value is parsed. */
  lemma ItemsStep(m: seq<Char>, pos: nat)
    requires Block(m) && pos <= |m|
    ensures var r := ParseValue(m, Skip(m, pos));
            ParseItems(m, pos)
            == if r.Failed? then Failed else if r.Stuck? then Stuck
                else Prepend([r.value], AfterItem(m, Skip(m, r.pos)))
  {
    hide ParseValue;
    var r := ParseValue(m, Skip(m, pos));
    if r.Ok? { SkipAgain(m, r.pos); }
  }

  lemma MembersStep(m: seq<Char>, pos: nat)
    requires Block(m) && pos <= |m|
    ensures var r := ParseMember(m, pos);
            ParseMembers(m, pos)
            == if r.Failed? then Failed else if r.Stuck? then Stuck
                else Prepend([r.value], AfterMember(m, Skip(m, r.pos)))
  {
    hide ParseMember;
    var r := ParseMember(m, pos);
    if r.Ok? { SkipAgain(m, r.pos); }
  }

  lemma AfterItemAt(m: seq<Char>, q: nat)
    requires Block(m) && q <= |m| && (q < |m| ==> m[q] > 32)
    ensures AfterItem(m, q)
            == if q == |m| then Stuck else if m[q] == COMMA then ParseItems(m, q + 1) else if m[q] == RBRACKET
                then Ok([], q + 1) else Failed
  {
    hide ParseItems;
  }

  lemma AfterMemberAt(m: seq<Char>, q: nat)
    requires Block(m) && q <= |m| && (q < |m| ==> m[q] > 32)
    ensures AfterMember(m, q)
            == if q == |m| then Stuck else if m[q] == COMMA then ParseMembers(m, q + 1) else if m[q] == RBRACE
                then Ok([], q + 1) else Failed
  {
    hide ParseMembers;
  }

  /** What a list comes to behind a comma, with `done` in front. */
  lemma OneMoreItem(m: seq<Char>, done: seq<Value>, comma: nat)
    requires Block(m) && comma < |m| && m[comma] == COMMA
    ensures var r := ParseValue(m, Skip(m, comma + 1));
            Prepend(done, AfterItem(m, comma))
            == if r.Failed? then Failed else if r.Stuck? then Stuck
                else Prepend(done + [r.value], AfterItem(m, Skip(m, r.pos)))
  {
    hide ParseValue, ParseItems, AfterItem;
    var r := ParseValue(m, Skip(m, comma + 1));
    AfterItemAt(m, comma);
    ItemsStep(m, comma + 1);
    if r.Ok? { PrependTwice(done, [r.value], AfterItem(m, Skip(m, r.pos))); }
  }

  lemma OneMoreMember(m: seq<Char>, done: seq<Member>, comma: nat)
    requires Block(m) && comma < |m| && m[comma] == COMMA
    ensures var r := ParseMember(m, comma + 1);
            Prepend(done, AfterMember(m, comma))
            == if r.Failed? then Failed else if r.Stuck? then Stuck
                else Prepend(done + [r.value], AfterMember(m, Skip(m, r.pos)))
  {
    hide ParseMember, ParseMembers, AfterMember;
    var r := ParseMember(m, comma + 1);
    AfterMemberAt(m, comma);
    MembersStep(m, comma + 1);
    if r.Ok? { PrependTwice(done, [r.value], AfterMember(m, Skip(m, r.pos))); }
  }

  // ---------------------------------------------------------------- printing

  function Escape(c: Char): (r: seq<Char>)
    ensures |r| <= 2
  {
    if c > 31 && c != QUOTE && c != BACKSLASH then [c]
    else if c == BACKSLASH || c == QUOTE then [BACKSLASH, c]
    else if c == 8 then [BACKSLASH, 98]
    else if c == 12 then [BACKSLASH, 102]
    else if c == NL then [BACKSLASH, 110]
    else if c == CR then [BACKSLASH, 114]
    else if c == TAB then [BACKSLASH, 116]
    else []
  }

  function EscapeFrom(s: seq<Char>, i: nat): seq<Char>
    requires i <= |s|
    decreases |s| - i
  {
    if i == |s| then [] else Escape(s[i]) + EscapeFrom(s, i + 1)
  }

  function RenderString(s: seq<Char>): seq<Char> {
    [QUOTE] + (EscapeFrom(s, 0) + [QUOTE])
  }

  function Digits(n: nat): (r: seq<Char>)
    ensures r != [] && forall i :: 0 <= i < |r| ==> IsDigit(r[i])
  {
    var last: Char := n % 10 + 48;
    if n < 10 then [last] else Digits(n / 10) + [last]
  }

  function RenderNumber(n: int): seq<Char> {
    if n < 0 then [MINUS] + Digits(-n) else Digits(n)
  }

  function Tabs(n: nat): (r: seq<Char>)
    ensures |r| == n && forall i :: 0 <= i < n ==> r[i] == TAB
  {
    seq(n, i => TAB)
  }

  /** The blanks of the layout; none in compact text. */
  function Blanks(blanks: seq<Char>, ws: bool): seq<Char> {
    if ws then blanks else []
  }

  /** The text of a value: with the printer's layout, or compact. */
  function Render(v: Value, depth: nat, ws: bool): seq<Char>
    decreases v, 0, 0
  {
    match v
    case Null => NULL_TEXT
    case False => FALSE_TEXT
    case True => TRUE_TEXT
    case Number(n) => RenderNumber(n)
    case Str(s) => RenderString(s)
    case Array(items) => [LBRACKET] + (RenderItems(items, 0, depth + 1, ws) + [RBRACKET])
    case Object(members) =>
      [LBRACE] + (Blanks([NL], ws) + (RenderMembers(members, 0, depth + 1, ws) + (Blanks(Tabs(depth), ws) + [RBRACE])))
  }

  function RenderItems(items: seq<Value>, i: nat, depth: nat, ws: bool): seq<Char>
    requires i <= |items|
    decreases items, 0, |items| - i
  {
    if i == |items| then []
    else Render(items[i], depth, ws) + (Separator(i + 1 < |items|, ws) + RenderItems(items, i + 1, depth, ws))
  }

  function Separator(more: bool, ws: bool): seq<Char> {
    if more then [COMMA] + Blanks([SPACE], ws) else []
  }

  function RenderMembers(members: seq<Member>, i: nat, depth: nat, ws: bool): seq<Char>
    requires i <= |members|
    decreases members, 0, |members| - i
  {
    if i == |members| then []
    else RenderMember(members[i], i + 1 < |members|, depth, ws) + RenderMembers(members, i + 1, depth, ws)
  }

  function RenderMember(e: Member, more: bool, depth: nat, ws: bool): seq<Char>
    decreases e, 1, 0
  {
    Blanks(Tabs(depth), ws) + (RenderString(e.name) + (([COLON] + Blanks([TAB], ws)) + (Render(e.value, depth, ws)
      + ((if more then [COMMA] else []) + Blanks([NL], ws)))))
  }
}
