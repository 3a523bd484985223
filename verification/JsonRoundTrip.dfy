/** What comes back when a printed value is parsed, and when it is the value that was printed. */
module JsonRoundTrip {
  import opened Bytes
  import opened Json

  // ---------------------------------------------------------------- what comes back

  /** The characters that printing does not drop. */
  predicate Kept(c: Char) {
    c > 31 || c == 8 || c == 12 || c == NL || c == CR || c == TAB
  }

  function KeptFrom(s: seq<Char>, i: nat): (r: seq<Char>)
    requires i <= |s|
    ensures |r| <= |s| - i
    decreases |s| - i
  {
    if i == |s| then []
    else if Kept(s[i]) then [s[i]] + KeptFrom(s, i + 1)
    else KeptFrom(s, i + 1)
  }

  function Magnitude(n: int): int {
    if n < 0 then -n else n
  }

  /** Strings without what printing drops; numbers without their sign, in 32 bits. */
  function Clean(v: Value): Value
    decreases v, 0, 0
  {
    match v
    case Number(n) => Number(Wrap(Magnitude(n)))
    case Str(s) => Str(KeptFrom(s, 0))
    case Array(items) => Array(CleanItems(items, 0))
    case Object(members) => Object(CleanMembers(members, 0))
    case _ => v
  }

  function CleanItems(items: seq<Value>, i: nat): (r: seq<Value>)
    requires i <= |items|
    ensures |r| == |items| - i && forall k :: 0 <= k < |r| ==> r[k] == Clean(items[i+k])
    decreases items, 0, |items| - i
  {
    if i == |items| then [] else [Clean(items[i])] + CleanItems(items, i + 1)
  }

  function CleanMember(e: Member): Member
    decreases e, 1, 0
  {
    Member(KeptFrom(e.name, 0), Clean(e.value))
  }

  function CleanMembers(members: seq<Member>, i: nat): (r: seq<Member>)
    requires i <= |members|
    ensures |r| == |members| - i && forall k :: 0 <= k < |r| ==> r[k] == CleanMember(members[i+k])
    decreases members, 0, |members| - i
  {
    if i == |members| then [] else [CleanMember(members[i])] + CleanMembers(members, i + 1)
  }

  /** Numbers are C ints. */
  predicate Held(v: Value)
    decreases v, 0
  {
    match v
    case Number(n) => -0x8000_0000 <= n < 0x8000_0000
    case Array(items) => AllHeld(items)
    case Object(members) => AllMembersHeld(members)
    case _ => true
  }

  predicate AllHeld(items: seq<Value>)
    decreases items, 1
  {
    forall i :: 0 <= i < |items| ==> Held(items[i])
  }

  predicate AllMembersHeld(members: seq<Member>)
    decreases members, 1
  {
    forall i :: 0 <= i < |members| ==> Held(members[i].value)
  }

  // ---------------------------------------------------------------- blanks

  ghost predicate Blank(s: seq<Char>) {
    forall i :: 0 <= i < |s| ==> s[i] <= 32
  }

  lemma {:induction false} SkipsBlanks(m: seq<Char>, pos: nat, blanks: seq<Char>)
    requires Stands(m, pos, blanks) && Blank(blanks)
    requires pos + |blanks| < |m| && m[pos+|blanks|] > 32
    ensures Skip(m, pos) == pos + |blanks|
    decreases |blanks|
  {
    if blanks != [] {
      StandsAt(m, pos, blanks, 0);
      StandsSplit(m, pos, blanks[..1], blanks[1..]) by { assert blanks == blanks[..1] + blanks[1..]; }
      SkipsBlanks(m, pos + 1, blanks[1..]);
    }
  }

  // ---------------------------------------------------------------- strings

  lemma EscapeBack(m: seq<Char>, i: nat, c: Char)
    requires Stands(m, i, Escape(c)) && i + |Escape(c)| < |m|
    ensures ParseChars(m, i) == Prepend(if Kept(c) then [c] else [], ParseChars(m, i + |Escape(c)|))
  {
    if Escape(c) != [] { StandsAt(m, i, Escape(c), 0); }
    if |Escape(c)| == 2 { StandsAt(m, i, Escape(c), 1); }
    PrependNone(ParseChars(m, i + |Escape(c)|));
  }

  lemma {:induction false} CharsBack(m: seq<Char>, pos: nat, s: seq<Char>, i: nat)
    requires i <= |s| && Stands(m, pos, EscapeFrom(s, i) + [QUOTE])
    ensures ParseChars(m, pos) == Ok(KeptFrom(s, i), pos + |EscapeFrom(s, i)| + 1)
    decreases |s| - i
  {
    hide Stands, Escape, Kept;
    if i == |s| {
      StandsSplit(m, pos, [], [QUOTE]);
      StandsAt(m, pos, [QUOTE], 0);
    } else {
      var rest := EscapeFrom(s, i + 1) + [QUOTE];
      assert EscapeFrom(s, i) + [QUOTE] == Escape(s[i]) + rest;
      StandsSplit(m, pos, Escape(s[i]), rest);
      EscapeBack(m, pos, s[i]);
      PrependNone(ParseChars(m, pos + |Escape(s[i])|));
      CharsBack(m, pos + |Escape(s[i])|, s, i + 1);
    }
  }

  lemma {:induction false} KeptNulFree(s: seq<Char>, i: nat)
    requires i <= |s|
    ensures BeforeNul(KeptFrom(s, i)) == KeptFrom(s, i)
    decreases |s| - i
  {
    if i < |s| {
      KeptNulFree(s, i + 1);
      if Kept(s[i]) { assert KeptFrom(s, i)[1..] == KeptFrom(s, i + 1); }
    }
  }

  lemma StringBack(m: seq<Char>, pos: nat, s: seq<Char>)
    requires Stands(m, pos, RenderString(s))
    ensures pos <= |m| && ParseString(m, pos) == Ok(KeptFrom(s, 0), pos + |RenderString(s)|)
  {
    StandsSplit(m, pos, [QUOTE], EscapeFrom(s, 0) + [QUOTE]);
    StandsAt(m, pos, [QUOTE], 0);
    CharsBack(m, pos + 1, s, 0);
    KeptNulFree(s, 0);
  }

  // ---------------------------------------------------------------- numbers

  lemma WrapStep(n: nat)
    requires n <= 0x8000_0000
    ensures Wrap(Wrap(n / 10) * 10 + n % 10) == Wrap(n)
  {
  }

  lemma {:induction false} DigitsBack(m: seq<Char>, pos: nat, n: nat)
    requires Block(m) && n <= 0x8000_0000 && Stands(m, pos, Digits(n))
    ensures pos <= |m| && ParseDigits(m, pos, 0) == ParseDigits(m, pos + |Digits(n)|, Wrap(n))
    decreases n
  {
    hide Stands, Wrap;
    var last: Char := n % 10 + 48;
    if n < 10 {
      assert Wrap(n) == Wrap(0 * 10 + n);
      StandsAt(m, pos, Digits(n), 0);
    } else {
      StandsSplit(m, pos, Digits(n / 10), [last]);
      DigitsBack(m, pos, n / 10);
      WrapStep(n);
      StandsAt(m, pos + |Digits(n / 10)|, [last], 0);
    }
  }

  lemma {:induction false} FirstDigit(n: nat)
    requires n > 0
    ensures Digits(n)[0] != ZERO
    decreases n
  {
    if n >= 10 { FirstDigit(n / 10); }
  }

  lemma NumberBack(m: seq<Char>, pos: nat, n: int)
    requires Block(m) && -0x8000_0000 <= n < 0x8000_0000 && Stands(m, pos, RenderNumber(n))
    requires var end := pos + |RenderNumber(n)|; end < |m| && !IsDigit(m[end])
    ensures pos < |m| && (m[pos] == MINUS || IsDigit(m[pos]))
    ensures ParseNumber(m, pos) == Ok(Number(Wrap(Magnitude(n))), pos + |RenderNumber(n)|)
  {
    var k := Magnitude(n);
    var at := if n < 0 then pos + 1 else pos;
    if n < 0 {
      StandsSplit(m, pos, [MINUS], Digits(k));
      StandsAt(m, pos, [MINUS], 0);
    }
    StandsAt(m, at, Digits(k), 0);
    DigitsBack(m, at, k);
    if k > 0 { FirstDigit(k); }
  }

  // ---------------------------------------------------------------- values

  /** Every rendered value starts with a character that is not blank and does not close a bracket. */
  lemma RenderStarts(v: Value, depth: nat, ws: bool)
    ensures var t := Render(v, depth, ws); t != [] && t[0] > 32 && t[0] != RBRACKET
  {
  }

  lemma NotWord(m: seq<Char>, pos: nat, word: seq<Char>)
    requires pos < |m| && word != [] && m[pos] != word[0]
    ensures !StartsWith(m, pos, word)
  {
    if pos + |word| <= |m| { assert m[pos..pos+|word|][0] == m[pos]; }
  }

  /** A value that starts like no word is parsed by its first character. */
  lemma Dispatch(m: seq<Char>, pos: nat)
    requires Block(m) && pos < |m| && m[pos] != 110 && m[pos] != 102 && m[pos] != 116
    ensures ParseValue(m, pos)
            == if m[pos] == QUOTE then ParseText(m, pos)
               else if m[pos] == MINUS || IsDigit(m[pos]) then ParseNumber(m, pos)
               else if m[pos] == LBRACKET then ParseArray(m, pos)
               else if m[pos] == LBRACE then ParseObject(m, pos)
               else Failed
  {
    NotWord(m, pos, NULL_TEXT);
    NotWord(m, pos, FALSE_TEXT);
    NotWord(m, pos, TRUE_TEXT);
  }

  lemma WordBack(m: seq<Char>, pos: nat, v: Value)
    requires v.Null? || v.False? || v.True?
    requires Block(m) && Stands(m, pos, Render(v, 0, true))
    ensures pos <= |m| && ParseValue(m, pos) == Ok(v, pos + |Render(v, 0, true)|)
  {
    var word := Render(v, 0, true);
    StandsSlice(m, pos, word);
    StandsAt(m, pos, word, 0);
    if !v.Null? { NotWord(m, pos, NULL_TEXT); }
    if v.True? { NotWord(m, pos, FALSE_TEXT); }
  }

  /** The printed or compact text of a value is parsed to its clean form, and parsing ends right behind it. */
  lemma {:induction false} ValueBack(m: seq<Char>, pos: nat, v: Value, depth: nat, ws: bool)
    requires Block(m) && Held(v) && Stands(m, pos, Render(v, depth, ws))
    requires var end := pos + |Render(v, depth, ws)|; end < |m| && !IsDigit(m[end])
    ensures ParseValue(m, pos) == Ok(Clean(v), pos + |Render(v, depth, ws)|)
    decreases v, 0, 0
  {
    match v
    case Number(n) =>
      NumberBack(m, pos, n);
      Dispatch(m, pos);
    case Str(s) =>
      StandsAt(m, pos, RenderString(s), 0);
      StringBack(m, pos, s);
      Dispatch(m, pos);
    case Array(items) =>
      ArrayBack(m, pos, items, depth, ws);
    case Object(members) =>
      ObjectBack(m, pos, members, depth, ws);
    case _ =>
      WordBack(m, pos, v);
  }

  lemma {:induction false} ArrayBack(m: seq<Char>, pos: nat, items: seq<Value>, depth: nat, ws: bool)
    requires Block(m) && AllHeld(items) && Stands(m, pos, Render(Array(items), depth, ws))
    ensures ParseValue(m, pos) == Ok(Array(CleanItems(items, 0)), pos + |Render(Array(items), depth, ws)|)
    decreases items, 1, 0
  {
    hide Stands, ParseValue, ParseItems, RenderItems;
    var inner := RenderItems(items, 0, depth + 1, ws);
    StandsSplit(m, pos, [LBRACKET], inner + [RBRACKET]);
    StandsAt(m, pos, [LBRACKET], 0);
    Dispatch(m, pos);
    if items == [] {
      NoItems(items, depth + 1, ws);
      StandsSplit(m, pos + 1, [], [RBRACKET]);
      StandsAt(m, pos + 1, [RBRACKET], 0);
    } else {
      ItemsStart(m, pos + 1, items, 0, depth + 1, ws);
      ItemsBack(m, pos + 1, pos + 1, items, 0, depth + 1, ws);
    }
  }

  lemma ItemsStart(m: seq<Char>, start: nat, items: seq<Value>, i: nat, depth: nat, ws: bool)
    requires i < |items| && Stands(m, start, RenderItems(items, i, depth, ws) + [RBRACKET])
    ensures start < |m| && m[start] > 32 && m[start] != RBRACKET
  {
    RenderStarts(items[i], depth, ws);
    StandsAt(m, start, RenderItems(items, i, depth, ws) + [RBRACKET], 0);
  }

  lemma FirstItem(items: seq<Value>, i: nat, depth: nat, ws: bool)
    requires i < |items|
    ensures RenderItems(items, i, depth, ws)
            == Render(items[i], depth, ws) + (Separator(i + 1 < |items|, ws) + RenderItems(items, i + 1, depth, ws))
  {
  }

  lemma ItemStands(m: seq<Char>, start: nat, items: seq<Value>, i: nat, depth: nat, ws: bool)
    requires i < |items| && Stands(m, start, RenderItems(items, i, depth, ws) + [RBRACKET])
    ensures var text, sep := Render(items[i], depth, ws), Separator(i + 1 < |items|, ws);
            var end := start + |text|;
            && Stands(m, start, text) && Stands(m, end, sep) && end < |m|
            && m[end] == (if i + 1 < |items| then COMMA else RBRACKET)
            && Stands(m, end + |sep|, RenderItems(items, i + 1, depth, ws) + [RBRACKET])
            && |RenderItems(items, i, depth, ws)| == |text| + |sep| + |RenderItems(items, i + 1, depth, ws)|
  {
    hide Render, RenderItems, Stands;
    var text, sep := Render(items[i], depth, ws), Separator(i + 1 < |items|, ws);
    var more := RenderItems(items, i + 1, depth, ws);
    var rest := more + [RBRACKET];
    FirstItem(items, i, depth, ws);
    Regroup(text, sep + more, [RBRACKET]);
    Regroup(sep, more, [RBRACKET]);
    if i + 1 == |items| { NoItems(items, depth, ws); }
    StandsSplit(m, start, text, sep + rest);
    StandsSplit(m, start + |text|, sep, rest);
    StandsAt(m, start + |text|, sep + rest, 0);
  }

  lemma {:induction false} ItemsBack(m: seq<Char>, pos: nat, start: nat, items: seq<Value>, i: nat, depth: nat,
                                     ws: bool)
    requires Block(m) && i < |items| && AllHeld(items) && pos <= |m| && Skip(m, pos) == start
    requires Stands(m, start, RenderItems(items, i, depth, ws) + [RBRACKET])
    ensures ParseItems(m, pos) == Ok(CleanItems(items, i), start + |RenderItems(items, i, depth, ws)| + 1)
    decreases items, 0, |items| - i
  {
    hide ParseValue, ParseItems, AfterItem, Render, RenderItems, Stands, Held, Clean;
    ItemStands(m, start, items, i, depth, ws);
    ValueBack(m, start, items[i], depth, ws);
    var end := start + |Render(items[i], depth, ws)|;
    ItemsStep(m, pos);
    AfterItemAt(m, end);
    if i + 1 < |items| {
      var next := end + |Separator(true, ws)|;
      ItemsStart(m, next, items, i + 1, depth, ws);
      StandsSplit(m, end, [COMMA], Blanks([SPACE], ws));
      SkipsBlanks(m, end + 1, Blanks([SPACE], ws));
      ItemsBack(m, end + 1, next, items, i + 1, depth, ws);
    } else {
      NoItems(items, depth, ws);
      assert CleanItems(items, i) == [Clean(items[i])];
    }
  }

  lemma NoItems(items: seq<Value>, depth: nat, ws: bool)
    ensures RenderItems(items, |items|, depth, ws) == []
  {
  }

  lemma {:induction false} ObjectBack(m: seq<Char>, pos: nat, members: seq<Member>, depth: nat, ws: bool)
    requires Block(m) && AllMembersHeld(members) && Stands(m, pos, Render(Object(members), depth, ws))
    ensures ParseValue(m, pos) == Ok(Object(CleanMembers(members, 0)), pos + |Render(Object(members), depth, ws)|)
    decreases members, 1, 0, 0
  {
    hide ParseValue, ParseMembers, RenderMembers, Stands, Skip, Held, CleanMembers, Blanks;
    var nl, inner, close := Blanks([NL], ws), RenderMembers(members, 0, depth + 1, ws), Closing(depth, ws);
    StandsSplit(m, pos, [LBRACE], nl + (inner + close));
    StandsAt(m, pos, [LBRACE], 0);
    StandsSplit(m, pos + 1, nl, inner + close);
    Dispatch(m, pos);
    var start := pos + 1 + |nl|;
    if members == [] {
      assert inner == [] by { MembersEnd(members, depth + 1, ws, close); }
      StandsSplit(m, start, inner, close);
      ClosingSkipped(m, pos + 1, nl, depth, ws);
    } else {
      MembersStart(m, pos + 1, nl, members, 0, depth + 1, ws, close);
      var first := start + |Blanks(Tabs(depth + 1), ws)|;
      SkipAgain(m, pos + 1);
      MembersBack(m, first, start, members, 0, depth + 1, ws);
    }
  }

  /** The layout before a closing brace, and the brace. */
  function Closing(depth: nat, ws: bool): seq<Char> {
    Blanks(Tabs(depth), ws) + [RBRACE]
  }

  lemma ClosingSkipped(m: seq<Char>, pos: nat, nl: seq<Char>, depth: nat, ws: bool)
    requires nl == Blanks([NL], ws) && Stands(m, pos, nl) && Stands(m, pos + |nl|, Closing(depth, ws))
    ensures var p := pos + |nl| + |Blanks(Tabs(depth), ws)|; p < |m| && m[p] == RBRACE && Skip(m, pos) == p
  {
    var tabs := Blanks(Tabs(depth), ws);
    StandsSplit(m, pos + |nl|, tabs, [RBRACE]);
    StandsAt(m, pos + |nl| + |tabs|, [RBRACE], 0);
    StandsJoin(m, pos, nl, tabs);
    SkipsBlanks(m, pos, nl + tabs);
  }

  lemma StandsJoin<T>(m: seq<T>, i: nat, a: seq<T>, b: seq<T>)
    requires Stands(m, i, a) && Stands(m, i + |a|, b)
    ensures Stands(m, i, a + b)
  {
    forall x | 0 <= x < |a + b| ensures i + x < |m| && m[i+x] == (a + b)[x] {
      if x >= |a| { assert m[i+|a|+(x-|a|)] == b[x-|a|]; }
    }
  }

  /** What follows the value of a member. */
  function After(more: bool, ws: bool): seq<Char> {
    (if more then [COMMA] else []) + Blanks([NL], ws)
  }

  /** The pieces of a member in place, up to whatever follows its value. */
  lemma MemberStands(m: seq<Char>, start: nat, members: seq<Member>, i: nat, depth: nat, ws: bool, tail: seq<Char>)
    requires i < |members| && Stands(m, start, RenderMembers(members, i, depth, ws) + tail)
    ensures var e, tabs, after := members[i], Blanks(Tabs(depth), ws), After(i + 1 < |members|, ws);
            var rest := RenderMembers(members, i + 1, depth, ws) + tail;
            var name, colon, text := RenderString(e.name), [COLON] + Blanks([TAB], ws), Render(e.value, depth, ws);
            && Stands(m, start, tabs) && Stands(m, start + |tabs|, name + (colon + (text + (after + rest))))
            && |RenderMembers(members, i, depth, ws)|
               == |tabs| + |name| + |colon| + |text| + |after| + |RenderMembers(members, i + 1, depth, ws)|
  {
    hide RenderString, Render, Stands;
    var e, tabs, after := members[i], Blanks(Tabs(depth), ws), After(i + 1 < |members|, ws);
    var rest := RenderMembers(members, i + 1, depth, ws);
    var name, colon, text := RenderString(e.name), [COLON] + Blanks([TAB], ws), Render(e.value, depth, ws);
    assert RenderMembers(members, i, depth,
        ws) + tail == tabs + (name + (colon + (text + (after + (rest + tail))))) by {
      assert RenderMember(e, i + 1 < |members|, depth, ws) == tabs + (name + (colon + (text + after)));
    }
    StandsSplit(m, start, tabs, name + (colon + (text + (after + (rest + tail)))));
  }

  /** A name comes after the layout in front of it. */
  lemma MembersStart(m: seq<Char>, pos: nat, nl: seq<Char>, members: seq<Member>, i: nat, depth: nat, ws: bool,
                     tail: seq<Char>)
    requires i < |members| && nl == Blanks([NL], ws) && Stands(m, pos, nl)
    requires Stands(m, pos + |nl|, RenderMembers(members, i, depth, ws) + tail)
    ensures var p := pos + |nl| + |Blanks(Tabs(depth), ws)|; p < |m| && m[p] == QUOTE && Skip(m, pos) == p
  {
    hide RenderString, Render, RenderMembers;
    var e, tabs := members[i], Blanks(Tabs(depth), ws);
    MemberStands(m, pos + |nl|, members, i, depth, ws, tail);
    var rest := After(i + 1 < |members|, ws) + (RenderMembers(members, i + 1, depth, ws) + tail);
    StandsSplit(m, pos + |nl| + |tabs|, RenderString(e.name),
        ([COLON] + Blanks([TAB], ws)) + (Render(e.value, depth, ws) + rest));
    NameStarts(m, pos + |nl| + |tabs|, e.name);
    StandsJoin(m, pos, nl, tabs);
    SkipsBlanks(m, pos, nl + tabs);
  }

  lemma NameStarts(m: seq<Char>, pos: nat, s: seq<Char>)
    requires Stands(m, pos, RenderString(s))
    ensures pos < |m| && m[pos] == QUOTE
  {
    StandsAt(m, pos, RenderString(s), 0);
  }

  /** A member is parsed up to the end of its value. */
  lemma {:induction false} MemberBack(m: seq<Char>, pos: nat, e: Member, after: seq<Char>, depth: nat, ws: bool)
    requires Block(m) && Held(e.value) && after != [] && !IsDigit(after[0])
    requires Stands(m, pos, RenderString(e.name) + (([COLON] + Blanks([TAB], ws)) + (Render(e.value, depth,
             ws) + after)))
    ensures var end := pos + |RenderString(e.name)| + 1 + |Blanks([TAB], ws)| + |Render(e.value, depth, ws)|;
            ParseMember(m, pos) == Ok(CleanMember(e), end) && Stands(m, end, after)
    decreases e, 1, 0
  {
    hide ParseValue, ParseString, RenderString;
    var name, tab, text := RenderString(e.name), Blanks([TAB], ws), Render(e.value, depth, ws);
    StandsSplit(m, pos, name, ([COLON] + tab) + (text + after));
    NameStarts(m, pos, e.name);
    StringBack(m, pos, e.name);
    var p := pos + |name|;
    StandsSplit(m, p, [COLON] + tab, text + after);
    StandsSplit(m, p, [COLON], tab);
    StandsAt(m, p, [COLON], 0);
    var q := p + 1 + |tab|;
    StandsSplit(m, q, text, after);
    StandsAt(m, q + |text|, after, 0);
    RenderStarts(e.value, depth, ws);
    StandsAt(m, q, text, 0);
    SkipsBlanks(m, p + 1, tab);
    ValueBack(m, q, e.value, depth, ws);
  }

  /** The length of a member up to the end of its value. */
  function MemberSize(e: Member, depth: nat, ws: bool): nat {
    |Blanks(Tabs(depth), ws)| + |RenderString(e.name)| + 1 + |Blanks([TAB], ws)| + |Render(e.value, depth, ws)|
  }

  /** No digit follows the value of a member. */
  lemma AfterStarts(members: seq<Member>, i: nat, depth: nat, ws: bool, tail: seq<Char>)
    requires i < |members| && tail != [] && !IsDigit(tail[0])
    ensures var t := After(i + 1 < |members|, ws) + (RenderMembers(members, i + 1, depth, ws) + tail);
            t != [] && !IsDigit(t[0])
  {
    if i + 1 == |members| { assert RenderMembers(members, i + 1, depth, ws) + tail == tail; }
  }

  /** The next member is parsed, and what follows it is in place. */
  lemma {:induction false} NextMember(m: seq<Char>, pos: nat, start: nat, members: seq<Member>, i: nat, depth: nat,
                                      ws: bool, tail: seq<Char>)
    requires Block(m) && i < |members| && Held(members[i].value) && tail != [] && !IsDigit(tail[0])
    requires pos <= |m| && Skip(m, pos) == start + |Blanks(Tabs(depth), ws)|
    requires Stands(m, start, RenderMembers(members, i, depth, ws) + tail)
    ensures var more, end := i + 1 < |members|, start + MemberSize(members[i], depth, ws);
            && ParseMember(m, pos) == Ok(CleanMember(members[i]), end) && Stands(m, end, After(more, ws))
            && Stands(m, end + |After(more, ws)|, RenderMembers(members, i + 1, depth, ws) + tail)
            && |RenderMembers(members, i, depth, ws)|
               == MemberSize(members[i], depth, ws) + |After(more, ws)| + |RenderMembers(members, i + 1, depth, ws)|
    decreases members, 0, |members| - i, 0
  {
    hide ParseMember, RenderString, Render, Stands, CleanMember, RenderMembers, Held;
    var e, after := members[i], After(i + 1 < |members|, ws);
    var rest := RenderMembers(members, i + 1, depth, ws) + tail;
    MemberStands(m, start, members, i, depth, ws, tail);
    AfterStarts(members, i, depth, ws, tail);
    MemberBack(m, start + |Blanks(Tabs(depth), ws)|, e, after + rest, depth, ws);
    MemberSkips(m, pos);
    StandsSplit(m, start + MemberSize(e, depth, ws), after, rest);
  }

  lemma {:induction false} MembersBack(m: seq<Char>, pos: nat, start: nat, members: seq<Member>, i: nat, depth: nat,
                                       ws: bool)
    requires Block(m) && i < |members| && AllMembersHeld(members) && depth > 0
    requires pos <= |m| && Skip(m, pos) == start + |Blanks(Tabs(depth), ws)|
    requires Stands(m, start, RenderMembers(members, i, depth, ws) + Closing(depth - 1, ws))
    ensures ParseMembers(m, pos)
            == Ok(CleanMembers(members, i), start + |RenderMembers(members, i, depth, ws)| + |Closing(depth - 1, ws)|)
    decreases members, 0, |members| - i, 1
  {
    hide Blanks, ParseMember, ParseMembers, AfterMember, RenderMembers, MemberSize, Stands, Skip;
    var e, nl, close := members[i], Blanks([NL], ws), Closing(depth - 1, ws);
    MembersEnd(members, depth, ws, close);
    NextMember(m, pos, start, members, i, depth, ws, close);
    MembersStep(m, pos);
    var end := start + MemberSize(e, depth, ws);
    if i + 1 < |members| {
      StandsSplit(m, end, [COMMA], nl);
      StandsAt(m, end, [COMMA], 0);
      SkipNothing(m, end);
      AfterMemberAt(m, end);
      MembersStart(m, end + 1, nl, members, i + 1, depth, ws, close);
      MembersBack(m, end + 1, end + 1 + |nl|, members, i + 1, depth, ws);
      assert CleanMembers(members, i) == [CleanMember(e)] + CleanMembers(members, i + 1);
    } else {
      assert After(false, ws) == nl && RenderMembers(members, i + 1, depth, ws) + close == close;
      ClosingSkipped(m, end, nl, depth - 1, ws);
      AfterMemberAt(m, Skip(m, end));
      assert CleanMembers(members, i) == [CleanMember(e)];
    }
  }

  lemma MemberSkips(m: seq<Char>, pos: nat)
    requires Block(m) && pos <= |m|
    ensures ParseMember(m, pos) == ParseMember(m, Skip(m, pos))
  {
    hide ParseValue, ParseString;
    SkipAgain(m, pos);
  }

  lemma MembersEnd(members: seq<Member>, depth: nat, ws: bool, close: seq<Char>)
    requires depth > 0 && close == Closing(depth - 1, ws)
    ensures RenderMembers(members, |members|, depth, ws) == []
    ensures close != [] && !IsDigit(close[0])
  {
  }

  // ---------------------------------------------------------------- when it is the same value

  predicate AllKept(s: seq<Char>) {
    forall i :: 0 <= i < |s| ==> Kept(s[i])
  }

  /** No character is dropped, no number is negative but the one whose magnitude wraps around to it. */
  predicate Faithful(v: Value)
    decreases v, 0
  {
    match v
    case Number(n) => n >= 0 || n == -0x8000_0000
    case Str(s) => AllKept(s)
    case Array(items) => AllFaithful(items)
    case Object(members) => AllMembersFaithful(members)
    case _ => true
  }

  predicate AllFaithful(items: seq<Value>)
    decreases items, 1
  {
    forall i :: 0 <= i < |items| ==> Faithful(items[i])
  }

  predicate AllMembersFaithful(members: seq<Member>)
    decreases members, 1
  {
    forall i :: 0 <= i < |members| ==> AllKept(members[i].name) && Faithful(members[i].value)
  }

  lemma {:induction false} KeepsAll(s: seq<Char>, i: nat)
    requires i <= |s|
    ensures KeptFrom(s, i) == s[i..] <==> forall k :: i <= k < |s| ==> Kept(s[k])
    decreases |s| - i
  {
    if i < |s| {
      KeepsAll(s, i + 1);
      assert s[i..] == [s[i]] + s[i+1..];
      if Kept(s[i]) {
        assert KeptFrom(s, i)[1..] == KeptFrom(s, i + 1) && s[i..][1..] == s[i+1..];
      }
    }
  }

  lemma KeepsText(s: seq<Char>)
    ensures KeptFrom(s, 0) == s <==> AllKept(s)
  {
    KeepsAll(s, 0);
    assert s[0..] == s;
  }

  lemma {:induction false} CleanExactly(v: Value)
    requires Held(v)
    ensures Clean(v) == v <==> Faithful(v)
    decreases v
  {
    match v
    case Str(s) => KeepsText(s);
    case Array(items) =>
      forall i | 0 <= i < |items| ensures Clean(items[i]) == items[i] <==> Faithful(items[i]) {
        CleanExactly(items[i]);
      }
      var r := CleanItems(items, 0);
      assert r == items <==> forall i :: 0 <= i < |items| ==> Clean(items[i]) == items[i];
    case Object(members) =>
      forall i | 0 <= i < |members|
        ensures CleanMember(members[i]) == members[i] <==> AllKept(members[i].name) && Faithful(members[i].value)
      {
        KeepsText(members[i].name);
        CleanExactly(members[i].value);
      }
      var r := CleanMembers(members, 0);
      assert r == members <==> forall i :: 0 <= i < |members| ==> CleanMember(members[i]) == members[i];
    case _ =>
  }

  /**
   The text of a value in memory, with its NUL, is parsed to the last character: to the clean value, which is the
   value exactly when it is faithful.
   */
  lemma TextBack(v: Value, ws: bool)
    requires Held(v)
    ensures var m := Render(v, 0, ws) + [0];
            && Parse(m) == Ok(Clean(v), |m| - 1)
            && (Parse(m) == Ok(v, |m| - 1) <==> Faithful(v))
  {
    var t := Render(v, 0, ws);
    var m := t + [0];
    RenderStarts(v, 0, ws);
    assert Stands(m, 0, t);
    ValueBack(m, 0, v, 0, ws);
    CleanExactly(v);
  }
}
