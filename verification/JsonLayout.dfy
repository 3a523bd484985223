/** How printed text is laid out, in the characters themselves, and how numbers are spelled. */
module JsonLayout {
  import opened Bytes
  import opened Json
  import opened JsonGrammar

  predicate Ascii(s: string) {
    forall i :: 0 <= i < |s| ==> s[i] as int < 128
  }

  function Chars(s: string): (t: seq<Char>)
    requires Ascii(s)
    ensures |t| == |s| && forall i :: 0 <= i < |s| ==> t[i] == s[i] as int
  {
    seq(|s|, i requires 0 <= i < |s| => s[i] as int)
  }

  /** A number is its decimal digits, without leading zeros, behind a minus sign if it is negative. */
  lemma NumberPrinted(n: int) returns (digits: seq<Char>)
    ensures RenderNumber(n) == if n < 0 then ['-' as int] + digits else digits
    ensures Decimal(digits) == if n < 0 then -n else n
    ensures if n == 0 then digits == ['0' as int] else digits != [] && IsDecimal(digits)
  {
    hide Decimal, IsDecimal, Digits;
    digits := Digits(if n < 0 then -n else n);
    DigitsDecimal(if n < 0 then -n else n);
  }

  lemma {:induction false} DigitsDecimal(n: nat)
    ensures Decimal(Digits(n)) == n
    ensures if n == 0 then Digits(n) == [48] else IsDecimal(Digits(n))
  {
    var d := Digits(n);
    if n < 10 {
      assert d == [n + 48] && d[..0] == [];
    } else {
      DigitsDecimal(n / 10);
      assert d == Digits(n / 10) + [n % 10 + 48] && d[..|d|-1] == Digits(n / 10);
      assert d[0] == Digits(n / 10)[0];
    }
  }

  // ---------------------------------------------------------------- layout

  lemma Marks()
    ensures Chars("[") == [LBRACKET] && Chars("]") == [RBRACKET]
    ensures Chars("{\n") == [LBRACE, NL] && Chars("}") == [RBRACE]
    ensures Chars(", ") == [COMMA, SPACE] && Chars(",\n") == [COMMA, NL] && Chars("\n") == [NL]
    ensures Chars(":\t") == [COLON, TAB] && Chars("\t") == [TAB]
  {
  }

  /** An array stands on one line, a comma and a blank between its items. */
  lemma ArrayPrinted(items: seq<Value>, depth: nat) returns (parts: seq<seq<Char>>)
    ensures Render(Array(items), depth, true) == Chars("[") + Flat(parts) + Chars("]")
    ensures |parts| == |items|
    ensures forall i :: 0 <= i < |items| ==>
              parts[i] == Render(items[i], depth + 1, true) + Chars(if i + 1 < |items| then ", " else "")
  {
    hide Chars, RenderItems, Flat;
    Marks();
    parts := ItemsPrinted(items, 0, depth + 1);
    assert items[0..] == items;
    Regroup([LBRACKET], Flat(parts), [RBRACKET]);
  }

  lemma {:induction false} ItemsPrinted(items: seq<Value>, k: nat, depth: nat) returns (parts: seq<seq<Char>>)
    requires k <= |items|
    ensures RenderItems(items, k, depth, true) == Flat(parts) && |parts| == |items| - k
    ensures forall i :: k <= i < |items| ==>
              parts[i-k] == Render(items[i], depth, true) + Chars(if i + 1 < |items| then ", " else "")
    decreases |items| - k
  {
    hide Render;
    if k == |items| {
      parts := [];
    } else {
      var rest := ItemsPrinted(items, k + 1, depth);
      var part := Render(items[k], depth, true) + Chars(if k + 1 < |items| then ", " else "");
      parts := [part] + rest;
      assert parts[1..] == rest;
      Marks();
      assert Separator(k + 1 < |items|, true) == Chars(if k + 1 < |items| then ", " else "");
      Regroup(Render(items[k], depth, true), Separator(k + 1 < |items|, true), Flat(rest));
    }
  }

  /** The line of a member. */
  function MemberLine(e: Member, more: bool, depth: nat): seq<Char> {
    Tabs(depth) + RenderString(e.name) + Chars(":\t") + Render(e.value, depth, true)
    + Chars(if more then ",\n" else "\n")
  }

  /** An object's members have a line each, one tab deeper than the object; a tab stands between name and value. */
  lemma ObjectPrinted(members: seq<Member>, depth: nat) returns (lines: seq<seq<Char>>)
    ensures Render(Object(members), depth, true) == Chars("{\n") + Flat(lines) + Tabs(depth) + Chars("}")
    ensures |lines| == |members|
    ensures forall i :: 0 <= i < |members| ==> lines[i] == MemberLine(members[i], i + 1 < |members|, depth + 1)
  {
    hide Chars, RenderMembers, Flat, MemberLine, Tabs;
    Marks();
    lines := MembersPrinted(members, 0, depth + 1);
    var tabs := Tabs(depth);
    FourParts([LBRACE], [NL], Flat(lines), tabs, [RBRACE]);
  }

  lemma FourParts(a: seq<Char>, b: seq<Char>, c: seq<Char>, d: seq<Char>, e: seq<Char>)
    ensures a + (b + (c + (d + e))) == (a + b) + c + d + e
  {
  }

  lemma {:induction false} MembersPrinted(members: seq<Member>, k: nat, depth: nat) returns (lines: seq<seq<Char>>)
    requires k <= |members|
    ensures RenderMembers(members, k, depth, true) == Flat(lines) && |lines| == |members| - k
    ensures forall i :: k <= i < |members| ==> lines[i-k] == MemberLine(members[i], i + 1 < |members|, depth)
    decreases |members| - k
  {
    hide MemberLine, RenderMember;
    if k == |members| {
      lines := [];
    } else {
      var rest := MembersPrinted(members, k + 1, depth);
      MemberPrinted(members[k], k + 1 < |members|, depth);
      lines := [MemberLine(members[k], k + 1 < |members|, depth)] + rest;
      assert lines[1..] == rest;
    }
  }

  lemma MemberPrinted(e: Member, more: bool, depth: nat)
    ensures RenderMember(e, more, depth, true) == MemberLine(e, more, depth)
  {
    hide Render, RenderString, Tabs, Chars;
    Marks();
    var comma: seq<Char> := if more then [COMMA] else [];
    assert comma + [NL] == Chars(if more then ",\n" else "\n");
    assert [COLON] + [TAB] == Chars(":\t");
    FourParts(Tabs(depth), RenderString(e.name), [COLON] + [TAB], Render(e.value, depth, true), comma + [NL]);
  }
}
