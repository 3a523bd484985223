/**
 Exactly when minifying printed text gives the compact text. A string that ends
 in a backslash keeps minifying inside, so that the layout behind it stays: it
 may only be the last thing there is, with nothing but brackets to follow.
 */
module JsonCompact {
  import opened Bytes
  import opened Json
  import opened JsonRoundTrip
  import opened JsonMinify

  /** Nothing with layout behind it ends in a backslash; `last` tells whether only brackets follow. */
  predicate Minifiable(v: Value, last: bool)
    decreases v, 0, 0
  {
    match v
    case Str(s) => last || !EndsInBackslash(s)
    case Array(items) => ItemsMinifiable(items, 0, last)
    case Object(members) => AllMembersMinifiable(members)
    case _ => true
  }

  predicate ItemsMinifiable(items: seq<Value>, i: nat, last: bool)
    requires i <= |items|
    decreases items, 0, |items| - i
  {
    i == |items| || (Minifiable(items[i], last && i + 1 == |items|) && ItemsMinifiable(items, i + 1, last))
  }

  predicate MembersMinifiable(members: seq<Member>, i: nat)
    requires i <= |members|
    decreases members, 0, |members| - i
  {
    i == |members|
    || (!EndsInBackslash(members[i].name) && Minifiable(members[i].value, false) && MembersMinifiable(members, i + 1))
  }

  predicate AllMembersMinifiable(members: seq<Member>)
    decreases members, 1, 0
  {
    MembersMinifiable(members, 0)
  }

  // ---------------------------------------------------------------- piece by piece

  /** The text `t` stands here; with it minified to `r`, the rest is minified to `q`, exactly if `good`. */
  ghost predicate Exact(m: seq<Char>, pos: nat, t: seq<Char>, r: seq<Char>, q: seq<Char>, good: bool)
    requires Block(m)
  {
    Stands(m, pos, t) && pos + |t| < |m| && (Minified(m, pos) == r + q <==> good && Minified(m, pos + |t|) == q)
  }

  lemma ExactBoth(m: seq<Char>, pos: nat, t: seq<Char>, r: seq<Char>, good: bool, u: seq<Char>, s: seq<Char>,
                  fine: bool, q: seq<Char>)
    requires Block(m) && Exact(m, pos, t, r, s + q, good) && Exact(m, pos + |t|, u, s, q, fine)
    ensures Exact(m, pos, t + u, r + s, q, good && fine)
  {
    hide Minified;
    Regroup(r, s, q);
    StandsJoin(m, pos, t, u);
  }

  lemma Cancel(r: seq<Char>, a: seq<Char>, b: seq<Char>)
    ensures r + a == r + b <==> a == b
  {
    if r + a == r + b { assert a == (r + a)[|r|..] == (r + b)[|r|..] == b; }
  }

  lemma {:induction false} PlainExact(m: seq<Char>, pos: nat, t: seq<Char>, q: seq<Char>)
    requires Block(m) && Stands(m, pos, t) && pos + |t| < |m| && AllPlain(t)
    ensures Exact(m, pos, t, t, q, true)
    decreases |t|
  {
    if t == [] {
      assert [] + q == q;
    } else {
      StandsAt(m, pos, t, 0);
      assert t == t[..1] + t[1..];
      StandsSplit(m, pos, t[..1], t[1..]);
      PlainExact(m, pos + 1, t[1..], q);
      assert Minified(m, pos) == t[..1] + Minified(m, pos + 1);
      Cancel(t[..1], Minified(m, pos + 1), t[1..] + q);
      Regroup(t[..1], t[1..], q);
    }
  }

  lemma {:induction false} SpaceExact(m: seq<Char>, pos: nat, t: seq<Char>, q: seq<Char>)
    requires Block(m) && Stands(m, pos, t) && pos + |t| < |m| && AllSpace(t)
    ensures Exact(m, pos, t, [], q, true)
    decreases |t|
  {
    assert [] + q == q;
    if t != [] {
      StandsAt(m, pos, t, 0);
      assert t == t[..1] + t[1..];
      StandsSplit(m, pos, t[..1], t[1..]);
      SpaceExact(m, pos + 1, t[1..], q);
    }
  }

  // ---------------------------------------------------------------- what follows a string

  /** Nothing but brackets up to the end: compact already. */
  ghost predicate Closes(m: seq<Char>, e: nat, q: seq<Char>) {
    Stands(m, e, q + [0]) && e + |q| + 1 == |m| && forall x :: 0 <= x < |q| ==> q[x] == RBRACKET
  }

  /** A blank comes before the next string, where compact text has none. */
  ghost predicate Opens(m: seq<Char>, e: nat, q: seq<Char>) {
    exists j :: BlankAt(m, e, q, j)
  }

  ghost predicate BlankAt(m: seq<Char>, e: nat, q: seq<Char>, j: nat) {
    && e <= j < |m| && j - e < |q| && IsSpace(m[j]) && q[j-e] > 32
    && forall x :: e <= x < j ==> m[x] != QUOTE && m[x] != BACKSLASH && m[x] != 0
  }

  ghost predicate Around(m: seq<Char>, e: nat, q: seq<Char>, last: bool) {
    if last then Closes(m, e, q) else Opens(m, e, q)
  }

  lemma AroundBracket(m: seq<Char>, e: nat, q: seq<Char>, last: bool)
    requires e < |m| && m[e] == RBRACKET && Around(m, e + 1, q, last)
    ensures Around(m, e, [RBRACKET] + q, last)
  {
    var r := [RBRACKET] + q;
    if last {
      forall x | 0 <= x < |r + [0]| ensures e + x < |m| && m[e+x] == (r + [0])[x] {
        if x > 0 { assert (r + [0])[x] == (q + [0])[x-1] && m[e+1+(x-1)] == (q + [0])[x-1]; }
      }
    } else {
      var j: nat :| BlankAt(m, e + 1, q, j);
      assert BlankAt(m, e, r, j);
    }
  }

  lemma BlankNext(m: seq<Char>, e: nat, q: seq<Char>)
    requires e < |m| && IsSpace(m[e]) && q != [] && q[0] > 32
    ensures Around(m, e, q, false)
  {
    assert BlankAt(m, e, q, e);
  }

  lemma BlankSoon(m: seq<Char>, e: nat, c: Char, q: seq<Char>)
    requires e + 1 < |m| && m[e] == c && (c == COMMA || c == COLON) && IsSpace(m[e+1]) && q != [] && q[0] > 32
    ensures Around(m, e, [c] + q, false)
  {
    assert BlankAt(m, e, [c] + q, e + 1);
  }

  lemma {:induction false} ScanBrackets(m: seq<Char>, e: nat, i: nat)
    requires Block(m) && e <= i < |m| && forall x :: e <= x < |m| - 1 ==> m[x] == RBRACKET
    ensures StringEnd(m, i) == |m| - 1
    decreases |m| - i
  {
    if i < |m| - 1 { ScanBrackets(m, e, i + 1); }
  }

  lemma {:induction false} ScanPast(m: seq<Char>, e: nat, n: nat)
    requires Block(m) && e < n <= |m|
    requires forall x :: e <= x < n ==> m[x] != QUOTE && m[x] != BACKSLASH && m[x] != 0
    ensures StringEnd(m, e) >= n
    decreases n - e
  {
    if e + 1 < n { ScanPast(m, e + 1, n); }
  }

  // ---------------------------------------------------------------- strings

  /** What minifying makes of the text from here on if it takes it for the inside of a string. */
  function Inside(m: seq<Char>, e: nat): seq<Char>
    requires Block(m) && e < |m|
  {
    m[e..StringEnd(m, e)] + Minified(m, StringEnd(m, e))
  }

  /** A printed string is kept, and so is what follows up to the next quote if the string ends in a backslash. */
  lemma StringKept(m: seq<Char>, pos: nat, s: seq<Char>)
    requires Block(m) && Stands(m, pos, RenderString(s)) && pos + |RenderString(s)| < |m|
    ensures var t := RenderString(s); var end := pos + |t|;
            Minified(m, pos) == t + (if EndsInBackslash(s) then Inside(m, end) else Minified(m, end))
  {
    hide Stands, StringEnd, Minified, EscapeFrom, KeptFrom;
    var t := RenderString(s);
    var end := pos + |t|;
    StandsSplit(m, pos, [QUOTE], EscapeFrom(s, 0) + [QUOTE]);
    StandsAt(m, pos, t, 0);
    LiteralEnd(m, pos + 1, s, 0);
    StandsSlice(m, pos, t);
    MinifiedString(m, pos);
    var e := StringEnd(m, pos + 1);
    if EndsInBackslash(s) {
      assert m[pos..e] == t + m[end..e];
      Regroup(t, m[end..e], Minified(m, e));
    }
  }

  lemma MinifiedString(m: seq<Char>, i: nat)
    requires Block(m) && i + 1 < |m| && m[i] == QUOTE
    ensures Minified(m, i) == m[i..StringEnd(m, i + 1)] + Minified(m, StringEnd(m, i + 1))
  {
  }

  lemma StringExact(m: seq<Char>, pos: nat, s: seq<Char>, last: bool, q: seq<Char>)
    requires Block(m) && Stands(m, pos, RenderString(s)) && pos + |RenderString(s)| < |m|
    requires Around(m, pos + |RenderString(s)|, q, last)
    ensures Exact(m, pos, RenderString(s), RenderString(s), q, last || !EndsInBackslash(s))
  {
    hide Stands, StringEnd, Minified, RenderString, EndsInBackslash, Closes, Opens, Inside;
    var t := RenderString(s);
    var end := pos + |t|;
    StringKept(m, pos, s);
    Cancel(t, Minified(m, end), q);
    Cancel(t, Inside(m, end), q);
    if last { KeptToEnd(m, end, q); } else { BlankStays(m, end, q); }
  }

  lemma KeptToEnd(m: seq<Char>, end: nat, q: seq<Char>)
    requires Block(m) && Closes(m, end, q)
    ensures end < |m| && Inside(m, end) == q && Minified(m, end) == q
  {
    forall x | end <= x < |m| - 1 ensures m[x] == RBRACKET {
      assert m[end+(x-end)] == (q + [0])[x-end] == q[x-end];
    }
    ScanBrackets(m, end, end);
    StandsSplit(m, end, q, [0]);
    StandsSlice(m, end, q);
    PlainExact(m, end, q, []);
    assert q + [] == q;
  }

  lemma BlankStays(m: seq<Char>, end: nat, q: seq<Char>)
    requires Block(m) && Opens(m, end, q)
    ensures end < |m| && Inside(m, end) != q
  {
    var j: nat :| BlankAt(m, end, q, j);
    ScanPast(m, end, j + 1);
    assert Inside(m, end)[j-end] == m[j];
  }

  // ---------------------------------------------------------------- values

  /** A value's compact text starts with no blank. */
  lemma Starts(v: Value, depth: nat, q: seq<Char>)
    ensures var t := Render(v, depth, false) + q; t != [] && t[0] > 32
  {
    RenderStarts(v, depth, false);
  }

  lemma {:induction false} ValueExact(m: seq<Char>, pos: nat, v: Value, depth: nat, last: bool, q: seq<Char>)
    requires Block(m) && Stands(m, pos, Render(v, depth, true)) && pos + |Render(v, depth, true)| < |m|
    requires Around(m, pos + |Render(v, depth, true)|, q, last)
    ensures Exact(m, pos, Render(v, depth, true), Render(v, depth, false), q, Minifiable(v, last))
    decreases v, 0, 0
  {
    hide Stands, Exact, Around, ItemsMinifiable, AllMembersMinifiable, AllPlain;
    match v
    case Str(s) => StringExact(m, pos, s, last, q);
    case Array(items) => ArrayExact(m, pos, items, depth, last, q);
    case Object(members) => ObjectExact(m, pos, members, depth, q);
    case _ => SimpleExact(m, pos, v, depth, q);
  }

  lemma SimpleExact(m: seq<Char>, pos: nat, v: Value, depth: nat, q: seq<Char>)
    requires v.Null? || v.False? || v.True? || v.Number?
    requires Block(m) && Stands(m, pos, Render(v, depth, true)) && pos + |Render(v, depth, true)| < |m|
    ensures Exact(m, pos, Render(v, depth, true), Render(v, depth, false), q, true)
  {
    hide Exact, Stands;
    PlainExact(m, pos, Render(v, depth, true), q);
  }

  lemma {:induction false} ArrayExact(m: seq<Char>, pos: nat, items: seq<Value>, depth: nat, last: bool, q: seq<Char>)
    requires Block(m) && Stands(m, pos, Render(Array(items), depth, true))
             && pos + |Render(Array(items), depth, true)| < |m|
    requires Around(m, pos + |Render(Array(items), depth, true)|, q, last)
    ensures Exact(m, pos, Render(Array(items), depth, true), Render(Array(items), depth, false), q,
             ItemsMinifiable(items, 0, last))
    decreases items, 1, 0
  {
    hide Stands, Exact, Around, ItemsMinifiable, RenderItems;
    var t, r := RenderItems(items, 0, depth + 1, true), RenderItems(items, 0, depth + 1, false);
    StandsSplit(m, pos, [LBRACKET], t + [RBRACKET]);
    StandsSplit(m, pos + 1, t, [RBRACKET]);
    var end := pos + 1 + |t|;
    StandsAt(m, end, [RBRACKET], 0);
    AroundBracket(m, end, q, last);
    PlainExact(m, pos, [LBRACKET], (r + [RBRACKET]) + q);
    ItemsExact(m, pos + 1, items, 0, depth + 1, last, [RBRACKET] + q);
    PlainExact(m, end, [RBRACKET], q);
    ExactBoth(m, pos + 1, t, r, ItemsMinifiable(items, 0, last), [RBRACKET], [RBRACKET], true, q);
    ExactBoth(m, pos, [LBRACKET], [LBRACKET], true, t + [RBRACKET], r + [RBRACKET], ItemsMinifiable(items, 0, last), q);
  }

  lemma {:induction false} ItemsExact(m: seq<Char>, pos: nat, items: seq<Value>, i: nat, depth: nat, last: bool,
                                      q: seq<Char>)
    requires Block(m) && i <= |items|
    requires Stands(m, pos, RenderItems(items, i, depth, true)) && pos + |RenderItems(items, i, depth, true)| < |m|
    requires Around(m, pos + |RenderItems(items, i, depth, true)|, q, last)
    ensures Exact(m, pos, RenderItems(items, i, depth, true), RenderItems(items, i, depth, false), q,
             ItemsMinifiable(items, i, last))
    decreases items, 0, |items| - i
  {
    hide Stands, Exact, Around, Render, Minifiable;
    if i == |items| {
      PlainExact(m, pos, [], q);
    } else {
      var more := i + 1 < |items|;
      var t, r := Render(items[i], depth, true), Render(items[i], depth, false);
      var u, s := RenderItems(items, i + 1, depth, true), RenderItems(items, i + 1, depth, false);
      var sep, comma := Separator(more, true), Separator(more, false);
      StandsSplit(m, pos, t, sep + u);
      var end := pos + |t|;
      StandsSplit(m, end, sep, u);
      ItemAround(m, end, items, i, depth, last, q);
      ValueExact(m, pos, items[i], depth, last && !more, (comma + s) + q);
      SeparatorExact(m, end, more, s + q);
      ItemsExact(m, end + |sep|, items, i + 1, depth, last, q);
      ExactBoth(m, end, sep, comma, true, u, s, ItemsMinifiable(items, i + 1, last), q);
      ExactBoth(m, pos, t, r, Minifiable(items[i], last
          && !more), sep + u, comma + s, ItemsMinifiable(items, i + 1, last), q);
    }
  }

  lemma ItemAround(m: seq<Char>, end: nat, items: seq<Value>, i: nat, depth: nat, last: bool, q: seq<Char>)
    requires i < |items| && end < |m|
    requires var more := i + 1 < |items|;
             && Stands(m, end, Separator(more, true))
             && Stands(m, end + |Separator(more, true)|, RenderItems(items, i + 1, depth, true))
             && Around(m, end + |Separator(more, true)| + |RenderItems(items, i + 1, depth, true)|, q, last)
    ensures var more := i + 1 < |items|;
            Around(m, end, (Separator(more, false) + RenderItems(items, i + 1, depth, false)) + q, last && !more)
  {
    hide Around, Render;
    if i + 1 < |items| {
      var s := RenderItems(items, i + 1, depth, false);
      assert Separator(true, true) == [COMMA, SPACE];
      StandsAt(m, end, [COMMA, SPACE], 0);
      StandsAt(m, end, [COMMA, SPACE], 1);
      RenderStarts(items[i+1], depth, false);
      BlankSoon(m, end, COMMA, s + q);
      assert (Separator(true, false) + s) + q == [COMMA] + (s + q);
    } else {
      NoItems(items, depth, true);
      NoItems(items, depth, false);
      assert ([] + []) + q == q;
    }
  }

  lemma SeparatorExact(m: seq<Char>, pos: nat, more: bool, q: seq<Char>)
    requires Block(m) && Stands(m, pos, Separator(more, true)) && pos + |Separator(more, true)| < |m|
    ensures Exact(m, pos, Separator(more, true), Separator(more, false), q, true)
  {
    hide Exact;
    if more {
      StandsSplit(m, pos, [COMMA], [SPACE]);
      PlainExact(m, pos, [COMMA], [] + q);
      SpaceExact(m, pos + 1, [SPACE], q);
      ExactBoth(m, pos, [COMMA], [COMMA], true, [SPACE], [], true, q);
    } else {
      PlainExact(m, pos, [], q);
    }
  }

  lemma {:induction false} ObjectExact(m: seq<Char>, pos: nat, members: seq<Member>, depth: nat, q: seq<Char>)
    requires Block(m)
    requires var t := Render(Object(members), depth, true); Stands(m, pos, t) && pos + |t| < |m|
    ensures Exact(m, pos, Render(Object(members), depth, true), Render(Object(members), depth, false), q,
             AllMembersMinifiable(members))
    decreases members, 1, 1
  {
    hide Stands, Exact, MembersMinifiable, RenderMembers;
    var t, r := RenderMembers(members, 0, depth + 1, true), RenderMembers(members, 0, depth + 1, false);
    var tabs, good := Tabs(depth), MembersMinifiable(members, 0);
    var close := tabs + [RBRACE];
    StandsSplit(m, pos, [LBRACE], [NL] + (t + close));
    StandsSplit(m, pos + 1, [NL], t + close);
    StandsSplit(m, pos + 2, t, close);
    var end := pos + 2 + |t|;
    StandsSplit(m, end, tabs, [RBRACE]);
    PlainExact(m, end + |tabs|, [RBRACE], q);
    SpaceExact(m, end, tabs, [RBRACE] + q);
    ExactBoth(m, end, tabs, [], true, [RBRACE], [RBRACE], true, q);
    MembersExact(m, pos + 2, members, 0, depth + 1, ([] + [RBRACE]) + q);
    ExactBoth(m, pos + 2, t, r, good, close, [] + [RBRACE], true, q);
    SpaceExact(m, pos + 1, [NL], (r + ([] + [RBRACE])) + q);
    ExactBoth(m, pos + 1, [NL], [], true, t + close, r + ([] + [RBRACE]), good, q);
    PlainExact(m, pos, [LBRACE], ([] + (r + ([] + [RBRACE]))) + q);
    ExactBoth(m, pos, [LBRACE], [LBRACE], true, [NL] + (t + close), [] + (r + ([] + [RBRACE])), good, q);
  }

  lemma {:induction false} MembersExact(m: seq<Char>, pos: nat, members: seq<Member>, i: nat, depth: nat, q: seq<Char>)
    requires Block(m) && i <= |members| && q != [] && q[0] > 32
    requires Stands(m, pos, RenderMembers(members, i, depth, true))
             && pos + |RenderMembers(members, i, depth, true)| < |m|
    ensures Exact(m, pos, RenderMembers(members, i, depth, true), RenderMembers(members, i, depth, false), q,
             MembersMinifiable(members, i))
    decreases members, 0, |members| - i
  {
    hide Stands, Exact, RenderMember, Minifiable;
    if i == |members| {
      PlainExact(m, pos, [], q);
    } else {
      var e, more := members[i], i + 1 < |members|;
      var t, r := RenderMember(e, more, depth, true), RenderMember(e, more, depth, false);
      var u, s := RenderMembers(members, i + 1, depth, true), RenderMembers(members, i + 1, depth, false);
      StandsSplit(m, pos, t, u);
      MembersNext(members, i + 1, depth, q);
      MemberExact(m, pos, e, more, depth, s + q);
      MembersExact(m, pos + |t|, members, i + 1, depth, q);
      ExactBoth(m, pos, t, r, !EndsInBackslash(e.name)
          && Minifiable(e.value, false), u, s, MembersMinifiable(members, i + 1), q);
    }
  }

  /** What follows a member starts with no blank. */
  lemma MembersNext(members: seq<Member>, i: nat, depth: nat, q: seq<Char>)
    requires i <= |members| && q != [] && q[0] > 32
    ensures var s := RenderMembers(members, i, depth, false) + q; s != [] && s[0] > 32
  {
    if i < |members| {
      assert RenderMember(members[i], i + 1 < |members|, depth, false)[0] == QUOTE;
    }
  }

  lemma {:induction false} MemberExact(m: seq<Char>, pos: nat, e: Member, more: bool, depth: nat, q: seq<Char>)
    requires Block(m) && q != [] && q[0] > 32
    requires var t := RenderMember(e, more, depth, true); Stands(m, pos, t) && pos + |t| < |m|
    ensures Exact(m, pos, RenderMember(e, more, depth, true), RenderMember(e, more, depth, false), q,
                  !EndsInBackslash(e.name) && Minifiable(e.value, false))
    decreases e, 1, 0
  {
    hide Stands, Exact, Minifiable, RenderString, Around, Render;
    var tabs, name := Tabs(depth), RenderString(e.name);
    var t, r := Render(e.value, depth, true), Render(e.value, depth, false);
    var a, b := After(more, true), [COLON] + [TAB];
    var comma := After(more, false);
    var fair, good := !EndsInBackslash(e.name), Minifiable(e.value, false);
    StandsSplit(m, pos, tabs, name + (b + (t + a)));
    var p := pos + |tabs|;
    StandsSplit(m, p, name, b + (t + a));
    var j := p + |name|;
    StandsSplit(m, j, b, t + a);
    var k := j + 2;
    StandsSplit(m, k, t, a);
    AfterAround(m, k + |t|, more, q);
    AfterExact(m, k + |t|, more, q);
    ValueExact(m, k, e.value, depth, false, comma + q);
    ExactBoth(m, k, t, r, good, a, comma, true, q);
    ColonExact(m, j, (r + comma) + q);
    ExactBoth(m, j, b, [COLON] + [], true, t + a, r + comma, good, q);
    NameAround(m, j, e.value, depth, comma, q);
    StringExact(m, p, e.name, false, (([COLON] + []) + (r + comma)) + q);
    ExactBoth(m, p, name, name, fair, b + (t + a), ([COLON] + []) + (r + comma), good, q);
    var text := name + (([COLON] + []) + (r + comma));
    SpaceExact(m, pos, tabs, text + q);
    ExactBoth(m, pos, tabs, [], true, name + (b + (t + a)), text, fair && good, q);
    assert RenderMember(e, more, depth, true) == tabs + (name + (b + (t + a)));
    assert RenderMember(e, more, depth, false) == [] + text;
  }

  lemma ColonExact(m: seq<Char>, j: nat, q: seq<Char>)
    requires Block(m) && Stands(m, j, [COLON] + [TAB]) && j + 2 < |m|
    ensures Exact(m, j, [COLON] + [TAB], [COLON] + [], q, true)
  {
    hide Exact;
    StandsSplit(m, j, [COLON], [TAB]);
    PlainExact(m, j, [COLON], [] + q);
    SpaceExact(m, j + 1, [TAB], q);
    ExactBoth(m, j, [COLON], [COLON], true, [TAB], [], true, q);
  }

  lemma NameAround(m: seq<Char>, j: nat, v: Value, depth: nat, comma: seq<Char>, q: seq<Char>)
    requires Stands(m, j, [COLON] + [TAB])
    ensures Around(m, j, (([COLON] + []) + (Render(v, depth, false) + comma)) + q, false)
  {
    hide Around, Render;
    var r := Render(v, depth, false);
    StandsAt(m, j, [COLON] + [TAB], 0);
    StandsAt(m, j, [COLON] + [TAB], 1);
    Starts(v, depth, comma + q);
    BlankSoon(m, j, COLON, r + (comma + q));
    assert (([COLON] + []) + (r + comma)) + q == [COLON] + (r + (comma + q));
  }

  lemma AfterAround(m: seq<Char>, end: nat, more: bool, q: seq<Char>)
    requires Stands(m, end, After(more, true)) && q != [] && q[0] > 32
    ensures Around(m, end, After(more, false) + q, false)
  {
    hide Around;
    StandsAt(m, end, After(more, true), 0);
    if more {
      StandsAt(m, end, After(more, true), 1);
      BlankSoon(m, end, COMMA, q);
      assert After(true, false) == [COMMA];
    } else {
      BlankNext(m, end, q);
      assert After(false, false) + q == q;
    }
  }

  lemma AfterExact(m: seq<Char>, end: nat, more: bool, q: seq<Char>)
    requires Block(m) && Stands(m, end, After(more, true)) && end + |After(more, true)| < |m|
    ensures Exact(m, end, After(more, true), After(more, false), q, true)
  {
    hide Exact;
    var comma: seq<Char> := if more then [COMMA] else [];
    StandsSplit(m, end, comma, [NL]);
    PlainExact(m, end, comma, [] + q);
    SpaceExact(m, end + |comma|, [NL], q);
    ExactBoth(m, end, comma, comma, true, [NL], [], true, q);
  }

  /**
   Printed text is minified to compact text if and only if no name, and no string that layout follows, ends in a
   backslash.
   */
  lemma CompactExactly(v: Value)
    ensures Minified(Render(v, 0, true) + [0], 0) == Render(v, 0, false) <==> Minifiable(v, true)
  {
    hide Exact, Render, Minifiable;
    var t := Render(v, 0, true);
    var m := t + [0];
    assert Stands(m, 0, t);
    assert Closes(m, |t|, []) by { assert [] + [0] == [0]; }
    ValueExact(m, 0, v, 0, true, []);
    ExactAll(m, t, Render(v, 0, false), Minifiable(v, true));
  }

  lemma ExactAll(m: seq<Char>, t: seq<Char>, r: seq<Char>, good: bool)
    requires m == t + [0] && Exact(m, 0, t, r, [], good)
    ensures Minified(m, 0) == r <==> good
  {
    AtNul(m, |t|);
    assert r + [] == r;
  }
}
