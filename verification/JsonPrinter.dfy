/** The printer as it runs: texts put together in blocks whose sizes it works out beforehand. */
module JsonPrinter {
  import opened Bytes
  import opened Json
  import opened JsonTree
  import opened JsonRoundTrip
  import opened Buffers

  // ---------------------------------------------------------------- characters in a text

  /** A character that printing keeps does not occur. */
  predicate TextAvoids(s: seq<Char>, c: Char) {
    Kept(c) ==> Avoids(s, c)
  }

  predicate ValueAvoids(v: Value, c: Char)
    decreases v, 0
  {
    match v
    case Str(s) => TextAvoids(s, c)
    case Array(items) => ItemsAvoid(items, c)
    case Object(members) => MembersAvoid(members, c)
    case _ => true
  }

  predicate ItemsAvoid(items: seq<Value>, c: Char)
    decreases items, 1
  {
    forall i :: 0 <= i < |items| ==> ValueAvoids(items[i], c)
  }

  predicate MembersAvoid(members: seq<Member>, c: Char)
    decreases members, 1
  {
    forall i :: 0 <= i < |members| ==> TextAvoids(members[i].name, c) && ValueAvoids(members[i].value, c)
  }

  lemma AvoidsBoth(a: seq<Char>, b: seq<Char>, c: Char)
    ensures Avoids(a + b, c) <==> Avoids(a, c) && Avoids(b, c)
  {
    forall i | 0 <= i < |a| ensures (a + b)[i] == a[i] {}
    forall i | 0 <= i < |b| ensures (a + b)[|a|+i] == b[i] {}
    if Avoids(a, c) && Avoids(b, c) {
      forall i | 0 <= i < |a + b| ensures (a + b)[i] != c {}
    }
  }

  lemma {:induction false} EscapeAvoids(s: seq<Char>, i: nat, c: Char)
    requires i <= |s| && (c == 0 || c == PERCENT)
    ensures Avoids(EscapeFrom(s, i), c) <==> (Kept(c) ==> forall k :: i <= k < |s| ==> s[k] != c)
    decreases |s| - i
  {
    if i < |s| {
      EscapeAvoids(s, i + 1, c);
      AvoidsBoth(Escape(s[i]), EscapeFrom(s, i + 1), c);
      if s[i] == PERCENT { assert Escape(s[i])[0] == PERCENT; }
    }
  }

  lemma StringAvoids(s: seq<Char>, c: Char)
    requires c == 0 || c == PERCENT
    ensures Avoids(RenderString(s), c) <==> TextAvoids(s, c)
  {
    EscapeAvoids(s, 0, c);
    AvoidsBoth(EscapeFrom(s, 0), [QUOTE], c);
    AvoidsBoth([QUOTE], EscapeFrom(s, 0) + [QUOTE], c);
  }

  /** A NUL never occurs in a text, a percent sign exactly when a string or a name has one. */
  lemma {:induction false} RenderAvoids(v: Value, depth: nat, c: Char)
    requires c == 0 || c == PERCENT
    ensures Avoids(Render(v, depth, true), c) <==> ValueAvoids(v, c)
    decreases v, 0, 0
  {
    match v
    case Str(s) => StringAvoids(s, c);
    case Array(items) => ArrayAvoids(items, depth, c);
    case Object(members) => ObjectAvoids(members, depth, c);
    case _ =>
  }

  lemma {:induction false} ArrayAvoids(items: seq<Value>, depth: nat, c: Char)
    requires c == 0 || c == PERCENT
    ensures Avoids(Render(Array(items), depth, true), c) <==> ItemsAvoid(items, c)
    decreases items, 1, 0
  {
    hide RenderItems;
    var t := RenderItems(items, 0, depth + 1, true);
    ItemsTextAvoids(items, 0, depth + 1, c);
    AvoidsBoth(t, [RBRACKET], c);
    AvoidsBoth([LBRACKET], t + [RBRACKET], c);
  }

  lemma {:induction false} ObjectAvoids(members: seq<Member>, depth: nat, c: Char)
    requires c == 0 || c == PERCENT
    ensures Avoids(Render(Object(members), depth, true), c) <==> MembersAvoid(members, c)
    decreases members, 1, 0
  {
    hide RenderMembers;
    var t := RenderMembers(members, 0, depth + 1, true);
    var close := Tabs(depth) + [RBRACE];
    MembersTextAvoids(members, 0, depth + 1, c);
    AvoidsBoth(Tabs(depth), [RBRACE], c);
    AvoidsBoth(t, close, c);
    AvoidsBoth([NL], t + close, c);
    AvoidsBoth([LBRACE], [NL] + (t + close), c);
  }

  lemma {:induction false} ItemsTextAvoids(items: seq<Value>, i: nat, depth: nat, c: Char)
    requires i <= |items| && (c == 0 || c == PERCENT)
    ensures Avoids(RenderItems(items, i, depth, true), c) <==> forall k :: i <= k < |items| ==> ValueAvoids(items[k], c)
    decreases items, 0, |items| - i
  {
    if i < |items| {
      var t, sep, u := Render(items[i], depth, true), Separator(i + 1 < |items|, true),
          RenderItems(items, i + 1, depth, true);
      RenderAvoids(items[i], depth, c);
      ItemsTextAvoids(items, i + 1, depth, c);
      AvoidsBoth(sep, u, c);
      AvoidsBoth(t, sep + u, c);
    }
  }

  lemma {:induction false} MembersTextAvoids(members: seq<Member>, i: nat, depth: nat, c: Char)
    requires i <= |members| && (c == 0 || c == PERCENT)
    ensures Avoids(RenderMembers(members, i, depth, true), c)
            <==> forall k :: i <= k < |members| ==> TextAvoids(members[k].name, c) && ValueAvoids(members[k].value, c)
    decreases members, 0, |members| - i
  {
    if i < |members| {
      MemberTextAvoids(members[i], i + 1 < |members|, depth, c);
      MembersTextAvoids(members, i + 1, depth, c);
      AvoidsBoth(RenderMember(members[i], i + 1 < |members|, depth, true), RenderMembers(members, i + 1, depth, true),
          c);
    }
  }

  lemma {:induction false} MemberTextAvoids(e: Member, more: bool, depth: nat, c: Char)
    requires c == 0 || c == PERCENT
    ensures Avoids(RenderMember(e, more, depth, true), c) <==> TextAvoids(e.name, c) && ValueAvoids(e.value, c)
    decreases e, 1, 0
  {
    var name, t, colon := RenderString(e.name), Render(e.value, depth, true), [COLON] + [TAB];
    var after := (if more then [COMMA] else []) + [NL];
    StringAvoids(e.name, c);
    RenderAvoids(e.value, depth, c);
    AvoidsBoth(t, after, c);
    AvoidsBoth(colon, t + after, c);
    AvoidsBoth(name, colon + (t + after), c);
    AvoidsBoth(Tabs(depth), name + (colon + (t + after)), c);
  }

  /** Texts inside a text, and names, are used as formats: no percent sign may be in them. */
  predicate Safe(v: Value) {
    match v
    case Array(items) => ItemsAvoid(items, PERCENT)
    case Object(members) => MembersAvoid(members, PERCENT)
    case _ => true
  }

  // ---------------------------------------------------------------- walking the tree

  lemma {:induction false} ItemPlace(heap: seq<Item>, c: nat, items: seq<Value>, n: nat, i: nat)
    requires i < n <= |items| && LinkedItems(heap, c, items, n)
    ensures var at := c + SizeItems(items, i);
            && Laid(heap, at, items[i])
            && (i + 1 < n ==> heap[at].next == c + SizeItems(items, i + 1))
    decreases n
  {
    if i + 1 < n {
      ItemPlace(heap, c, items, n - 1, i);
      if i + 2 == n { assert Neighbours(heap, c, c + SizeItems(items, i + 1), c + SizeItems(items, i)); }
    }
  }

  lemma {:induction false} MemberPlace(heap: seq<Item>, c: nat, members: seq<Member>, n: nat, i: nat)
    requires i < n <= |members| && LinkedMembers(heap, c, members, n)
    ensures var at := c + SizeMembers(members, i);
            && Laid(heap, at, members[i].value) && HasText(heap[at].name, members[i].name)
            && (i + 1 < n ==> heap[at].next == c + SizeMembers(members, i + 1))
    decreases n
  {
    if i + 1 < n {
      MemberPlace(heap, c, members, n - 1, i);
      if i + 2 == n { assert Neighbours(heap, c, c + SizeMembers(members, i + 1), c + SizeMembers(members, i)); }
    }
  }

  // ---------------------------------------------------------------- printing scalars

  /** What the first pass over a string counts. */
  function EscapedSize(s: seq<Char>, i: nat): nat
    requires i <= |s|
    decreases |s| - i
  {
    if i == |s| then 0
    else (if s[i] < 32 || s[i] == QUOTE || s[i] == BACKSLASH then 2 else 1) + EscapedSize(s, i + 1)
  }

  method StrDup(t: seq<Char>) returns (out: array<Char>)
    requires Avoids(t, 0)
    ensures fresh(out) && out.Length == |t| + 1 && Holds(out, t)
  {
    out := new Char[|t| + 1];
    PutChars(out, 0, t);
    assert out[..0] + t == t;
    HoldsText(out, t);
    out[|t|] := 0;
    assert out[..|t|] == t;
    HoldsText(out, t);
  }

  lemma HoldsText(a: array<Char>, t: seq<Char>)
    requires |t| < a.Length && a[..|t|] == t
    ensures forall i :: 0 <= i < |t| ==> a[i] == t[i]
  {
  }

  function Pow10(k: nat): nat {
    if k == 0 then 1 else 10 * Pow10(k - 1)
  }

  lemma {:induction false} DigitsFit(n: nat, k: nat)
    requires k > 0 && n < Pow10(k)
    ensures |Digits(n)| <= k
    decreases k
  {
    if n >= 10 {
      DigitsFit(n / 10, k - 1);
    }
  }

  /** 21 bytes are enough for a 32-bit number. */
  lemma NumberFits(n: int)
    requires -0x8000_0000 <= n < 0x8000_0000
    ensures |RenderNumber(n)| <= 11 && Avoids(RenderNumber(n), 0)
  {
    assert Pow10(4) == 10000 && Pow10(7) == 1000 * Pow10(4) && Pow10(10) == 1000 * Pow10(7);
    DigitsFit(Magnitude(n), 10);
  }

  method PrintNumber(n: int) returns (out: array<Char>)
    requires -0x8000_0000 <= n < 0x8000_0000
    ensures fresh(out) && Holds(out, RenderNumber(n))
  {
    NumberFits(n);
    var t := RenderNumber(n);
    out := new Char[21];
    PutChars(out, 0, t);
    assert out[..0] + t == t;
    out[|t|] := 0;
    HoldsText(out, t) by { assert out[..|t|] == t; }
  }

  /** Two bytes for each character that is escaped or dropped, one for each other. */
  method CountEscaped(s: seq<Char>) returns (len: nat)
    ensures len == EscapedSize(s, 0)
  {
    len := 0;
    var i := 0;
    while i < |s|
      invariant i <= |s| && len + EscapedSize(s, i) == EscapedSize(s, 0)
    {
      len := len + 1;
      if s[i] < 32 || s[i] == QUOTE || s[i] == BACKSLASH { len := len + 1; }
      i := i + 1;
    }
  }

  /** The opening quote and the escaped characters; two bytes are left. */
  method PutEscaped(s: seq<Char>, out: array<Char>) returns (o: nat)
    requires out.Length == EscapedSize(s, 0) + 3
    modifies out
    ensures o + 2 <= out.Length && out[..o] == [QUOTE] + EscapeFrom(s, 0)
  {
    hide Escape;
    out[0] := QUOTE;
    var i := 0;
    o := 1;
    while i < |s|
      invariant i <= |s| && o + EscapedSize(s, i) + 2 <= out.Length
      invariant out[..o] + EscapeFrom(s, i) == [QUOTE] + EscapeFrom(s, 0)
    {
      EscapeSize(s, i);
      ghost var was := out[..o];
      PutChars(out, o, Escape(s[i]));
      Regroup(was, Escape(s[i]), EscapeFrom(s, i + 1));
      o := o + |Escape(s[i])|;
      i := i + 1;
    }
    assert out[..o] + [] == out[..o];
  }

  lemma EscapeSize(s: seq<Char>, i: nat)
    requires i < |s|
    ensures EscapedSize(s, i) >= |Escape(s[i])| + EscapedSize(s, i + 1)
  {
  }

  /** The escaped string, its quotes and its NUL fit into three bytes more than were counted. */
  method PrintString(s: seq<Char>) returns (out: array<Char>)
    ensures fresh(out) && out.Length == EscapedSize(s, 0) + 3 && Holds(out, RenderString(s))
  {
    hide EscapeFrom, EscapedSize, Escape;
    var len := CountEscaped(s);
    out := new Char[len + 3];
    var o := PutEscaped(s, out);
    out[o], out[o+1] := QUOTE, 0;
    StringAvoids(s, 0);
    assert out[..o+1] == RenderString(s);
    HoldsText(out, RenderString(s));
  }

  // ---------------------------------------------------------------- printing lists

  /** A block with the text so far and the space that closing it takes. */
  ghost predicate SoFar(out: array<Char>, w: seq<Char>, room: nat)
    reads out
  {
    Holds(out, w) && |w| + room <= out.Length
  }

  /** The text `w` is completed by `t`, in a block enlarged for it. */
  method Enlarge(out: array<Char>, more: nat, ghost w: seq<Char>, ghost room: nat) returns (big: array<Char>, ptr: nat)
    requires SoFar(out, w, room)
    ensures fresh(big) && SoFar(big, w, room + more) && big.Length == out.Length + more && ptr == |w|
  {
    big := Realloc(out, out.Length + more);
    forall i | 0 <= i < out.Length ensures big[i] == out[i] { assert big[..out.Length][i] == out[..][i]; }
    ptr := StrLen(big, w);
  }

  /** An item's text behind the text so far, and what separates it from the next. */
  method AddItem(out: array<Char>, ret: array<Char>, more: bool, ghost w: seq<Char>, ghost t: seq<Char>)
    returns (ok: bool, big: array<Char>, ptr: nat)
    requires SoFar(out, w, 4) && Holds(ret, t)
    ensures ok <==> Avoids(t, PERCENT)
    ensures ok ==> var w' := w + (t + Separator(more, true)); fresh(big) && SoFar(big, w', 4) && ptr == |w'|
  {
    var n := StrLen(ret, t);
    big, ptr := Enlarge(out, n + 3, w, 4);
    assert big[..ptr] == w;
    ok, n := Sprintf(big, ptr, ret, t);
    if !ok { return; }
    ptr := ptr + n;
    assert big[..ptr] == w + t;
    HoldsBoth(w, t);
    if more {
      big[ptr], big[ptr+1] := COMMA, SPACE;
      big[ptr+2] := 0;
      assert big[..ptr+2] == w + t + [COMMA, SPACE];
      HoldsText(big, w + t + [COMMA, SPACE]);
      ptr := ptr + 2;
      assert w + t + [COMMA, SPACE] == w + (t + Separator(true, true));
    } else {
      HoldsText(big, w + t);
      assert w + t == w + (t + Separator(false, true));
    }
  }

  lemma HoldsBoth(a: seq<Char>, b: seq<Char>)
    ensures (forall i :: 0 <= i < |a| ==> a[i] != 0) && (forall i :: 0 <= i < |b| ==> b[i] != 0)
            ==> forall i :: 0 <= i < |a + b| ==> (a + b)[i] != 0
  {
  }

  method PrintValue(heap: seq<Item>, k: nat, ghost v: Value, depth: nat) returns (ok: bool, out: array<Char>)
    requires Laid(heap, k, v) && Held(v)
    ensures ok <==> Safe(v)
    ensures ok ==> fresh(out) && Holds(out, Render(v, depth, true))
    decreases v, 1
  {
    hide RenderItems, RenderMembers;
    var it := heap[k];
    ok := true;
    match it.kind
    case KNull => out := StrDup(NULL_TEXT);
    case KFalse => out := StrDup(FALSE_TEXT);
    case KTrue => out := StrDup(TRUE_TEXT);
    case KNumber => out := PrintNumber(it.num);
    case KString => out := PrintString(it.text.s);
    case KArray => ok, out := PrintArray(heap, k, v.items, depth);
    case KObject => ok, out := PrintObject(heap, k, v.members, depth);
  }

  method PrintArray(heap: seq<Item>, k: nat, ghost items: seq<Value>, depth: nat) returns (ok: bool, out: array<Char>)
    requires Laid(heap, k, Array(items)) && AllHeld(items)
    ensures ok <==> ItemsAvoid(items, PERCENT)
    ensures ok ==> fresh(out) && Holds(out, Render(Array(items), depth, true))
    decreases items, 0
  {
    hide RenderItems, Render, Held, Safe, ValueAvoids;
    out := new Char[5];
    out[0], out[1] := LBRACKET, 0;
    ghost var w, n := [LBRACKET], 0;
    var ptr: nat, child := 1, heap[k].child;
    while child != NONE
      invariant n <= |items| && child == (if n < |items| then k + 1 + SizeItems(items, n) else NONE)
      invariant fresh(out) && SoFar(out, w, 4) && ptr == |w|
      invariant w + RenderItems(items, n, depth + 1, true) == [LBRACKET] + RenderItems(items, 0, depth + 1, true)
      invariant forall i :: 0 <= i < n ==> ValueAvoids(items[i], PERCENT)
      decreases |items| - n
    {
      ghost var t := Render(items[n], depth + 1, true);
      ItemPlace(heap, k + 1, items, |items|, n);
      var ret;
      ok, ret := PrintValue(heap, child, items[n], depth + 1);
      AvoidsIsSafe(items[n]);
      if !ok { return; }
      RenderAvoids(items[n], depth + 1, PERCENT);
      var next := heap[child].next;
      ok, out, ptr := AddItem(out, ret, next != NONE, w, t);
      if !ok { return; }
      ItemsText(items, n, depth + 1, w);
      w, n := w + (t + Separator(n + 1 < |items|, true)), n + 1;
      child := next;
    }
    ItemsTextEnd(items, depth, w);
    out[ptr], out[ptr+1] := RBRACKET, 0;
    ok := true;
    assert out[..ptr+1] == w + [RBRACKET];
    HoldsText(out, w + [RBRACKET]);
  }

  lemma AvoidsIsSafe(v: Value)
    ensures ValueAvoids(v, PERCENT) ==> Safe(v)
  {
  }

  lemma ItemsText(items: seq<Value>, n: nat, depth: nat, w: seq<Char>)
    requires n < |items|
    ensures w + RenderItems(items, n, depth, true)
            == w + (Render(items[n], depth, true) + Separator(n + 1 < |items|, true)) + RenderItems(items, n + 1,
                depth, true)
  {
    hide Render;
  }

  lemma ItemsTextEnd(items: seq<Value>, depth: nat, w: seq<Char>)
    ensures w + RenderItems(items, |items|, depth + 1, true) == [LBRACKET] + RenderItems(items, 0, depth + 1, true)
            ==> w + [RBRACKET] == Render(Array(items), depth, true)
  {
    NoItems(items, depth + 1, true);
    Regroup([LBRACKET], RenderItems(items, 0, depth + 1, true), [RBRACKET]);
    assert w + [] == w;
  }

  /** Some characters more behind the text so far, and a NUL again. */
  method Put(out: array<Char>, ptr: nat, s: seq<Char>, ghost w: seq<Char>)
    requires Holds(out, w) && ptr == |w| && ptr + |s| < out.Length && Avoids(s, 0)
    modifies out
    ensures Holds(out, w + s)
  {
    assert out[..ptr] == w;
    PutChars(out, ptr, s);
    out[ptr+|s|] := 0;
    assert out[..ptr+|s|] == w + s;
    HoldsText(out, w + s);
  }

  /** A text used as a format. */
  method PutFormat(out: array<Char>, ptr: nat, fmt: array<Char>, ghost w: seq<Char>, ghost t: seq<Char>)
    returns (ok: bool, n: nat)
    requires Holds(out, w) && ptr == |w| && ptr + |t| < out.Length && Holds(fmt, t) && fmt != out
    modifies out
    ensures ok <==> Avoids(t, PERCENT)
    ensures ok ==> n == |t| && Holds(out, w + t)
  {
    assert out[..ptr] == w;
    ok, n := Sprintf(out, ptr, fmt, t);
    if ok { HoldsText(out, w + t); }
  }

  /** A member behind the text so far. */
  method AddMember(out: array<Char>, str: array<Char>, ret: array<Char>, more: bool, depth: nat,
                   ghost w: seq<Char>, ghost e: Member) returns (ok: bool, big: array<Char>, ptr: nat)
    requires SoFar(out, w, depth + 5) && Holds(str, RenderString(e.name)) && Holds(ret, Render(e.value, depth, true))
    ensures ok <==> TextAvoids(e.name, PERCENT) && ValueAvoids(e.value, PERCENT)
    ensures ok ==> var w' := w + RenderMember(e, more, depth, true);
             fresh(big) && SoFar(big, w', depth + 5) && ptr == |w'|
  {
    hide RenderString, Render, Holds, TextAvoids, ValueAvoids;
    ghost var name, t := RenderString(e.name), Render(e.value, depth, true);
    StringAvoids(e.name, PERCENT);
    RenderAvoids(e.value, depth, PERCENT);
    var n := StrLen(ret, t);
    var len := StrLen(str, name);
    big, ptr := Enlarge(out, n + len + 4 + depth, w, depth + 5);
    Put(big, ptr, Tabs(depth), w);
    ghost var u := w + Tabs(depth);
    ok, len := PutFormat(big, ptr + depth, str, u, name);
    if !ok { return; }
    ptr := ptr + depth + len;
    u := u + name;
    Put(big, ptr, [COLON, TAB], u);
    u := u + [COLON, TAB];
    ok, n := PutFormat(big, ptr + 2, ret, u, t);
    if !ok { return; }
    ptr := ptr + 2 + n;
    u := u + t;
    var end := (if more then [COMMA] else []) + [NL];
    Put(big, ptr, end, u);
    ptr := ptr + |end|;
    assert [COLON, TAB] == [COLON] + [TAB];
    assert u + end == w + (Tabs(depth) + (name + (([COLON] + [TAB]) + (t + end))));
  }

  method PrintObject(heap: seq<Item>, k: nat, ghost members: seq<Member>, depth: nat)
    returns (ok: bool, out: array<Char>)
    requires Laid(heap, k, Object(members)) && AllMembersHeld(members)
    ensures ok <==> MembersAvoid(members, PERCENT)
    ensures ok ==> fresh(out) && Holds(out, Render(Object(members), depth, true))
    decreases members, 0
  {
    hide RenderMembers, Render, Held, Safe, ValueAvoids, RenderMember;
    var inner := depth + 1;
    out := new Char[7 + inner];
    out[0], out[1], out[2] := LBRACE, NL, 0;
    ghost var w, n := [LBRACE, NL], 0;
    var ptr: nat, child := 2, heap[k].child;
    while child != NONE
      invariant n <= |members| && child == (if n < |members| then k + 1 + SizeMembers(members, n) else NONE)
      invariant fresh(out) && SoFar(out, w, inner + 5) && ptr == |w|
      invariant w + RenderMembers(members, n, inner, true) == [LBRACE, NL] + RenderMembers(members, 0, inner, true)
      invariant forall i :: 0 <= i < n ==>
               TextAvoids(members[i].name, PERCENT) && ValueAvoids(members[i].value, PERCENT)
      decreases |members| - n
    {
      ghost var e := members[n];
      MemberPlace(heap, k + 1, members, |members|, n);
      var str := PrintString(heap[child].name.s);
      var ret;
      ok, ret := PrintValue(heap, child, e.value, inner);
      AvoidsIsSafe(e.value);
      if !ok { return; }
      var next := heap[child].next;
      ok, out, ptr := AddMember(out, str, ret, next != NONE, inner, w, e);
      if !ok { return; }
      MembersText(members, n, inner, w);
      w, n := w + RenderMember(e, n + 1 < |members|, inner, true), n + 1;
      child := next;
    }
    MembersTextEnd(members, depth, w);
    Put(out, ptr, Tabs(inner - 1) + [RBRACE], w);
    ok := true;
  }

  lemma MembersText(members: seq<Member>, n: nat, depth: nat, w: seq<Char>)
    requires n < |members|
    ensures w + RenderMembers(members, n, depth, true)
            == w + RenderMember(members[n], n + 1 < |members|, depth, true) + RenderMembers(members, n + 1, depth, true)
  {
    hide RenderMember;
  }

  lemma MembersTextEnd(members: seq<Member>, depth: nat, w: seq<Char>)
    ensures w + RenderMembers(members, |members|, depth + 1, true) == [LBRACE, NL] + RenderMembers(members, 0,
             depth + 1, true)
            ==> w + (Tabs(depth) + [RBRACE]) == Render(Object(members), depth, true)
  {
    var t := RenderMembers(members, 0, depth + 1, true);
    var close := Tabs(depth) + [RBRACE];
    assert RenderMembers(members, |members|, depth + 1, true) == [];
    assert w + [] == w;
    assert [LBRACE, NL] + t + close == [LBRACE] + ([NL] + (t + close));
  }
}
