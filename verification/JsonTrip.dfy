/** Printing, minifying and parsing one after the other, and a value that minifying spoils. */
module JsonTrip {
  import opened Json
  import opened JsonTree
  import opened JsonRoundTrip
  import opened JsonMinify
  import opened JsonCompact
  import opened JsonSurvival
  import opened JsonPrinter
  import opened JsonParser
  import opened Buffers

  /**
   A tree is printed, its text minified if wanted and parsed again. The outcome is a tree of the same value (but
   for what printing drops) unless minifying spoils it, which is exactly when the value does not survive.
   */
  method PrintAndParse(heap: seq<Item>, k: nat, ghost v: Value, minify: bool)
    returns (ok: bool, out: Out, p: Parser, ghost back: Result<Value>)
    requires Laid(heap, k, v) && Held(v)
    ensures ok <==> Safe(v)
    ensures ok ==> fresh(p) && Agrees(out, back) && (back.Ok? ==>
             |p.heap| == Size(back.value) && Laid(p.heap, 0, back.value))
    ensures ok ==> (Gets(back, Clean(v)) <==> (minify ==> Survives(v, false)))
    ensures ok && Faithful(v) ==> (Gets(back, v) <==> (minify ==> Survives(v, false)))
  {
    hide Json.Parse, Laid, Render, Minified, Survives, Safe, Faithful, Clean;
    var text;
    ok, text := PrintValue(heap, k, v, 0);
    p := new Parser([]);
    out, back := Outside, Stuck;
    if !ok { return; }
    ghost var t := Render(v, 0, true);
    var n := StrLen(text, t);
    var a := new Char[n + 1];
    PutChars(a, 0, text[..n]);
    a[n] := 0;
    assert text[..n] == t;
    assert a[..] == t + [0];
    TextBack(v, true);
    CleanExactly(v);
    if minify {
      Minify(a);
      SurvivesExactly(v);
      MinifiedNulFree(t + [0], 0);
      ghost var r := Minified(t + [0], 0);
      var len := Length(a, r);
      p := new Parser(a[..len+1]);
      assert a[..len+1] == r + [0];
    } else {
      p := new Parser(a[..]);
    }
    back := Json.Parse(p.m);
    out := p.Parse();
  }

  /** `strlen` of what minifying leaves. */
  method Length(a: array<Char>, ghost r: seq<Char>) returns (n: nat)
    requires |r| < a.Length && a[..|r|+1] == r + [0] && Avoids(r, 0)
    ensures n == |r|
  {
    assert forall i :: 0 <= i < |r| ==> a[i] == (r + [0])[i];
    assert a[|r|] == (r + [0])[|r|];
    n := StrLen(a, r);
  }

  // ---------------------------------------------------------------- a value that minifying spoils

  function Pair(a: seq<Char>, b: seq<Char>): Value {
    Array([Str(a), Str(b)])
  }

  lemma PairText(a: seq<Char>, b: seq<Char>)
    ensures Render(Pair(a, b), 0, true) == [LBRACKET] + RenderString(a) + [COMMA, SPACE] + RenderString(b) + [RBRACKET]
  {
    var items := [Str(a), Str(b)];
    NoItems(items, 1, true);
    assert RenderItems(items, 1, 1, true) == RenderString(b) + ([] + []);
    assert RenderItems(items, 0, 1, true) == RenderString(a) + ([COMMA, SPACE] + RenderString(b));
  }

  /**
   The string of one backslash, then the string of one blank: the first closing quote passes for an escaped one,
   and the blank goes.
   */
  lemma BackslashMisleads()
    ensures var v := Pair([BACKSLASH], [SPACE]);
            var m := Render(v, 0, true) + [0];
            var r := Minified(m, 0) + [0];
            && Held(v) && Faithful(v) && Safe(v) && !Survives(v, false)
            && Parse(m) == Ok(v, |m| - 1)
            && Parse(r) == Ok(Pair([BACKSLASH], []), |r| - 1) && Pair([BACKSLASH], []) != v
  {
    var v, u := Pair([BACKSLASH], [SPACE]), Pair([BACKSLASH], []);
    MisledText();
    TextBack(v, true);
    TextBack(u, true);
    CleanExactly(u);
    SurvivesExactly(v);
    assert v.items[1].text != u.items[1].text;
  }

  const MISLEADING: seq<Char> := [91, 34, 92, 92, 34, 44, 32, 34, 32, 34, 93, 0]

  const MISLED: seq<Char> := [91, 34, 92, 92, 34, 44, 32, 34, 34, 93]

  lemma MisledBytes()
    ensures Minified(MISLEADING, 0) == MISLED
  {
    var m := MISLEADING;
    assert StringEnd(m, 7) == 8;
    assert StringEnd(m, 5) == 8;
    assert StringEnd(m, 3) == 8;
    assert StringEnd(m, 2) == 8;
    assert StringEnd(m, 10) == 11;
    assert Minified(m, 11) == [];
    assert Minified(m, 9) == m[9..11] + [] == [34, 93];
    assert Minified(m, 8) == [34, 93];
    assert Minified(m, 1) == m[1..8] + [34, 93];
    assert Minified(m, 0) == [91] + Minified(m, 1);
  }

  lemma MisledText()
    ensures Minified(Render(Pair([BACKSLASH], [SPACE]), 0, true) + [0], 0) == Render(Pair([BACKSLASH], []), 0, true)
  {
    hide Render, Minified, StringEnd;
    PairText([BACKSLASH], [SPACE]);
    PairText([BACKSLASH], []);
    assert EscapeFrom([BACKSLASH], 0) == [BACKSLASH, BACKSLASH] + EscapeFrom([BACKSLASH], 1);
    assert EscapeFrom([SPACE], 0) == [SPACE] + EscapeFrom([SPACE], 1);
    assert Render(Pair([BACKSLASH], [SPACE]), 0, true) + [0] == MISLEADING;
    assert Render(Pair([BACKSLASH], []), 0, true) == MISLED;
    MisledBytes();
  }

  /** With nothing behind it that minds, a backslash does no harm: the layout stays, the value comes back. */
  lemma BackslashBeforeNull()
    ensures var v := Array([Str([BACKSLASH]), Null]);
            Survives(v, false) && !Minifiable(v, true)
  {
    var v := Array([Str([BACKSLASH]), Null]);
    assert KeptFrom([BACKSLASH], 0) == [BACKSLASH] + KeptFrom([BACKSLASH], 1);
    assert Unharmed([BACKSLASH], 0, true);
    assert Survives(v.items[0], false) && Survives(v.items[1], Leaves(v.items[0], false));
    assert ItemsSurvive(v.items, 2, Leaves(v.items[1], Leaves(v.items[0], false)));
    assert ItemsSurvive(v.items, 1, Leaves(v.items[0], false));
    assert EndsInBackslash(v.items[0].text) && !Minifiable(v.items[0], false);
  }
}
