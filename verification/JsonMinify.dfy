/** Minifying a text in place: blanks and comments go, strings stay. */
module JsonMinify {
  import opened Bytes
  import opened Json
  import opened JsonRoundTrip

  // ---------------------------------------------------------------- what it computes

  predicate IsSpace(c: Char) {
    c == SPACE || c == TAB || c == CR || c == NL
  }

  /** Past the end of the line, or at the NUL. */
  function LineEnd(m: seq<Char>, i: nat): (e: nat)
    requires Block(m) && i < |m|
    ensures i <= e < |m|
    decreases |m| - i
  {
    if m[i] == 0 then i else if m[i] == NL then i + 1 else LineEnd(m, i + 1)
  }

  /** Past the end mark of a comment, or at the NUL. */
  function CommentEnd(m: seq<Char>, i: nat): (e: nat)
    requires Block(m) && i < |m|
    ensures i <= e < |m|
    decreases |m| - i
  {
    if m[i] == 0 then i else if m[i] == STAR && m[i+1] == SLASH then i + 2 else CommentEnd(m, i + 1)
  }

  /** Past the quote that no backslash precedes, or at the NUL. */
  function StringEnd(m: seq<Char>, i: nat): (e: nat)
    requires Block(m) && i < |m|
    ensures i <= e < |m|
    decreases |m| - i
  {
    if m[i] == 0 then i
    else if m[i] == QUOTE then i + 1
    else if m[i] == BACKSLASH && m[i+1] == QUOTE then StringEnd(m, i + 2)
    else StringEnd(m, i + 1)
  }

  /** Where reading goes on after something that is dropped. */
  function Dropped(m: seq<Char>, i: nat): (e: nat)
    requires Block(m) && i < |m| && m[i] != 0
    ensures i < e < |m|
  {
    if m[i] == SLASH && m[i+1] == SLASH then LineEnd(m, i + 2)
    else if m[i] == SLASH && m[i+1] == STAR then CommentEnd(m, i + 2)
    else i + 1
  }

  function Minified(m: seq<Char>, i: nat): (r: seq<Char>)
    requires Block(m) && i < |m|
    ensures |r| < |m| - i
    decreases |m| - i
  {
    if m[i] == 0 then []
    else if IsSpace(m[i]) || m[i] == SLASH then Minified(m, Dropped(m, i))
    else if m[i] == QUOTE then
      var e := StringEnd(m, i + 1);
      m[i..e] + Minified(m, e)
    else [m[i]] + Minified(m, i + 1)
  }

  // ---------------------------------------------------------------- in place

  /** The block while a text `m` is rewritten: what was written, then `m` itself from the write position on. */
  ghost predicate Rewritten(a: seq<Char>, m: seq<Char>, done: seq<Char>, json: nat) {
    |done| <= json <= |m| && a == done + m[|done|..]
  }

  lemma RewrittenAt(a: seq<Char>, m: seq<Char>, done: seq<Char>, json: nat)
    requires Rewritten(a, m, done, json)
    ensures |a| == |m| && forall x :: json <= x < |m| ==> a[x] == m[x]
  {
  }

  lemma RewrittenNext(a: seq<Char>, m: seq<Char>, done: seq<Char>, json: nat)
    requires Rewritten(a, m, done, json) && json < |m|
    ensures |done| < |a| && Rewritten(a[|done| := m[json]], m, done + [m[json]], json + 1)
  {
    var k := |done|;
    assert m[k..][1..] == m[k+1..];
    assert a[k := m[json]] == done + [m[json]] + m[k+1..];
  }

  /** The character at the read position, and the one behind it. */
  lemma Ahead(a: array<Char>, m: seq<Char>, done: seq<Char>, json: nat)
    requires Rewritten(a[..], m, done, json) && json < |m|
    ensures a.Length == |m| && a[json] == m[json] && (json + 1 < |m| ==> a[json+1] == m[json+1])
  {
    RewrittenAt(a[..], m, done, json);
  }

  method SkipLine(a: array<Char>, from: nat) returns (input: nat)
    requires Block(a[..]) && from < a.Length
    ensures input == LineEnd(a[..], from)
  {
    input := from;
    while a[input] != 0
      invariant from <= input < a.Length && LineEnd(a[..], input) == LineEnd(a[..], from)
      decreases a.Length - input
    {
      if a[input] == NL {
        input := input + 1;
        return;
      }
      input := input + 1;
    }
  }

  method SkipComment(a: array<Char>, from: nat) returns (input: nat)
    requires Block(a[..]) && from < a.Length
    ensures input == CommentEnd(a[..], from)
  {
    input := from;
    while a[input] != 0
      invariant from <= input < a.Length && CommentEnd(a[..], input) == CommentEnd(a[..], from)
      decreases a.Length - input
    {
      if a[input] == STAR && a[input+1] == SLASH {
        input := input + 2;
        return;
      }
      input := input + 1;
    }
  }

  /** What lies ahead of the read position is still the text. */
  lemma {:induction false} EndsAhead(a: seq<Char>, m: seq<Char>, i: nat)
    requires Block(m) && Block(a) && |a| == |m| && i < |m| && forall x :: i <= x < |m| ==> a[x] == m[x]
    ensures LineEnd(a, i) == LineEnd(m, i) && CommentEnd(a, i) == CommentEnd(m, i)
    decreases |m| - i
  {
    if m[i] != 0 { EndsAhead(a, m, i + 1); }
  }

  /** One character is copied down. */
  method CopyOne(a: array<Char>, json: nat, into: nat, ghost m: seq<Char>, ghost done: seq<Char>)
    requires Rewritten(a[..], m, done, json) && json < |m| && into == |done|
    modifies a
    ensures Rewritten(a[..], m, done + [m[json]], json + 1)
  {
    RewrittenAt(a[..], m, done, json);
    RewrittenNext(a[..], m, done, json);
    a[into] := a[json];
  }

  /** One turn of a string's scan. */
  lemma ScanOne(m: seq<Char>, i: nat)
    requires Block(m) && i < |m|
    ensures StringEnd(m, i)
            == if m[i] == 0 then i else if m[i] == QUOTE then i + 1
               else if m[i] == BACKSLASH && m[i+1] == QUOTE then StringEnd(m, i + 2) else StringEnd(m, i + 1)
  {
  }

  /** The string at `json` is copied down to `into`, quotes and all. */
  method CopyString(a: array<Char>, json: nat, into: nat, ghost m: seq<Char>, ghost done: seq<Char>)
    returns (input: nat, output: nat)
    requires Block(m) && Rewritten(a[..], m, done, json) && json < |m| && m[json] == QUOTE && into == |done|
    modifies a
    ensures input == StringEnd(m, json + 1) && output == into + (input - json)
    ensures Rewritten(a[..], m, done + m[json..input], input)
  {
    hide Rewritten, StringEnd, Block;
    CopyOne(a, json, into, m, done);
    input, output := json + 1, into + 1;
    assert m[json..input] == [m[json]];
    while true
      invariant json < input < |m| && output == into + (input - json)
      invariant StringEnd(m, input) == StringEnd(m, json + 1)
      invariant Rewritten(a[..], m, done + m[json..input], input)
      decreases |m| - input
    {
      Ahead(a, m, done + m[json..input], input);
      ScanOne(m, input);
      var c := a[input];
      if c == 0 { return; }
      var next := a[input+1];
      CopyOne(a, input, output, m, done + m[json..input]);
      SliceMore(m, done, json, input);
      input, output := input + 1, output + 1;
      if c == QUOTE { return; }
      if c == BACKSLASH && next == QUOTE {
        CopyOne(a, input, output, m, done + m[json..input]);
        SliceMore(m, done, json, input);
        input, output := input + 1, output + 1;
      }
    }
  }

  lemma SliceMore(m: seq<Char>, done: seq<Char>, json: nat, input: nat)
    requires json <= input < |m|
    ensures done + m[json..input] + [m[input]] == done + m[json..input+1]
  {
  }

  lemma RewrittenStart(m: seq<Char>)
    ensures Rewritten(m, m, [], 0)
  {
  }

  lemma RewrittenEnd(a: seq<Char>, m: seq<Char>, done: seq<Char>, json: nat)
    requires Rewritten(a, m, done, json) && json < |m|
    ensures |done| < |a| && a[|done| := 0] == done + [0] + m[|done|+1..]
  {
  }

  lemma MinifiedNext(m: seq<Char>, done: seq<Char>, json: nat, e: nat)
    requires Block(m) && json < e < |m| && Minified(m, json) == m[json..e] + Minified(m, e)
    ensures done + Minified(m, json) == done + m[json..e] + Minified(m, e)
  {
  }

  /** One turn of the loop: what is written and what is still to come stay the same text. */
  method Step(a: array<Char>, json: nat, into: nat, ghost m: seq<Char>, ghost done: seq<Char>)
    returns (json': nat, into': nat, ghost done': seq<Char>)
    requires Block(m) && json < |m| && m[json] != 0 && into == |done| && Rewritten(a[..], m, done, json)
    modifies a
    ensures json < json' < |m| && into' == |done'| && Rewritten(a[..], m, done', json')
    ensures done + Minified(m, json) == done' + Minified(m, json')
  {
    hide Rewritten;
    RewrittenAt(a[..], m, done, json);
    var c := a[json];
    json', into', done' := json, into, done;
    if c == SPACE || c == TAB || c == CR || c == NL {
      json' := json + 1;
      StillRewritten(a[..], m, done, json, json');
    } else if c == SLASH {
      json' := SkipSlash(a, json, m);
      StillRewritten(a[..], m, done, json, json');
    } else if c == QUOTE {
      json', into' := CopyString(a, json, into, m, done);
      done' := done + m[json..json'];
      MinifiedNext(m, done, json, json');
    } else {
      CopyOne(a, json, into, m, done);
      json', into', done' := json + 1, into + 1, done + [m[json]];
      assert m[json..json'] == [m[json]];
      MinifiedNext(m, done, json, json');
    }
  }

  lemma StillRewritten(a: seq<Char>, m: seq<Char>, done: seq<Char>, json: nat, next: nat)
    requires Rewritten(a, m, done, json) && json <= next <= |m|
    ensures Rewritten(a, m, done, next)
  {
  }

  /** The text is rewritten where it stands; nothing is written past the place that is being read. */
  method Minify(a: array<Char>)
    requires Block(a[..])
    modifies a
    ensures var r := Minified(old(a[..]), 0);
            |r| < a.Length && a[..] == r + [0] + old(a[..])[|r|+1..]
  {
    hide Rewritten, Minified;
    ghost var m, done := a[..], [];
    var json, into := 0, 0;
    RewrittenStart(m);
    while a[json] != 0
      invariant into == |done| && json < |m| == a.Length && Rewritten(a[..], m, done, json) && a[json] == m[json]
      invariant Minified(m, 0) == done + Minified(m, json)
      decreases |m| - json
    {
      json, into, done := Step(a, json, into, m, done);
      Ahead(a, m, done, json);
    }
    AtNul(m, json);
    assert done + [] == done;
    Finish(a, into, m, done, json);
  }

  /** The text is ended where writing has come to. */
  method Finish(a: array<Char>, into: nat, ghost m: seq<Char>, ghost done: seq<Char>, ghost json: nat)
    requires into == |done| && json < |m| && Rewritten(a[..], m, done, json)
    modifies a
    ensures |done| < |m| && a[..] == done + [0] + m[|done|+1..]
  {
    RewrittenEnd(a[..], m, done, json);
    a[into] := 0;
  }

  lemma AtNul(m: seq<Char>, i: nat)
    requires Block(m) && i < |m| && m[i] == 0
    ensures Minified(m, i) == []
  {
  }

  method SkipSlash(a: array<Char>, json: nat, ghost m: seq<Char>) returns (next: nat)
    requires Block(m) && |m| == a.Length && json < |m| && m[json] == SLASH && forall x ::
             json <= x < |m| ==> a[x] == m[x]
    ensures next == Dropped(m, json)
  {
    assert Block(a[..]);
    if a[json+1] == SLASH {
      EndsAhead(a[..], m, json + 2);
      next := SkipLine(a, json + 2);
    } else if a[json+1] == STAR {
      EndsAhead(a[..], m, json + 2);
      next := SkipComment(a, json + 2);
    } else {
      next := json + 1;
    }
  }

  // ---------------------------------------------------------------- minifying twice

  lemma StandsTail(o: seq<Char>, p: nat, m: seq<Char>, i: nat, e: nat, k: nat)
    requires i + k <= e <= |m| && Stands(o, p, m[i..e])
    ensures Stands(o, p + k, m[i+k..e])
  {
    assert m[i..e] == m[i..i+k] + m[i+k..e];
    StandsSplit(o, p, m[i..i+k], m[i+k..e]);
  }

  /** A string scanned in two places that hold the same characters. */
  lemma {:induction false} SameStringEnd(m: seq<Char>, i: nat, o: seq<Char>, p: nat)
    requires Block(m) && Block(o) && i < |m| && Stands(o, p, m[i..StringEnd(m, i)])
    requires var end := p + (StringEnd(m, i) - i); end < |o| && (m[StringEnd(m, i)] == 0 ==> o[end] == 0)
    ensures StringEnd(o, p) == p + (StringEnd(m, i) - i)
    decreases |m| - i
  {
    hide Stands;
    var e := StringEnd(m, i);
    if m[i] != 0 {
      StandsAt(o, p, m[i..e], 0);
      if e > i + 1 { StandsAt(o, p, m[i..e], 1); }
      if m[i] == BACKSLASH && m[i+1] == QUOTE {
        StandsTail(o, p, m, i, e, 2);
        SameStringEnd(m, i + 2, o, p + 2);
      } else if m[i] != QUOTE {
        StandsTail(o, p, m, i, e, 1);
        SameStringEnd(m, i + 1, o, p + 1);
      }
    }
  }

  lemma {:induction false} MinifiedAgain(m: seq<Char>, i: nat, o: seq<Char>, p: nat)
    requires Block(m) && Block(o) && i < |m| && Stands(o, p, Minified(m, i) + [0])
    ensures p < |o| && Minified(o, p) == Minified(m, i)
    decreases |m| - i
  {
    hide Stands;
    var r := Minified(m, i);
    StandsAt(o, p, r + [0], 0);
    if m[i] == 0 {
    } else if IsSpace(m[i]) || m[i] == SLASH {
      MinifiedAgain(m, Dropped(m, i), o, p);
    } else if m[i] == QUOTE {
      StringAgain(m, i, o, p);
    } else {
      Regroup([m[i]], Minified(m, i + 1), [0]);
      StandsSplit(o, p, [m[i]], Minified(m, i + 1) + [0]);
      MinifiedAgain(m, i + 1, o, p + 1);
    }
  }

  lemma {:induction false} StringAgain(m: seq<Char>, i: nat, o: seq<Char>, p: nat)
    requires Block(m) && Block(o) && i < |m| && m[i] == QUOTE && Stands(o, p, Minified(m, i) + [0])
    ensures p < |o| && Minified(o, p) == Minified(m, i)
    decreases |m| - i, 0
  {
    hide Stands;
    var e := StringEnd(m, i + 1);
    var text, rest := m[i..e], Minified(m, e) + [0];
    Regroup(text, Minified(m, e), [0]);
    StandsSplit(o, p, text, rest);
    var q := p + |text|;
    StandsAt(o, q, rest, 0);
    StandsAt(o, p, text, 0);
    StandsTail(o, p, m, i, e, 1);
    if m[e] == 0 { AtNul(m, e); }
    SameStringEnd(m, i + 1, o, p + 1);
    StandsSlice(o, p, text);
    MinifiedAgain(m, e, o, q);
  }

  /** Whatever the text: minifying a minified text changes nothing. */
  lemma Idempotent(m: seq<Char>)
    requires Block(m)
    ensures Minified(Minified(m, 0) + [0], 0) == Minified(m, 0)
  {
    MinifiedAgain(m, 0, Minified(m, 0) + [0], 0);
  }

  // ---------------------------------------------------------------- minifying printed text

  predicate EndsInBackslash(s: seq<Char>) {
    var k := KeptFrom(s, 0);
    k != [] && k[|k|-1] == BACKSLASH
  }

  /** One escaped character is scanned over, unless it is a backslash and the literal's quote follows. */
  lemma ScanEscape(m: seq<Char>, pos: nat, c: Char)
    requires Block(m) && Kept(c) && Stands(m, pos, Escape(c))
    requires var next := pos + |Escape(c)|; next < |m| && m[next] != 0
    ensures var next := pos + |Escape(c)|;
            StringEnd(m, pos) == StringEnd(m, if c == BACKSLASH && m[next] == QUOTE then next + 1 else next)
  {
    StandsAt(m, pos, Escape(c), 0);
    if |Escape(c)| == 2 {
      StandsAt(m, pos, Escape(c), 1);
      if c == BACKSLASH || c == QUOTE { ScanBackslash(m, pos); }
    }
  }

  lemma ScanBackslash(m: seq<Char>, pos: nat)
    requires Block(m) && pos + 1 < |m| && m[pos] == BACKSLASH
    ensures StringEnd(m, pos) == StringEnd(m, if m[pos+1] == QUOTE then pos + 2 else pos + 1)
  {
  }

  lemma EscapeKept(c: Char)
    ensures Escape(c) == [] <==> !Kept(c)
  {
  }

  lemma ScanEnds(m: seq<Char>, pos: nat)
    requires Block(m) && pos < |m|
    ensures StringEnd(m, pos) == pos <==> m[pos] == 0
    ensures m[pos] == QUOTE ==> StringEnd(m, pos) == pos + 1
  {
  }

  /** From inside a literal, the scan ends behind it; if its last character is a backslash, it goes on. */
  lemma {:induction false} LiteralEnd(m: seq<Char>, pos: nat, s: seq<Char>, i: nat)
    requires Block(m) && i <= |s| && Stands(m, pos, EscapeFrom(s, i) + [QUOTE])
    ensures var k, end := KeptFrom(s, i), pos + |EscapeFrom(s, i)| + 1;
            && pos < |m| && end < |m|
            && StringEnd(m, pos) == (if k != [] && k[|k|-1] == BACKSLASH then StringEnd(m, end) else end)
    decreases |s| - i
  {
    hide Stands, StringEnd, Escape, Kept;
    var t := EscapeFrom(s, i) + [QUOTE];
    StandsAt(m, pos, t, 0);
    StandsAt(m, pos, t, |t| - 1);
    ScanEnds(m, pos);
    if i < |s| {
      var esc, rest := Escape(s[i]), EscapeFrom(s, i + 1) + [QUOTE];
      Regroup(esc, EscapeFrom(s, i + 1), [QUOTE]);
      StandsSplit(m, pos, esc, rest);
      StandsAt(m, pos + |esc|, rest, 0);
      RestStarts(s, i + 1);
      EscapeKept(s[i]);
      LiteralEnd(m, pos + |esc|, s, i + 1);
      if Kept(s[i]) {
        ScanEscape(m, pos, s[i]);
        ScanEnds(m, pos + |esc|);
        assert KeptFrom(s, i) == [s[i]] + KeptFrom(s, i + 1);
      }
    }
  }

  /** The rest of a literal starts with its quote only if nothing is left to print. */
  lemma {:induction false} RestStarts(s: seq<Char>, i: nat)
    requires i <= |s|
    ensures (EscapeFrom(s, i) == [] <==> KeptFrom(s, i) == [])
    ensures EscapeFrom(s, i) != [] ==> EscapeFrom(s, i)[0] != QUOTE && EscapeFrom(s, i)[0] != 0
    decreases |s| - i
  {
    if i < |s| {
      RestStarts(s, i + 1);
      assert EscapeFrom(s, i) == Escape(s[i]) + EscapeFrom(s, i + 1);
    }
  }

  predicate AllPlain(t: seq<Char>) {
    forall i :: 0 <= i < |t| ==> t[i] > 32 && t[i] != SLASH && t[i] != QUOTE
  }

  predicate AllSpace(t: seq<Char>) {
    forall i :: 0 <= i < |t| ==> IsSpace(t[i])
  }

  lemma {:induction false} MinifiedNulFree(m: seq<Char>, i: nat)
    requires Block(m) && i < |m| && forall x :: 0 <= x < |m| - 1 ==> m[x] != 0
    ensures forall x :: 0 <= x < |Minified(m, i)| ==> Minified(m, i)[x] != 0
    decreases |m| - i
  {
    if m[i] == 0 {
    } else if IsSpace(m[i]) || m[i] == SLASH {
      MinifiedNulFree(m, Dropped(m, i));
    } else {
      MinifiedNulFree(m, if m[i] == QUOTE then StringEnd(m, i + 1) else i + 1);
    }
  }
}
