/**
 Exactly which values survive being printed, minified and parsed. Minifying
 takes a quote behind a backslash for an escaped one, also when that backslash
 is itself escaped: after a string that ends in a backslash it has inside and
 outside the wrong way round. It then keeps the layout, which does no harm, and
 drops blanks and slashes from the next strings, which does; a quote in one of
 them turns it round again. `SurvivesExactly` follows it through a whole value.
 */
module JsonSurvival {
  import opened Bytes
  import opened Json
  import opened JsonRoundTrip
  import opened JsonMinify

  // ---------------------------------------------------------------- two modes

  /** What minifying makes of the text from `i` on, inside or outside of what it takes for a string. */
  function Rest(m: seq<Char>, i: nat, inside: bool): seq<Char>
    requires Block(m) && i < |m|
  {
    if inside then m[i..StringEnd(m, i)] + Minified(m, StringEnd(m, i)) else Minified(m, i)
  }

  lemma RestEnds(m: seq<Char>, i: nat, inside: bool)
    requires Block(m) && i < |m| && m[i] == 0
    ensures Rest(m, i, inside) == []
  {
  }

  /** A quote is kept, and ends what it does not begin. */
  lemma RestQuote(m: seq<Char>, i: nat, inside: bool)
    requires Block(m) && i < |m| && m[i] == QUOTE
    ensures i + 1 < |m| && Rest(m, i, inside) == [QUOTE] + Rest(m, i + 1, !inside)
  {
    if !inside {
      var e := StringEnd(m, i + 1);
      assert m[i..e] == [QUOTE] + m[i+1..e];
    } else {
      assert m[i..i+1] == [QUOTE];
    }
  }

  /** Inside, a backslash keeps a quote from ending the string. */
  lemma RestPair(m: seq<Char>, i: nat)
    requires Block(m) && i + 1 < |m| && m[i] == BACKSLASH && m[i+1] == QUOTE
    ensures i + 2 < |m| && Rest(m, i, true) == [BACKSLASH, QUOTE] + Rest(m, i + 2, true)
  {
    hide StringEnd, Minified;
    assert i + 2 < |m|;
    ScanBackslash(m, i);
    var e := StringEnd(m, i + 2);
    assert m[i..e] == [BACKSLASH, QUOTE] + m[i+2..e];
  }

  /** Any other character is kept inside; outside, if it is no blank and no slash. */
  lemma RestKeeps(m: seq<Char>, i: nat, inside: bool)
    requires Block(m) && i < |m| && m[i] != 0 && m[i] != QUOTE
    requires if inside then m[i] != BACKSLASH || (i + 1 < |m| && m[i+1] != QUOTE) else !IsSpace(m[i]) && m[i] != SLASH
    ensures i + 1 < |m| && Rest(m, i, inside) == [m[i]] + Rest(m, i + 1, inside)
  {
    if inside {
      var e := StringEnd(m, i + 1);
      assert StringEnd(m, i) == e && m[i..e] == [m[i]] + m[i+1..e];
    }
  }

  // ---------------------------------------------------------------- escapes in printed text

  /** What the printer puts behind a backslash. */
  predicate Second(c: Char) {
    c == BACKSLASH || c == QUOTE || c == 98 || c == 102 || c == 110 || c == 114 || c == 116
  }

  /** From here on every backslash that does not belong to an escape begins one. */
  predicate Escaped(m: seq<Char>, i: nat)
    requires i <= |m|
    decreases |m| - i
  {
    if i == |m| then true
    else if m[i] == BACKSLASH then i + 1 < |m| && Second(m[i+1]) && Escaped(m, i + 2)
    else Escaped(m, i + 1)
  }

  /** Behind a character that is no second one, the next escape is whole. */
  lemma {:induction false} EscapedBehind(m: seq<Char>, i: nat, k: nat)
    requires i < k <= |m| && Escaped(m, i) && !Second(m[k-1])
    ensures Escaped(m, k)
    decreases k - i
  {
    var next := if m[i] == BACKSLASH then i + 2 else i + 1;
    if next < k { EscapedBehind(m, next, k); }
  }

  /** No escape contains a NUL. */
  lemma {:induction false} EscapedAt(m: seq<Char>, i: nat, k: nat)
    requires i <= k < |m| && Escaped(m, i) && !Second(m[k])
    ensures Escaped(m, k)
    decreases k - i
  {
    if i < k {
      EscapedAt(m, if m[i] == BACKSLASH then i + 2 else i + 1, k);
    }
  }

  lemma {:induction false} LineEndAt(m: seq<Char>, from: nat)
    requires Block(m) && from < |m|
    ensures var e := LineEnd(m, from); m[e] == 0 || (e > from && m[e-1] == NL)
    decreases |m| - from
  {
    if m[from] != 0 && m[from] != NL { LineEndAt(m, from + 1); }
  }

  lemma {:induction false} CommentEndAt(m: seq<Char>, from: nat)
    requires Block(m) && from < |m|
    ensures var e := CommentEnd(m, from); m[e] == 0 || (e > from && m[e-1] == SLASH)
    decreases |m| - from
  {
    if m[from] != 0 && !(m[from] == STAR && m[from+1] == SLASH) { CommentEndAt(m, from + 1); }
  }

  /** What is dropped does not begin or end in the middle of an escape. */
  lemma DroppedBehind(m: seq<Char>, i: nat)
    requires Block(m) && i < |m| && Escaped(m, i) && (IsSpace(m[i]) || m[i] == SLASH)
    ensures Escaped(m, Dropped(m, i))
  {
    var e := Dropped(m, i);
    if m[i] == SLASH && m[i+1] == SLASH {
      LineEndAt(m, i + 2);
    } else if m[i] == SLASH && m[i+1] == STAR {
      CommentEndAt(m, i + 2);
    }
    if m[e] == 0 { EscapedAt(m, i, e); } else { EscapedBehind(m, i, e); }
  }

  /** What comes first outside is no blank and no slash; if it is a backslash, its escape is whole. */
  lemma {:induction false} FirstKept(m: seq<Char>, i: nat)
    requires Block(m) && i < |m| && Escaped(m, i)
    ensures var r := Minified(m, i);
            r != [] ==> !IsSpace(r[0]) && r[0] != SLASH && r[0] != 0 && (r[0] == BACKSLASH ==> |r| > 1 && Second(r[1]))
    decreases |m| - i
  {
    if m[i] == 0 {
    } else if IsSpace(m[i]) || m[i] == SLASH {
      DroppedBehind(m, i);
      FirstKept(m, Dropped(m, i));
    } else if m[i] == BACKSLASH {
      var c := m[i+1];
      assert Minified(m, i) == [BACKSLASH] + Minified(m, i + 1);
      if c == QUOTE { RestQuote(m, i + 1, false); } else { RestKeeps(m, i + 1, false); }
    }
  }

  // ---------------------------------------------------------------- what is put out

  /** From `p` on, `o` is what becomes of `m` from `i` on, and its NUL. */
  ghost predicate Out(m: seq<Char>, i: nat, inside: bool, o: seq<Char>, p: nat) {
    && Block(m) && Block(o) && i < |m| && Escaped(m, i)
    && p + |Rest(m, i, inside)| + 1 == |o| && Stands(o, p, Rest(m, i, inside) + [0])
  }

  lemma OutNext(m: seq<Char>, i: nat, inside: bool, o: seq<Char>, p: nat, r: seq<Char>, j: nat, next: bool)
    requires Out(m, i, inside, o, p) && j < |m| && Escaped(m, j) && Rest(m, i, inside) == r + Rest(m, j, next)
    ensures Stands(o, p, r) && Out(m, j, next, o, p + |r|)
  {
    hide Stands, Rest;
    Regroup(r, Rest(m, j, next), [0]);
    StandsSplit(o, p, r, Rest(m, j, next) + [0]);
  }

  lemma QuoteOut(m: seq<Char>, i: nat, inside: bool, o: seq<Char>, p: nat)
    requires Out(m, i, inside, o, p) && m[i] == QUOTE
    ensures p < |o| && o[p] == QUOTE && Out(m, i + 1, !inside, o, p + 1)
  {
    hide Rest;
    RestQuote(m, i, inside);
    OutNext(m, i, inside, o, p, [QUOTE], i + 1, !inside);
    StandsAt(o, p, [QUOTE], 0);
  }

  lemma KeepsOut(m: seq<Char>, i: nat, inside: bool, o: seq<Char>, p: nat)
    requires Out(m, i, inside, o, p) && m[i] != 0 && m[i] != QUOTE && m[i] != BACKSLASH
    requires inside || (!IsSpace(m[i]) && m[i] != SLASH)
    ensures p < |o| && o[p] == m[i] && i + 1 < |m| && Out(m, i + 1, inside, o, p + 1)
  {
    hide Rest;
    RestKeeps(m, i, inside);
    OutNext(m, i, inside, o, p, [m[i]], i + 1, inside);
    StandsAt(o, p, [m[i]], 0);
  }

  /** Plain text comes out as it is. */
  lemma {:induction false} PlainOut(m: seq<Char>, i: nat, inside: bool, o: seq<Char>, p: nat, t: seq<Char>)
    requires Out(m, i, inside, o, p) && Stands(m, i, t) && AllPlain(t) && BACKSLASH !in t
    ensures i + |t| < |m| && Stands(o, p, t) && Out(m, i + |t|, inside, o, p + |t|)
    decreases |t|
  {
    hide Out;
    OutInRange(m, i, inside, o, p);
    if t != [] {
      StandsAt(m, i, t, 0);
      assert t == t[..1] + t[1..];
      StandsSplit(m, i, t[..1], t[1..]);
      KeepsOut(m, i, inside, o, p);
      PlainOut(m, i + 1, inside, o, p + 1, t[1..]);
      StandsJoin(o, p, t[..1], t[1..]);
    }
  }

  lemma OutInRange(m: seq<Char>, i: nat, inside: bool, o: seq<Char>, p: nat)
    requires Out(m, i, inside, o, p)
    ensures Block(m) && Block(o) && i < |m| && p < |o|
  {
  }

  /** Layout comes out as it is or not at all: the parser passes over it. */
  lemma {:induction false} BlanksOut(m: seq<Char>, i: nat, inside: bool, o: seq<Char>, p: nat, t: seq<Char>)
    returns (p': nat)
    requires Out(m, i, inside, o, p) && Stands(m, i, t) && AllSpace(t)
    ensures i + |t| < |m| && p <= p' <= |o| && Out(m, i + |t|, inside, o, p') && Skip(o, p) == Skip(o, p')
    decreases |t|
  {
    hide Out;
    OutInRange(m, i, inside, o, p);
    if t == [] {
      p' := p;
    } else {
      StandsAt(m, i, t, 0);
      assert t == t[..1] + t[1..];
      StandsSplit(m, i, t[..1], t[1..]);
      if inside {
        KeepsOut(m, i, inside, o, p);
        p' := BlanksOut(m, i + 1, inside, o, p + 1, t[1..]);
      } else {
        BlankGoes(m, i, o, p);
        p' := BlanksOut(m, i + 1, inside, o, p, t[1..]);
      }
    }
  }

  lemma BlankGoes(m: seq<Char>, i: nat, o: seq<Char>, p: nat)
    requires Out(m, i, false, o, p) && IsSpace(m[i])
    ensures i + 1 < |m| && Out(m, i + 1, false, o, p)
  {
    assert Rest(m, i, false) == Rest(m, i + 1, false);
  }

  /** What may follow a value in printed text, behind the layout. */
  predicate Closer(c: Char) {
    c == COMMA || c == RBRACKET || c == RBRACE || c == 0
  }

  /** So a number's last digit is the last. */
  lemma NoDigitOut(m: seq<Char>, i: nat, inside: bool, o: seq<Char>, p: nat, t: seq<Char>, c: Char)
    requires Out(m, i, inside, o, p) && AllSpace(t) && Closer(c) && Stands(m, i, t + [c])
    ensures p < |o| && !IsDigit(o[p])
  {
    hide Out;
    OutInRange(m, i, inside, o, p);
    StandsSplit(m, i, t, [c]);
    StandsAt(m, i + |t|, [c], 0);
    if inside && t != [] {
      StandsAt(m, i, t, 0);
      KeepsOut(m, i, inside, o, p);
    } else {
      var p' := BlanksOut(m, i, inside, o, p, t);
      OutInRange(m, i + |t|, inside, o, p');
      if c == 0 { EndOut(m, i + |t|, inside, o, p'); } else { KeepsOut(m, i + |t|, inside, o, p'); }
      if !inside { BlanksGo(m, i, o, p, t, p'); }
    }
  }

  lemma EndOut(m: seq<Char>, i: nat, inside: bool, o: seq<Char>, p: nat)
    requires Out(m, i, inside, o, p) && m[i] == 0
    ensures p + 1 == |o| && o[p] == 0
  {
    RestEnds(m, i, inside);
  }

  /** Only one position is left for it. */
  lemma {:induction false} BlanksGo(m: seq<Char>, i: nat, o: seq<Char>, p: nat, t: seq<Char>, p': nat)
    requires Out(m, i, false, o, p) && Stands(m, i, t) && AllSpace(t) && i + |t| < |m| && Out(m, i + |t|, false, o, p')
    ensures p' == p
    decreases |t|
  {
    if t != [] {
      StandsAt(m, i, t, 0);
      assert t == t[..1] + t[1..];
      StandsSplit(m, i, t[..1], t[1..]);
      BlankGoes(m, i, o, p);
      BlanksGo(m, i + 1, o, p, t[1..], p');
    }
  }

  // ---------------------------------------------------------------- strings

  /** Whether the characters from `i` on survive: outside, none before the next quote is a blank or a slash. */
  predicate Unharmed(s: seq<Char>, i: nat, inside: bool)
    requires i <= |s|
    decreases |s| - i
  {
    if i == |s| then true
    else if inside || (Kept(s[i]) && s[i] == QUOTE) then true
    else s[i] != SPACE && s[i] != SLASH && Unharmed(s, i + 1, inside)
  }

  /** Whether minifying is inside after the closing quote. */
  predicate Turned(s: seq<Char>, i: nat, inside: bool)
    requires i <= |s|
    decreases |s| - i
  {
    if i == |s| then !inside
    else if inside && s[i] == BACKSLASH && KeptFrom(s, i + 1) == [] then true
    else Turned(s, i + 1, inside || s[i] == QUOTE)
  }

  ghost predicate GetsText(r: Result<seq<Char>>, s: seq<Char>) {
    r.Ok? && BeforeNul(r.value) == s
  }

  /** A blank or a slash that was dropped is missed. */
  lemma Missed(m: seq<Char>, i: nat, o: seq<Char>, p: nat, k: seq<Char>)
    requires Out(m, i, false, o, p) && k != [] && (k[0] == SPACE || k[0] == SLASH) && m[i] == k[0]
    ensures !GetsText(ParseChars(o, p), k)
  {
    hide Stands;
    var r := Minified(m, i);
    FirstKept(m, i);
    StandsAt(o, p, r + [0], 0);
    if r != [] && r[0] == BACKSLASH { StandsAt(o, p, r + [0], 1); }
  }

  lemma GetsMore(c: Char, r: Result<seq<Char>>, k: seq<Char>)
    requires c != 0
    ensures GetsText(Prepend([c], r), [c] + k) <==> GetsText(r, k)
  {
    if r.Ok? {
      assert ([c] + r.value)[1..] == r.value;
      assert BeforeNul([c] + r.value) == [c] + BeforeNul(r.value);
      assert ([c] + k)[1..] == k;
    }
  }

  /** One printed character comes out whole, and where it leaves minifying. */
  lemma EscapeOut(m: seq<Char>, i: nat, inside: bool, o: seq<Char>, p: nat, c: Char)
    requires Out(m, i, inside, o, p) && Kept(c) && Stands(m, i, Escape(c)) && i + |Escape(c)| < |m|
    requires inside || (c != SPACE && c != SLASH)
    requires inside && c == BACKSLASH ==> m[i+2] != QUOTE
    ensures Stands(o, p, Escape(c)) && Out(m, i + |Escape(c)|, inside || c == QUOTE, o, p + |Escape(c)|)
  {
    hide Stands, Rest;
    var e := Escape(c);
    StandsAt(m, i, e, 0);
    if |e| == 1 {
      RestKeeps(m, i, inside);
      OutNext(m, i, inside, o, p, e, i + 1, inside);
    } else {
      StandsAt(m, i, e, 1);
      if inside && c == QUOTE {
        RestPair(m, i);
        OutNext(m, i, inside, o, p, e, i + 2, true);
      } else {
        RestKeeps(m, i, inside);
        if c == QUOTE { RestQuote(m, i + 1, inside); } else { RestKeeps(m, i + 1, inside); }
        var rest := Rest(m, i + 2, inside || c == QUOTE);
        assert [m[i]] + ([m[i+1]] + rest) == e + rest;
        OutNext(m, i, inside, o, p, e, i + 2, inside || c == QUOTE);
      }
    }
  }

  /** The characters of a literal, up to its closing quote. */
  lemma {:induction false} CharsOut(m: seq<Char>, i: nat, inside: bool, o: seq<Char>, p: nat, s: seq<Char>, n: nat)
    returns (e: nat)
    requires n <= |s| && Out(m, i, inside, o, p) && Stands(m, i, EscapeFrom(s, n) + [QUOTE])
    ensures i + |EscapeFrom(s, n)| + 1 < |m|
    ensures Unharmed(s, n, inside) ==>
              && ParseChars(o, p) == Ok(KeptFrom(s, n), e)
              && Out(m, i + |EscapeFrom(s, n)| + 1, Turned(s, n, inside), o, e)
    ensures !Unharmed(s, n, inside) ==> !GetsText(ParseChars(o, p), KeptFrom(s, n))
    decreases |s| - n
  {
    hide Out, Stands, Escape, ParseChars, GetsText;
    OutInRange(m, i, inside, o, p);
    var t := EscapeFrom(s, n) + [QUOTE];
    StandsAt(m, i, t, |t| - 1);
    if n == |s| {
      StandsAt(m, i, t, 0);
      QuoteOut(m, i, inside, o, p);
      QuoteParsed(o, p);
      e := p + 1;
    } else {
      var c, esc, rest := s[n], Escape(s[n]), EscapeFrom(s, n + 1) + [QUOTE];
      Regroup(esc, EscapeFrom(s, n + 1), [QUOTE]);
      StandsSplit(m, i, esc, rest);
      StandsAt(m, i + |esc|, rest, 0);
      EscapeKept(c);
      RestStarts(s, n + 1);
      if !Kept(c) {
        e := CharsOut(m, i, inside, o, p, s, n + 1);
      } else if inside && c == BACKSLASH && KeptFrom(s, n + 1) == [] {
        e := MisledOut(m, i, o, p, s, n);
      } else if !inside && (c == SPACE || c == SLASH) {
        EscapeIsPlain(c);
        StandsAt(m, i, esc, 0);
        Missed(m, i, o, p, KeptFrom(s, n));
        e := p;
      } else {
        e := CharOut(m, i, inside, o, p, s, n);
      }
    }
  }

  lemma QuoteParsed(o: seq<Char>, p: nat)
    requires p < |o| && o[p] == QUOTE
    ensures ParseChars(o, p) == Ok([], p + 1)
  {
  }

  lemma EscapeIsPlain(c: Char)
    ensures c == SPACE || c == SLASH ==> Escape(c) == [c]
  {
  }

  /** What one character does to a literal, and to where minifying takes itself to be. */
  lemma CharSteps(s: seq<Char>, n: nat, inside: bool)
    requires n < |s| && Kept(s[n]) && (inside || (s[n] != SPACE && s[n] != SLASH))
    requires inside && s[n] == BACKSLASH ==> KeptFrom(s, n + 1) != []
    ensures KeptFrom(s, n) == [s[n]] + KeptFrom(s, n + 1) && EscapeFrom(s, n) == Escape(s[n]) + EscapeFrom(s, n + 1)
    ensures Unharmed(s, n, inside) <==> Unharmed(s, n + 1, inside || s[n] == QUOTE)
    ensures Turned(s, n, inside) == Turned(s, n + 1, inside || s[n] == QUOTE)
  {
  }

  /** One character comes out and is parsed. */
  lemma CharFirst(m: seq<Char>, i: nat, inside: bool, o: seq<Char>, p: nat, s: seq<Char>, n: nat)
    requires n < |s| && Out(m, i, inside, o, p) && Stands(m, i, EscapeFrom(s, n) + [QUOTE])
    requires Kept(s[n]) && (inside || (s[n] != SPACE && s[n] != SLASH))
    requires inside && s[n] == BACKSLASH ==> KeptFrom(s, n + 1) != []
    ensures var next, esc := inside || s[n] == QUOTE, Escape(s[n]);
            && Out(m, i + |esc|, next, o, p + |esc|) && Stands(m, i + |esc|, EscapeFrom(s, n + 1) + [QUOTE])
            && ParseChars(o, p) == Prepend([s[n]], ParseChars(o, p + |esc|))
  {
    hide Out, Stands, Escape, ParseChars, Kept;
    OutInRange(m, i, inside, o, p);
    var c, esc, rest := s[n], Escape(s[n]), EscapeFrom(s, n + 1) + [QUOTE];
    Regroup(esc, EscapeFrom(s, n + 1), [QUOTE]);
    StandsSplit(m, i, esc, rest);
    StandsAt(m, i + |esc|, rest, 0);
    RestStarts(s, n + 1);
    BackslashPair(c);
    if inside && c == BACKSLASH {
      assert rest[0] == EscapeFrom(s, n + 1)[0];
      assert m[i+2] == rest[0];
    }
    EscapeOut(m, i, inside, o, p, c);
    OutInRange(m, i + |esc|, inside || c == QUOTE, o, p + |esc|);
    EscapeBack(o, p, c);
  }

  /** The common case: one character, then the others. */
  lemma {:induction false} CharOut(m: seq<Char>, i: nat, inside: bool, o: seq<Char>, p: nat, s: seq<Char>, n: nat)
    returns (e: nat)
    requires n < |s| && Out(m, i, inside, o, p) && Stands(m, i, EscapeFrom(s, n) + [QUOTE])
    requires Kept(s[n]) && (inside || (s[n] != SPACE && s[n] != SLASH))
    requires inside && s[n] == BACKSLASH ==> KeptFrom(s, n + 1) != []
    ensures i + |EscapeFrom(s, n)| + 1 < |m|
    ensures Unharmed(s, n, inside) ==>
              && ParseChars(o, p) == Ok(KeptFrom(s, n), e)
              && Out(m, i + |EscapeFrom(s, n)| + 1, Turned(s, n, inside), o, e)
    ensures !Unharmed(s, n, inside) ==> !GetsText(ParseChars(o, p), KeptFrom(s, n))
    decreases |s| - n, 0
  {
    hide Out, Stands, Escape, ParseChars, GetsText, Kept, KeptFrom, EscapeFrom, Unharmed, Turned;
    CharSteps(s, n, inside);
    var esc := Escape(s[n]);
    CharFirst(m, i, inside, o, p, s, n);
    BackslashPair(s[n]);
    e := CharsOut(m, i + |esc|, inside || s[n] == QUOTE, o, p + |esc|, s, n + 1);
    GetsMore(s[n], ParseChars(o, p + |esc|), KeptFrom(s, n + 1));
  }

  lemma BackslashPair(c: Char)
    ensures c == BACKSLASH ==> |Escape(c)| == 2
    ensures Kept(c) ==> c != 0
  {
  }

  /** A backslash, escaped, before the closing quote: minifying does not see the string end, the parser does. */
  lemma MisledOut(m: seq<Char>, i: nat, o: seq<Char>, p: nat, s: seq<Char>, n: nat) returns (e: nat)
    requires n < |s| && s[n] == BACKSLASH && EscapeFrom(s, n + 1) == [] && KeptFrom(s, n + 1) == []
    requires Out(m, i, true, o, p) && Stands(m, i, EscapeFrom(s, n) + [QUOTE])
    ensures |EscapeFrom(s, n)| == 2 && i + 3 < |m|
    ensures ParseChars(o, p) == Ok(KeptFrom(s, n), e) && Out(m, i + 3, true, o, e)
  {
    hide Stands, Rest;
    var t := EscapeFrom(s, n) + [QUOTE];
    assert t == [BACKSLASH, BACKSLASH, QUOTE];
    StandsAt(m, i, t, 0);
    StandsAt(m, i, t, 1);
    StandsAt(m, i, t, 2);
    RestKeeps(m, i, true);
    RestPair(m, i + 1);
    assert [BACKSLASH] + ([BACKSLASH, QUOTE] + Rest(m, i + 3, true)) == t + Rest(m, i + 3, true);
    assert Escaped(m, i + 2) && Escaped(m, i + 3);
    OutNext(m, i, true, o, p, t, i + 3, true);
    StandsAt(o, p, t, 0);
    StandsAt(o, p, t, 1);
    StandsAt(o, p, t, 2);
    e := p + 3;
    assert ParseChars(o, p + 2) == Ok([], e);
    assert ParseChars(o, p) == Prepend([BACKSLASH], ParseChars(o, p + 2));
  }

  /** A literal: it survives, or something else is parsed in its place. */
  lemma LiteralOut(m: seq<Char>, i: nat, inside: bool, o: seq<Char>, p: nat, s: seq<Char>) returns (e: nat)
    requires Out(m, i, inside, o, p) && Stands(m, i, RenderString(s))
    ensures i + |RenderString(s)| < |m| && p < |o| && o[p] == QUOTE
    ensures Unharmed(s, 0, !inside) ==>
              && ParseString(o, p) == Ok(KeptFrom(s, 0), e)
              && Out(m, i + |RenderString(s)|, Turned(s, 0, !inside), o, e)
    ensures !Unharmed(s, 0, !inside) ==> !(ParseString(o, p).Ok? && ParseString(o, p).value == KeptFrom(s, 0))
  {
    hide EscapeFrom, KeptFrom, BeforeNul, Unharmed, Turned, Out, Stands;
    OutInRange(m, i, inside, o, p);
    StandsSplit(m, i, [QUOTE], EscapeFrom(s, 0) + [QUOTE]);
    StandsAt(m, i, [QUOTE], 0);
    QuoteOut(m, i, inside, o, p);
    e := CharsOut(m, i + 1, !inside, o, p + 1, s, 0);
    KeptNulFree(s, 0);
  }

  // ---------------------------------------------------------------- values

  /** Whether a value survives; `inside` is where minifying takes the text before it to be. */
  predicate Survives(v: Value, inside: bool)
    decreases v, 0, 0
  {
    match v
    case Str(s) => Unharmed(s, 0, !inside)
    case Array(items) => ItemsSurvive(items, 0, inside)
    case Object(members) => MembersSurvive(members, 0, inside)
    case _ => true
  }

  /** Where minifying takes the text after a value to be. */
  function Leaves(v: Value, inside: bool): bool
    decreases v, 0, 0
  {
    match v
    case Str(s) => Turned(s, 0, !inside)
    case Array(items) => ItemsLeave(items, 0, inside)
    case Object(members) => MembersLeave(members, 0, inside)
    case _ => inside
  }

  predicate ItemsSurvive(items: seq<Value>, i: nat, inside: bool)
    requires i <= |items|
    decreases items, 0, |items| - i
  {
    i == |items| || (Survives(items[i], inside) && ItemsSurvive(items, i + 1, Leaves(items[i], inside)))
  }

  function ItemsLeave(items: seq<Value>, i: nat, inside: bool): bool
    requires i <= |items|
    decreases items, 0, |items| - i
  {
    if i == |items| then inside else ItemsLeave(items, i + 1, Leaves(items[i], inside))
  }

  predicate MemberSurvives(e: Member, inside: bool)
    decreases e, 1, 0
  {
    Unharmed(e.name, 0, !inside) && Survives(e.value, Turned(e.name, 0, !inside))
  }

  function MemberLeaves(e: Member, inside: bool): bool
    decreases e, 1, 0
  {
    Leaves(e.value, Turned(e.name, 0, !inside))
  }

  predicate MembersSurvive(members: seq<Member>, i: nat, inside: bool)
    requires i <= |members|
    decreases members, 0, |members| - i
  {
    i == |members| || (MemberSurvives(members[i], inside)
        && MembersSurvive(members, i + 1, MemberLeaves(members[i], inside)))
  }

  function MembersLeave(members: seq<Member>, i: nat, inside: bool): bool
    requires i <= |members|
    decreases members, 0, |members| - i
  {
    if i == |members| then inside else MembersLeave(members, i + 1, MemberLeaves(members[i], inside))
  }

  ghost predicate Gets<T>(r: Result<T>, v: T) {
    r.Ok? && r.value == v
  }

  /** The first character of a value's text comes out first. */
  lemma StartOut(m: seq<Char>, i: nat, inside: bool, o: seq<Char>, p: nat, v: Value, depth: nat)
    requires Out(m, i, inside, o, p) && Stands(m, i, Render(v, depth, true))
    ensures p < |o| && o[p] > 32 && o[p] != RBRACKET && o[p] == Render(v, depth, true)[0]
  {
    var t := Render(v, depth, true);
    StandsAt(m, i, t, 0);
    assert t[0] > 32 && t[0] != RBRACKET && t[0] != SLASH && t[0] != BACKSLASH;
    if t[0] == QUOTE { QuoteOut(m, i, inside, o, p); } else { KeepsOut(m, i, inside, o, p); }
  }

  lemma OneOut(m: seq<Char>, i: nat, inside: bool, o: seq<Char>, p: nat, c: Char)
    requires Out(m, i, inside, o, p) && Stands(m, i, [c]) && c > 32 && c != QUOTE && c != BACKSLASH && c != SLASH
    ensures p < |o| && o[p] == c && Skip(o, p) == p && i + 1 < |m| && Out(m, i + 1, inside, o, p + 1)
  {
    StandsAt(m, i, [c], 0);
    KeepsOut(m, i, inside, o, p);
    SkipNothing(o, p);
  }

  lemma NumberOut(m: seq<Char>, i: nat, inside: bool, o: seq<Char>, p: nat, n: int, blanks: seq<Char>, c: Char)
    returns (e: nat)
    requires Out(m, i, inside, o, p) && -0x8000_0000 <= n < 0x8000_0000 && Stands(m, i, RenderNumber(n))
    requires Stands(m, i + |RenderNumber(n)|, blanks + [c]) && AllSpace(blanks) && Closer(c)
    ensures i + |RenderNumber(n)| < |m|
    ensures ParseValue(o, p) == Ok(Clean(Number(n)), e) && Out(m, i + |RenderNumber(n)|, inside, o, e)
  {
    hide Out, Stands;
    OutInRange(m, i, inside, o, p);
    var t := RenderNumber(n);
    PlainOut(m, i, inside, o, p, t);
    e := p + |t|;
    NoDigitOut(m, i + |t|, inside, o, e, blanks, c);
    NumberBack(o, p, n);
    Dispatch(o, p);
  }

  lemma WordOut(m: seq<Char>, i: nat, inside: bool, o: seq<Char>, p: nat, v: Value) returns (e: nat)
    requires Out(m, i, inside, o, p) && (v.Null? || v.False? || v.True?) && Stands(m, i, Render(v, 0, true))
    ensures i + |Render(v, 0, true)| < |m|
    ensures ParseValue(o, p) == Ok(v, e) && Out(m, i + |Render(v, 0, true)|, inside, o, e)
  {
    hide Out, Stands;
    OutInRange(m, i, inside, o, p);
    PlainOut(m, i, inside, o, p, Render(v, 0, true));
    WordBack(o, p, v);
    e := p + |Render(v, 0, true)|;
  }

  lemma StringOut(m: seq<Char>, i: nat, inside: bool, o: seq<Char>, p: nat, s: seq<Char>) returns (e: nat)
    requires Out(m, i, inside, o, p) && Stands(m, i, RenderString(s))
    ensures i + |RenderString(s)| < |m| && p < |o| && Block(o)
    ensures Survives(Str(s), inside) ==>
              && ParseValue(o, p) == Ok(Clean(Str(s)), e)
              && Out(m, i + |RenderString(s)|, Leaves(Str(s), inside), o, e)
    ensures !Survives(Str(s), inside) ==> !Gets(ParseValue(o, p), Clean(Str(s)))
  {
    hide Out, Stands, ParseString, RenderString;
    OutInRange(m, i, inside, o, p);
    e := LiteralOut(m, i, inside, o, p, s);
    Dispatch(o, p);
  }

  /** The text of a value, minified: it is parsed to the value printed exactly if the value survives. */
  lemma {:induction false} ValueOut(m: seq<Char>, i: nat, inside: bool, o: seq<Char>, p: nat, v: Value, depth: nat,
                                    blanks: seq<Char>, c: Char) returns (e: nat)
    requires Out(m, i, inside, o, p) && Held(v) && Stands(m, i, Render(v, depth, true))
    requires Stands(m, i + |Render(v, depth, true)|, blanks + [c]) && AllSpace(blanks) && Closer(c)
    ensures p < |o| && Block(o)
    ensures Survives(v, inside) ==>
              && ParseValue(o, p) == Ok(Clean(v), e)
              && Out(m, i + |Render(v, depth, true)|, Leaves(v, inside), o, e)
    ensures !Survives(v, inside) ==> !Gets(ParseValue(o, p), Clean(v))
    decreases v, 0, 0
  {
    hide Out, Stands, ParseValue, ItemsSurvive, ItemsLeave, MembersSurvive, MembersLeave, Skip;
    OutInRange(m, i, inside, o, p);
    match v
    case Number(n) =>
      e := NumberOut(m, i, inside, o, p, n, blanks, c);
    case Str(s) =>
      e := StringOut(m, i, inside, o, p, s);
    case Array(items) =>
      e := ArrayOut(m, i, inside, o, p, items, depth);
    case Object(members) =>
      e := ObjectOut(m, i, inside, o, p, members, depth);
    case _ =>
      e := WordOut(m, i, inside, o, p, v);
  }

  lemma {:induction false} ArrayOut(m: seq<Char>, i: nat, inside: bool, o: seq<Char>, p: nat, items: seq<Value>,
                                    depth: nat)
    returns (e: nat)
    requires Out(m, i, inside, o, p) && AllHeld(items) && Stands(m, i, Render(Array(items), depth, true))
    ensures p < |o| && Block(o)
    ensures Survives(Array(items), inside) ==>
              && ParseValue(o, p) == Ok(Clean(Array(items)), e)
              && Out(m, i + |Render(Array(items), depth, true)|, Leaves(Array(items), inside), o, e)
    ensures !Survives(Array(items), inside) ==> !Gets(ParseValue(o, p), Clean(Array(items)))
    decreases items, 1, 0
  {
    hide Out, Stands, ParseValue, ParseItems, RenderItems, Held, Skip, ItemsSurvive, ItemsLeave, CleanItems;
    OutInRange(m, i, inside, o, p);
    var inner := RenderItems(items, 0, depth + 1, true);
    StandsSplit(m, i, [LBRACKET], inner + [RBRACKET]);
    OneOut(m, i, inside, o, p, LBRACKET);
    Dispatch(o, p);
    if items == [] {
      NoItems(items, depth + 1, true);
      StandsSplit(m, i + 1, [], [RBRACKET]);
      OneOut(m, i + 1, inside, o, p + 1, RBRACKET);
      e := p + 2;
      NoneSurvives(items, [], inside);
    } else {
      ItemStands(m, i + 1, items, 0, depth + 1, true);
      StartOut(m, i + 1, inside, o, p + 1, items[0], depth + 1);
      SkipNothing(o, p + 1);
      e := ItemsOut(m, i + 1, inside, o, p + 1, p + 1, items, 0, depth + 1);
    }
  }

  lemma NoneSurvives(items: seq<Value>, members: seq<Member>, inside: bool)
    ensures ItemsSurvive(items, |items|, inside) && ItemsLeave(items, |items|, inside) == inside
             && CleanItems(items, |items|) == []
    ensures MembersSurvive(members, |members|, inside) && MembersLeave(members, |members|, inside) == inside
    ensures CleanMembers(members, |members|) == []
  {
  }

  lemma ItemsSurviveStep(items: seq<Value>, i: nat, inside: bool)
    requires i < |items|
    ensures ItemsSurvive(items, i, inside) <==>
             Survives(items[i], inside) && ItemsSurvive(items, i + 1, Leaves(items[i], inside))
    ensures ItemsLeave(items, i, inside) == ItemsLeave(items, i + 1, Leaves(items[i], inside))
    ensures CleanItems(items, i) == [Clean(items[i])] + CleanItems(items, i + 1)
  {
  }

  lemma GetsNext<T>(r: Result<T>, v: T, rest: Result<seq<T>>, vs: seq<T>)
    requires r.Ok?
    ensures Gets(Prepend([r.value], rest), [v] + vs) <==> Gets(r, v) && Gets(rest, vs)
  {
    if rest.Ok? {
      var a, b := [r.value] + rest.value, [v] + vs;
      assert a[0] == r.value && b[0] == v && a[1..] == rest.value && b[1..] == vs;
    }
  }

  lemma {:induction false} ItemsOut(m: seq<Char>, i: nat, inside: bool, o: seq<Char>, q: nat, p: nat,
                                    items: seq<Value>, n: nat,
                                    depth: nat) returns (e: nat)
    requires n < |items| && AllHeld(items) && Out(m, i, inside, o, p) && q <= |o| && Skip(o, q) == p
    requires Stands(m, i, RenderItems(items, n, depth, true) + [RBRACKET])
    ensures Block(o)
    ensures ItemsSurvive(items, n, inside) ==>
              && ParseItems(o, q) == Ok(CleanItems(items, n), e)
              && Out(m, i + |RenderItems(items, n, depth, true)| + 1, ItemsLeave(items, n, inside), o, e)
    ensures !ItemsSurvive(items, n, inside) ==> !Gets(ParseItems(o, q), CleanItems(items, n))
    decreases items, 0, |items| - n
  {
    hide Out, Stands, ParseValue, ParseItems, AfterItem, RenderItems, Render, Held, Skip, ItemsSurvive, ItemsLeave,
         CleanItems, Gets,
         Survives, Leaves, Clean;
    OutInRange(m, i, inside, o, p);
    ItemStands(m, i, items, n, depth, true);
    var more := n + 1 < |items|;
    var text, sep := Render(items[n], depth, true), Separator(more, true);
    var end, c := i + |text|, if more then COMMA else RBRACKET;
    OneStands(m, end, c);
    ItemsSurviveStep(items, n, inside);
    assert AllSpace([]) && [] + [c] == [c];
    e := ValueOut(m, i, inside, o, p, items[n], depth, [], c);
    ItemsStep(o, q);
    if !Survives(items[n], inside) {
      ItemLost(o, q, p, items, n);
    } else {
      var rest := AfterItem(o, e);
      OneOut(m, end, Leaves(items[n], inside), o, e, c);
      AfterItemAt(o, e);
      if more {
        StandsSplit(m, end, [COMMA], [SPACE]);
        var e1 := BlanksOut(m, end + 1, Leaves(items[n], inside), o, e + 1, [SPACE]);
        ItemStands(m, end + 2, items, n + 1, depth, true);
        StartOut(m, end + 2, Leaves(items[n], inside), o, e1, items[n+1], depth);
        SkipNothing(o, e1);
        var e2 := ItemsOut(m, end + 2, Leaves(items[n], inside), o, e + 1, e1, items, n + 1, depth);
        GetsNext(ParseValue(o, p), Clean(items[n]), rest, CleanItems(items, n + 1));
        e := e2;
      } else {
        NoItems(items, depth, true);
        NoneSurvives(items, [], Leaves(items[n], inside));
        e := e + 1;
      }
    }
  }

  lemma OneStands(m: seq<Char>, i: nat, c: Char)
    requires i < |m| && m[i] == c
    ensures Stands(m, i, [c])
  {
  }

  /** An item that is parsed to something else spoils the list. */
  lemma ItemLost(o: seq<Char>, q: nat, p: nat, items: seq<Value>, n: nat)
    requires Block(o) && q <= |o| && p <= |o| && Skip(o, q) == p && n < |items|
             && !Gets(ParseValue(o, p), Clean(items[n]))
    ensures !Gets(ParseItems(o, q), CleanItems(items, n))
  {
    hide ParseValue, AfterItem, ParseItems, CleanItems;
    ItemsStep(o, q);
    var r := ParseValue(o, p);
    ItemsSurviveStep(items, n, false);
    if r.Ok? { GetsNext(r, Clean(items[n]), AfterItem(o, Skip(o, r.pos)), CleanItems(items, n + 1)); }
  }

  // ---------------------------------------------------------------- objects

  lemma {:induction false} ObjectOut(m: seq<Char>, i: nat, inside: bool, o: seq<Char>, p: nat, members: seq<Member>,
                                     depth: nat)
    returns (e: nat)
    requires Out(m, i, inside, o, p) && AllMembersHeld(members) && Stands(m, i, Render(Object(members), depth, true))
    ensures p < |o| && Block(o)
    ensures Survives(Object(members), inside) ==>
              && ParseValue(o, p) == Ok(Clean(Object(members)), e)
              && Out(m, i + |Render(Object(members), depth, true)|, Leaves(Object(members), inside), o, e)
    ensures !Survives(Object(members), inside) ==> !Gets(ParseValue(o, p), Clean(Object(members)))
    decreases members, 1, 0
  {
    hide Out, Stands, ParseValue, ParseMembers, RenderMembers, Held, Skip, MembersSurvive, MembersLeave, CleanMembers;
    OutInRange(m, i, inside, o, p);
    var inner, close := RenderMembers(members, 0, depth + 1, true), Closing(depth, true);
    StandsSplit(m, i, [LBRACE], [NL] + (inner + close));
    StandsSplit(m, i + 1, [NL], inner + close);
    OneOut(m, i, inside, o, p, LBRACE);
    Dispatch(o, p);
    var q := BlanksOut(m, i + 1, inside, o, p + 1, [NL]);
    if members == [] {
      MembersEnd(members, depth + 1, true, close);
      assert inner + close == close;
      e := CloseOut(m, i + 2, inside, o, q, depth);
      NoneSurvives([], members, inside);
    } else {
      NameFirst(m, i + 2, inside, o, q, members, 0, depth + 1, close);
      SkipAgain(o, p + 1);
      e := MembersOut(m, i + 2, inside, o, Skip(o, p + 1), q, members, 0, depth + 1);
    }
  }

  /** The layout and the brace that end an object. */
  lemma CloseOut(m: seq<Char>, i: nat, inside: bool, o: seq<Char>, q: nat, depth: nat) returns (e: nat)
    requires Out(m, i, inside, o, q) && Stands(m, i, Closing(depth, true))
    ensures Skip(o, q) < |o| && o[Skip(o, q)] == RBRACE && e == Skip(o, q) + 1 && q <= |o|
    ensures Out(m, i + |Closing(depth, true)|, inside, o, e)
  {
    hide Out, Stands, Skip;
    OutInRange(m, i, inside, o, q);
    StandsSplit(m, i, Tabs(depth), [RBRACE]);
    var p := BlanksOut(m, i, inside, o, q, Tabs(depth));
    OneOut(m, i + depth, inside, o, p, RBRACE);
    e := p + 1;
  }

  /** A name comes next. */
  lemma NameFirst(m: seq<Char>, i: nat, inside: bool, o: seq<Char>, q: nat, members: seq<Member>, n: nat, depth: nat,
                  tail: seq<Char>)
    requires n < |members| && Out(m, i, inside, o, q) && Stands(m, i, RenderMembers(members, n, depth, true) + tail)
    ensures q <= |o| && Skip(o, q) < |o| && o[Skip(o, q)] == QUOTE
    ensures i + depth < |m| && Out(m, i + depth, inside, o, Skip(o, q))
  {
    hide Out, Stands, Skip, RenderMembers, RenderString, Render;
    OutInRange(m, i, inside, o, q);
    var e := members[n];
    MemberStands(m, i, members, n, depth, true, tail);
    var rest := [COLON, TAB] + (Render(e.value, depth, true)
      + (After(n + 1 < |members|, true) + (RenderMembers(members, n + 1, depth, true) + tail)));
    assert [COLON] + Blanks([TAB], true) == [COLON, TAB];
    StandsSplit(m, i + depth, RenderString(e.name), rest);
    var p := BlanksOut(m, i, inside, o, q, Tabs(depth));
    NameStarts(m, i + depth, e.name);
    QuoteOut(m, i + depth, inside, o, p);
    SkipNothing(o, p);
  }

  /** A member: name, colon and value. */
  lemma {:induction false} MemberOut(m: seq<Char>, i: nat, inside: bool, o: seq<Char>, q: nat, e: Member, depth: nat,
                                     blanks: seq<Char>, c: Char) returns (r: nat)
    requires Held(e.value) && q <= |o| && Skip(o, q) <= |o| && Out(m, i, inside, o, Skip(o, q))
             && Stands(m, i, RenderString(e.name))
    requires Stands(m, i + |RenderString(e.name)|, [COLON, TAB])
    requires Stands(m, i + |RenderString(e.name)| + 2, Render(e.value, depth, true))
    requires Stands(m, i + |RenderString(e.name)| + 2 + |Render(e.value, depth, true)|, blanks + [c])
             && AllSpace(blanks) && Closer(c)
    ensures Block(o)
    ensures MemberSurvives(e, inside) ==>
              && ParseMember(o, q) == Ok(CleanMember(e), r)
              && Out(m, i + |RenderString(e.name)| + 2 + |Render(e.value, depth, true)|, MemberLeaves(e, inside), o, r)
    ensures !MemberSurvives(e, inside) ==> !Gets(ParseMember(o, q), CleanMember(e))
    decreases e, 1, 0
  {
    hide Out, Stands, Skip, RenderString, Render, ParseString, ParseValue, Survives, Leaves, Unharmed, Turned, Clean;
    var p, at := Skip(o, q), Turned(e.name, 0, !inside);
    OutInRange(m, i, inside, o, p);
    var e1 := LiteralOut(m, i, inside, o, p, e.name);
    r := e1;
    if Unharmed(e.name, 0, !inside) {
      var j := i + |RenderString(e.name)|;
      assert [COLON, TAB] == [COLON] + [TAB];
      StandsSplit(m, j, [COLON], [TAB]);
      OneOut(m, j, at, o, e1, COLON);
      var e2 := BlanksOut(m, j + 1, at, o, e1 + 1, [TAB]);
      StartOut(m, j + 2, at, o, e2, e.value, depth);
      SkipNothing(o, e2);
      r := ValueOut(m, j + 2, at, o, e2, e.value, depth, blanks, c);
    }
  }

  lemma MembersSurviveStep(members: seq<Member>, i: nat, inside: bool)
    requires i < |members|
    ensures MembersSurvive(members, i, inside)
            <==> MemberSurvives(members[i], inside) && MembersSurvive(members, i + 1, MemberLeaves(members[i], inside))
    ensures MembersLeave(members, i, inside) == MembersLeave(members, i + 1, MemberLeaves(members[i], inside))
    ensures CleanMembers(members, i) == [CleanMember(members[i])] + CleanMembers(members, i + 1)
  {
  }

  /** What stands behind the value of a member: layout, and a comma or the end of the object. */
  function Behind(more: bool, depth: nat): (seq<Char>, Char) {
    if more then ([], COMMA) else ([NL] + Tabs(depth), RBRACE)
  }

  /** The pieces of a member, each in its place. */
  lemma MemberPieces(m: seq<Char>, i: nat, members: seq<Member>, n: nat, depth: nat)
    requires n < |members| && depth > 0 && Stands(m, i,
             RenderMembers(members, n, depth, true) + Closing(depth - 1, true))
    ensures var e, more := members[n], n + 1 < |members|;
            var name, text := RenderString(e.name), Render(e.value, depth, true);
            var end := i + depth + |name| + 2 + |text|;
            && Stands(m, i + depth, name) && Stands(m, i + depth + |name|, [COLON, TAB])
               && Stands(m, i + depth + |name| + 2, text)
            && Stands(m, end, Behind(more, depth - 1).0 + [Behind(more, depth - 1).1])
               && AllSpace(Behind(more, depth - 1).0)
            && Stands(m, end, After(more, true))
            && Stands(m, end + |After(more, true)|,
               RenderMembers(members, n + 1, depth, true) + Closing(depth - 1, true))
            && i + |RenderMembers(members, n, depth, true)|
               == end + |After(more, true)| + |RenderMembers(members, n + 1, depth, true)|
  {
    hide Stands, RenderString, Render;
    var e, more, close := members[n], n + 1 < |members|, Closing(depth - 1, true);
    var name, text, after := RenderString(e.name), Render(e.value, depth, true), After(more, true);
    var rest := RenderMembers(members, n + 1, depth, true) + close;
    MemberStands(m, i, members, n, depth, true, close);
    assert [COLON] + Blanks([TAB], true) == [COLON, TAB];
    var j := i + depth;
    StandsSplit(m, j, name, [COLON, TAB] + (text + (after + rest)));
    StandsSplit(m, j + |name|, [COLON, TAB], text + (after + rest));
    StandsSplit(m, j + |name| + 2, text, after + rest);
    var end := j + |name| + 2 + |text|;
    if more {
      assert after + rest == [COMMA] + ([NL] + rest);
      StandsSplit(m, end, [COMMA], [NL] + rest);
      assert [] + [COMMA] == [COMMA];
    } else {
      MembersEnd(members, depth, true, close);
      assert after + rest == [NL] + Tabs(depth - 1) + [RBRACE] + [];
      StandsSplit(m, end, [NL] + Tabs(depth - 1) + [RBRACE], []);
    }
    StandsSplit(m, end, after, rest);
  }

  lemma {:induction false} MembersOut(m: seq<Char>, i: nat, inside: bool, o: seq<Char>, q0: nat, q: nat,
                                      members: seq<Member>, n: nat,
                                      depth: nat) returns (e: nat)
    requires n < |members| && depth > 0 && AllMembersHeld(members) && Out(m, i, inside, o, q)
    requires q0 <= |o| && q <= |o| && Skip(o, q0) == Skip(o, q)
    requires Stands(m, i, RenderMembers(members, n, depth, true) + Closing(depth - 1, true))
    ensures Block(o)
    ensures MembersSurvive(members, n, inside) ==>
              && ParseMembers(o, q0) == Ok(CleanMembers(members, n), e)
              && Out(m, i + |RenderMembers(members, n, depth, true)| + |Closing(depth - 1, true)|,
                 MembersLeave(members, n, inside), o, e)
    ensures !MembersSurvive(members, n, inside) ==> !Gets(ParseMembers(o, q0), CleanMembers(members, n))
    decreases members, 0, |members| - n
  {
    hide Out, Stands, Skip, RenderMembers, RenderString, Render, ParseMember, ParseMembers, AfterMember,
         MembersSurvive, MembersLeave,
         MemberSurvives, MemberLeaves, CleanMembers, CleanMember, Gets, Closing, Held;
    OutInRange(m, i, inside, o, q);
    var b, more, close := members[n], n + 1 < |members|, Closing(depth - 1, true);
    var next := MemberLeaves(b, inside);
    NameFirst(m, i, inside, o, q, members, n, depth, close);
    MemberPieces(m, i, members, n, depth);
    MembersSurviveStep(members, n, inside);
    MembersStep(o, q0);
    e := MemberOut(m, i + depth, inside, o, q0, b, depth, Behind(more, depth - 1).0, Behind(more, depth - 1).1);
    if !MemberSurvives(b, inside) {
      MemberLost(o, q0, members, n);
    } else {
      var end := i + depth + |RenderString(b.name)| + 2 + |Render(b.value, depth, true)|;
      OutInRange(m, end, next, o, e);
      if more {
        assert After(true, true) == [COMMA] + [NL];
        StandsSplit(m, end, [COMMA], [NL]);
        OneOut(m, end, next, o, e, COMMA);
        AfterMemberAt(o, e);
        var q1 := BlanksOut(m, end + 1, next, o, e + 1, [NL]);
        var e2 := MembersOut(m, end + 2, next, o, e + 1, q1, members, n + 1, depth);
        GetsNext(ParseMember(o, q0), CleanMember(b), AfterMember(o, e), CleanMembers(members, n + 1));
        e := e2;
      } else {
        e := LastMember(m, end, next, o, e, members, n, depth);
      }
    }
  }

  /** Behind the last member the object ends. */
  lemma LastMember(m: seq<Char>, end: nat, inside: bool, o: seq<Char>, e: nat, members: seq<Member>, n: nat,
                   depth: nat) returns (e': nat)
    requires n + 1 == |members| && depth > 0 && Out(m, end, inside, o, e) && Stands(m, end, After(false, true))
    requires Stands(m, end + |After(false, true)|, RenderMembers(members, n + 1, depth, true) + Closing(depth - 1,
             true))
    ensures e <= |o| && Block(o) && AfterMember(o, Skip(o, e)) == Ok([], e')
    ensures RenderMembers(members, n + 1, depth, true) == []
    ensures Out(m, end + |After(false, true)| + |Closing(depth - 1, true)|, MembersLeave(members, n + 1, inside), o, e')
    ensures MembersSurvive(members, n + 1, inside) && CleanMembers(members, n + 1) == []
  {
    hide Out, Stands, Skip, RenderMembers, AfterMember, ParseMembers, MembersSurvive, CleanMembers, Closing;
    OutInRange(m, end, inside, o, e);
    var close := Closing(depth - 1, true);
    assert After(false, true) == [NL];
    var q := BlanksOut(m, end, inside, o, e, [NL]);
    MembersEnd(members, depth, true, close);
    assert RenderMembers(members, n + 1, depth, true) + close == close;
    e' := CloseOut(m, end + 1, inside, o, q, depth - 1);
    AfterMemberAt(o, Skip(o, e));
    NoneSurvives([], members, inside);
  }

  lemma MemberLost(o: seq<Char>, q: nat, members: seq<Member>, n: nat)
    requires Block(o) && q <= |o| && n < |members| && !Gets(ParseMember(o, q), CleanMember(members[n]))
    ensures !Gets(ParseMembers(o, q), CleanMembers(members, n))
  {
    hide ParseMember, AfterMember, ParseMembers, CleanMembers, CleanMember;
    MembersStep(o, q);
    var r := ParseMember(o, q);
    MembersSurviveStep(members, n, false);
    if r.Ok? { GetsNext(r, CleanMember(members[n]), AfterMember(o, Skip(o, r.pos)), CleanMembers(members, n + 1)); }
  }

  // ---------------------------------------------------------------- all printed text is escaped

  lemma {:induction false} EscapedJoin(a: seq<Char>, b: seq<Char>, i: nat)
    requires i <= |a| && Escaped(a, i) && Escaped(b, 0)
    ensures Escaped(a + b, i)
    decreases |a| - i
  {
    if i < |a| {
      EscapedJoin(a, b, if a[i] == BACKSLASH then i + 2 else i + 1);
    } else {
      EscapedTail(a, b, 0);
    }
  }

  lemma {:induction false} EscapedTail(a: seq<Char>, b: seq<Char>, i: nat)
    requires i <= |b| && Escaped(b, i)
    ensures Escaped(a + b, |a| + i)
    decreases |b| - i
  {
    if i < |b| { EscapedTail(a, b, if b[i] == BACKSLASH then i + 2 else i + 1); }
  }

  lemma {:induction false} PlainEscaped(t: seq<Char>, i: nat)
    requires i <= |t| && BACKSLASH !in t
    ensures Escaped(t, i)
    decreases |t| - i
  {
    if i < |t| { PlainEscaped(t, i + 1); }
  }

  lemma {:induction false} CharsEscaped(s: seq<Char>, i: nat)
    requires i <= |s|
    ensures Escaped(EscapeFrom(s, i), 0)
    decreases |s| - i
  {
    if i < |s| {
      CharsEscaped(s, i + 1);
      var e := Escape(s[i]);
      assert Escaped(e, 0) by {
        assert |e| == 2 ==> Escaped(e, 2);
        assert |e| == 1 ==> Escaped(e, 1);
      }
      EscapedJoin(e, EscapeFrom(s, i + 1), 0);
    }
  }

  lemma LiteralEscaped(s: seq<Char>)
    ensures Escaped(RenderString(s), 0)
  {
    CharsEscaped(s, 0);
    PlainEscaped([QUOTE], 0);
    EscapedJoin(EscapeFrom(s, 0), [QUOTE], 0);
    EscapedJoin([QUOTE], EscapeFrom(s, 0) + [QUOTE], 0);
  }

  lemma {:induction false} TextEscaped(v: Value, depth: nat)
    ensures Escaped(Render(v, depth, true), 0)
    decreases v, 0, 0
  {
    hide Escaped;
    match v
    case Str(s) => LiteralEscaped(s);
    case Array(items) =>
      ItemsEscaped(items, 0, depth + 1);
      PlainEscaped([RBRACKET], 0);
      PlainEscaped([LBRACKET], 0);
      EscapedJoin(RenderItems(items, 0, depth + 1, true), [RBRACKET], 0);
      EscapedJoin([LBRACKET], RenderItems(items, 0, depth + 1, true) + [RBRACKET], 0);
    case Object(members) =>
      var t, close := RenderMembers(members, 0, depth + 1, true), Closing(depth, true);
      MembersEscaped(members, 0, depth + 1);
      PlainEscaped(close, 0);
      PlainEscaped([NL], 0);
      PlainEscaped([LBRACE], 0);
      EscapedJoin(t, close, 0);
      EscapedJoin([NL], t + close, 0);
      EscapedJoin([LBRACE], [NL] + (t + close), 0);
    case _ =>
      PlainEscaped(Render(v, depth, true), 0);
  }

  lemma {:induction false} ItemsEscaped(items: seq<Value>, i: nat, depth: nat)
    requires i <= |items|
    ensures Escaped(RenderItems(items, i, depth, true), 0)
    decreases items, 0, |items| - i
  {
    hide Escaped, Render;
    if i == |items| {
      PlainEscaped([], 0);
    } else {
      var sep, rest := Separator(i + 1 < |items|, true), RenderItems(items, i + 1, depth, true);
      TextEscaped(items[i], depth);
      ItemsEscaped(items, i + 1, depth);
      PlainEscaped(sep, 0);
      EscapedJoin(sep, rest, 0);
      EscapedJoin(Render(items[i], depth, true), sep + rest, 0);
    }
  }

  lemma {:induction false} MembersEscaped(members: seq<Member>, i: nat, depth: nat)
    requires i <= |members|
    ensures Escaped(RenderMembers(members, i, depth, true), 0)
    decreases members, 0, |members| - i
  {
    hide Escaped, RenderMember;
    if i == |members| {
      PlainEscaped([], 0);
    } else {
      var e, more := members[i], i + 1 < |members|;
      MemberEscaped(e, more, depth);
      MembersEscaped(members, i + 1, depth);
      EscapedJoin(RenderMember(e, more, depth, true), RenderMembers(members, i + 1, depth, true), 0);
    }
  }

  lemma {:induction false} MemberEscaped(e: Member, more: bool, depth: nat)
    ensures Escaped(RenderMember(e, more, depth, true), 0)
    decreases e, 1, 0
  {
    hide Escaped, Render, RenderString;
    var text, after := Render(e.value, depth, true), After(more, true);
    LiteralEscaped(e.name);
    TextEscaped(e.value, depth);
    PlainEscaped(after, 0);
    PlainEscaped([COLON] + [TAB], 0);
    PlainEscaped(Tabs(depth), 0);
    EscapedJoin(text, after, 0);
    EscapedJoin([COLON] + [TAB], text + after, 0);
    EscapedJoin(RenderString(e.name), ([COLON] + [TAB]) + (text + after), 0);
    EscapedJoin(Tabs(depth), RenderString(e.name) + (([COLON] + [TAB]) + (text + after)), 0);
  }

  // ---------------------------------------------------------------- the whole text

  /** Printed, minified and parsed, a value comes back (as it does without minifying) if and only if it survives. */
  lemma SurvivesExactly(v: Value)
    requires Held(v)
    ensures var m := Render(v, 0, true) + [0];
            var r := Minified(m, 0) + [0];
            && (Survives(v, false) ==> Parse(r) == Ok(Clean(v), |r| - 1))
            && (!Survives(v, false) ==> !Gets(Parse(r), Clean(v)))
  {
    hide Stands, Render, Minified, ParseValue, Escaped, Survives;
    var t := Render(v, 0, true);
    var m := t + [0];
    var o := Minified(m, 0) + [0];
    TextEscaped(v, 0);
    PlainEscaped([0], 0);
    EscapedJoin(t, [0], 0);
    AllStands(m, t);
    AllOut(m, o);
    StartOut(m, 0, false, o, 0, v, 0);
    SkipNothing(o, 0);
    assert AllSpace([]) && [] + [0] == [0];
    var e := ValueOut(m, 0, false, o, 0, v, 0, [], 0);
    if Survives(v, false) { EndOut(m, |t|, Leaves(v, false), o, e); }
  }

  lemma AllStands(m: seq<Char>, t: seq<Char>)
    requires m == t + [0]
    ensures Stands(m, 0, t) && Stands(m, |t|, [0])
  {
  }

  lemma AllOut(m: seq<Char>, o: seq<Char>)
    requires Block(m) && Escaped(m, 0) && o == Minified(m, 0) + [0]
    ensures Out(m, 0, false, o, 0)
  {
  }
}
