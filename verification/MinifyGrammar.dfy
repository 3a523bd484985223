/**
 What minifying keeps of any text at all: the text is blanks, comments, stray slashes, string literals and other
 characters, one after the other, and the literals and other characters are kept (`MinifiesExactly`). A literal ends
 at the first quote that no backslash precedes.
 */
module MinifyGrammar {
  import opened Bytes
  import opened Json
  import opened JsonRoundTrip
  import opened JsonMinify

  // ---------------------------------------------------------------- the parts of a text

  /** A comment or literal that is not `ended` goes on to the end of the text. */
  datatype Part =
    | Gap(c: Char)
    | Line(body: seq<Char>, ended: bool)
    | Comment(body: seq<Char>, ended: bool)
    | Stray
    | Quoted(body: seq<Char>, ended: bool)
    | Other(c: Char)

  function PartText(x: Part): (t: seq<Char>)
    ensures t != []
  {
    match x
    case Gap(c) => [c]
    case Line(body, ended) => Delimited(['/' as int, '/' as int], body, if ended then ['\n' as int] else [])
    case Comment(body, ended) =>
      Delimited(['/' as int, '*' as int], body, if ended then ['*' as int, '/' as int] else [])
    case Stray => ['/' as int]
    case Quoted(body, ended) => Delimited(['"' as int], body, if ended then ['"' as int] else [])
    case Other(c) => [c]
  }

  function Delimited(open: seq<Char>, body: seq<Char>, close: seq<Char>): (t: seq<Char>)
    ensures |t| == |open| + |body| + |close|
  {
    open + body + close
  }

  function PartKept(x: Part): seq<Char> {
    if x.Quoted? || x.Other? then PartText(x) else []
  }

  predicate IsGap(c: Char) {
    c == ' ' as int || c == '\t' as int || c == '\r' as int || c == '\n' as int
  }

  predicate Unended(x: Part) {
    (x.Line? || x.Comment? || x.Quoted?) && !x.ended
  }

  predicate PartOk(x: Part) {
    match x
    case Gap(c) => IsGap(c)
    case Line(body, _) => 0 !in body && '\n' as int !in body
    case Comment(body, _) =>
      0 !in body && forall i :: 0 <= i < |body| - 1 ==> !(body[i] == '*' as int && body[i+1] == '/' as int)
    case Stray => true
    case Quoted(body, ended) =>
      && 0 !in body && (forall i :: 0 <= i < |body| && body[i] == '"' as int ==> i > 0 && body[i-1] == '\\' as int)
      && (ended && body != [] ==> body[|body|-1] != '\\' as int)
    case Other(c) => c != 0 && !IsGap(c) && c != '/' as int && c != '"' as int
  }

  /** What may stand behind: a stray slash begins no comment, and behind a part that is not ended there is nothing. */
  predicate Follows(x: Part, next: Char) {
    (x.Stray? ==> next != '/' as int && next != '*' as int) && (Unended(x) ==> next == 0)
  }

  function Kept(xs: seq<Part>): seq<Char> {
    if xs == [] then [] else PartKept(xs[0]) + Kept(xs[1..])
  }

  ghost predicate PartAt(m: seq<Char>, pos: nat, x: Part) {
    var next := pos + |PartText(x)|;
    PartOk(x) && next < |m| && Stands(m, pos, PartText(x)) && Follows(x, m[next])
  }

  /** From `pos` on there are these parts, and then a NUL. */
  ghost predicate PartsAt(m: seq<Char>, pos: nat, xs: seq<Part>)
    decreases |xs|
  {
    if xs == [] then pos < |m| && m[pos] == 0
    else
      PartAt(m, pos, xs[0]) && PartsAt(m, pos + |PartText(xs[0])|, xs[1..])
  }

  // ---------------------------------------------------------------- one part

  lemma Later(m: seq<Char>, i: nat, s: seq<Char>, k: nat)
    requires Stands(m, i, s) && k <= |s|
    ensures Stands(m, i + k, s[k..])
  {
    assert s == s[..k] + s[k..];
    StandsSplit(m, i, s[..k], s[k..]);
  }

  /** A literal's body behind its first character, or behind an escaped quote. */
  lemma RestOk(body: seq<Char>, ended: bool, k: nat)
    requires PartOk(Quoted(body, ended)) && 1 <= k <= |body|
    requires k == if body[0] == 92 && |body| > 1 && body[1] == 34 then 2 else 1
    ensures PartOk(Quoted(body[k..], ended))
  {
    var rest := body[k..];
    forall i | 0 <= i < |rest| && rest[i] == 34 ensures i > 0 && rest[i-1] == 92 { assert rest[i] == body[i+k]; }
  }

  lemma {:induction false} LineRuns(m: seq<Char>, i: nat, body: seq<Char>, ended: bool)
    requires Block(m) && i + |body| < |m| && Stands(m, i, body) && PartOk(Line(body, ended))
    requires m[i+|body|] == if ended then 10 else 0
    ensures LineEnd(m, i) == i + |body| + if ended then 1 else 0
    decreases |body|
  {
    if body != [] {
      assert m[i+0] == body[0] && body[0] in body;
      Later(m, i, body, 1);
      LineRuns(m, i + 1, body[1..], ended);
    }
  }

  lemma {:induction false} CommentRuns(m: seq<Char>, i: nat, body: seq<Char>, ended: bool)
    requires Block(m) && i + |body| < |m| && Stands(m, i, body) && PartOk(Comment(body, ended))
    requires var e := i + |body|; if ended then e + 1 < |m| && m[e] == 42 && m[e+1] == 47 else m[e] == 0
    ensures CommentEnd(m, i) == i + |body| + if ended then 2 else 0
    decreases |body|
  {
    if body != [] {
      assert m[i+0] == body[0] && body[0] in body;
      if |body| > 1 { assert m[i+1] == body[1]; }
      Later(m, i, body, 1);
      CommentRuns(m, i + 1, body[1..], ended);
    }
  }

  lemma {:induction false} LiteralRuns(m: seq<Char>, i: nat, body: seq<Char>, ended: bool)
    requires Block(m) && i + |body| < |m| && Stands(m, i, body) && PartOk(Quoted(body, ended))
    requires m[i+|body|] == if ended then 34 else 0
    ensures StringEnd(m, i) == i + |body| + if ended then 1 else 0
    decreases |body|
  {
    if body != [] {
      assert m[i+0] == body[0] && body[0] in body;
      if |body| > 1 { assert m[i+1] == body[1]; }
      var k := if body[0] == 92 && |body| > 1 && body[1] == 34 then 2 else 1;
      Later(m, i, body, k);
      RestOk(body, ended, k);
      LiteralRuns(m, i + k, body[k..], ended);
    }
  }

  lemma DelimitedStands(m: seq<Char>, pos: nat, open: seq<Char>, body: seq<Char>, close: seq<Char>)
    requires Stands(m, pos, Delimited(open, body, close))
    ensures Stands(m, pos, open) && Stands(m, pos + |open|, body) && Stands(m, pos + |open| + |body|, close)
  {
    hide Stands;
    StandsSplit(m, pos, open + body, close);
    StandsSplit(m, pos, open, body);
  }

  /** A part is passed over, and what is kept of it is copied. */
  lemma PartMinifies(m: seq<Char>, pos: nat, x: Part)
    requires Block(m) && PartOk(x) && Stands(m, pos, PartText(x))
    requires var next := pos + |PartText(x)|; next < |m| && Follows(x, m[next])
    ensures Minified(m, pos) == PartKept(x) + Minified(m, pos + |PartText(x)|)
  {
    hide Stands, Minified, LineEnd, CommentEnd, StringEnd, PartOk, IsGap;
    StandsAt(m, pos, PartText(x), 0);
    match x
    case Gap(c) => GapGoes(m, pos);
    case Stray => SlashGoes(m, pos);
    case Other(c) => OtherStays(m, pos);
    case Quoted(body, ended) => LiteralStays(m, pos, body, ended);
    case _ => CommentGoes(m, pos, x);
  }

  lemma GapGoes(m: seq<Char>, pos: nat)
    requires Block(m) && pos + 1 < |m| && PartOk(Gap(m[pos]))
    ensures Minified(m, pos) == [] + Minified(m, pos + 1)
  {
    assert [] + Minified(m, pos + 1) == Minified(m, pos + 1);
  }

  lemma SlashGoes(m: seq<Char>, pos: nat)
    requires Block(m) && pos + 1 < |m| && m[pos] == 47 && m[pos+1] != 47 && m[pos+1] != 42
    ensures Minified(m, pos) == [] + Minified(m, pos + 1)
  {
    assert [] + Minified(m, pos + 1) == Minified(m, pos + 1);
  }

  lemma OtherStays(m: seq<Char>, pos: nat)
    requires Block(m) && pos + 1 < |m| && PartOk(Other(m[pos]))
    ensures Minified(m, pos) == [m[pos]] + Minified(m, pos + 1)
  {
  }

  lemma LiteralStays(m: seq<Char>, pos: nat, body: seq<Char>, ended: bool)
    requires var x := Quoted(body, ended);
             && Block(m) && PartOk(x) && Stands(m, pos, PartText(x)) && pos + |PartText(x)| < |m|
             && Follows(x, m[pos+|PartText(x)|])
    ensures var t := PartText(Quoted(body, ended)); Minified(m, pos) == t + Minified(m, pos + |t|)
  {
    hide Stands, Minified, StringEnd, PartOk, IsGap, Delimited;
    var close: seq<Char> := if ended then [34] else [];
    var t := PartText(Quoted(body, ended));
    DelimitedStands(m, pos, [34], body, close);
    if ended { StandsAt(m, pos + 1 + |body|, close, 0); }
    LiteralRuns(m, pos + 1, body, ended);
    StandsSlice(m, pos, t);
    StandsAt(m, pos, [34], 0);
    QuoteStays(m, pos);
  }

  lemma QuoteStays(m: seq<Char>, pos: nat)
    requires Block(m) && pos + 1 < |m| && m[pos] == 34
    ensures var e := StringEnd(m, pos + 1); Minified(m, pos) == m[pos..e] + Minified(m, e)
  {
  }

  lemma CommentGoes(m: seq<Char>, pos: nat, x: Part)
    requires Block(m) && PartOk(x) && (x.Line? || x.Comment?) && Stands(m, pos, PartText(x))
    requires pos + |PartText(x)| < |m| && Follows(x, m[pos+|PartText(x)|])
    ensures Minified(m, pos) == [] + Minified(m, pos + |PartText(x)|)
  {
    hide Stands, Minified, LineEnd, CommentEnd, PartOk, IsGap, Delimited;
    var open: seq<Char> := if x.Line? then [47, 47] else [47, 42];
    var close: seq<Char> := if !x.ended then [] else if x.Line? then [10] else [42, 47];
    DelimitedStands(m, pos, open, x.body, close);
    StandsAt(m, pos, open, 0);
    StandsAt(m, pos, open, 1);
    var e := pos + 2 + |x.body|;
    if x.ended { StandsAt(m, e, close, 0); }
    if x.Line? {
      LineRuns(m, pos + 2, x.body, x.ended);
    } else {
      if x.ended { StandsAt(m, e, close, 1); }
      CommentRuns(m, pos + 2, x.body, x.ended);
    }
    DroppedGoes(m, pos);
  }

  lemma DroppedGoes(m: seq<Char>, pos: nat)
    requires Block(m) && pos + 2 < |m| && m[pos] == 47 && (m[pos+1] == 47 || m[pos+1] == 42)
    ensures var e := if m[pos+1] == 47 then LineEnd(m, pos + 2) else CommentEnd(m, pos + 2);
            Minified(m, pos) == [] + Minified(m, e)
  {
    var e := if m[pos+1] == 47 then LineEnd(m, pos + 2) else CommentEnd(m, pos + 2);
    assert Dropped(m, pos) == e;
    assert [] + Minified(m, e) == Minified(m, e);
  }

  /** However a text is divided into parts, what is kept of them is the minified text. */
  lemma {:induction false} PartsMinify(m: seq<Char>, pos: nat, xs: seq<Part>)
    requires Block(m) && PartsAt(m, pos, xs)
    ensures pos < |m| && Minified(m, pos) == Kept(xs)
    decreases |xs|
  {
    hide Stands, PartText, PartKept, PartOk, Follows, Minified;
    if xs == [] {
      AtNul(m, pos);
    } else {
      PartMinifies(m, pos, xs[0]);
      PartsMinify(m, pos + |PartText(xs[0])|, xs[1..]);
    }
  }

  // ---------------------------------------------------------------- there are parts

  lemma StandsFirst(m: seq<Char>, i: nat, front: seq<Char>, rest: seq<Char>)
    requires Stands(m, i + |front|, rest) && i + |front| <= |m| && front == m[i..i+|front|]
    ensures Stands(m, i, front + rest)
  {
    assert Stands(m, i, front);
    StandsJoin(m, i, front, rest);
  }

  lemma {:induction false} LineThere(m: seq<Char>, i: nat) returns (body: seq<Char>, ended: bool)
    requires Block(m) && i < |m|
    ensures PartOk(Line(body, ended)) && Stands(m, i, body)
    ensures var e := i + |body|; e < |m| && m[e] == (if ended then 10 else 0) && (ended ==> e + 1 < |m|)
    decreases |m| - i
  {
    hide Stands;
    if m[i] == 0 || m[i] == 10 {
      body, ended := [], m[i] == 10;
      StandsNone(m, i);
    } else {
      body, ended := LineThere(m, i + 1);
      StandsFirst(m, i, [m[i]], body);
      body := [m[i]] + body;
    }
  }

  lemma StandsNone(m: seq<Char>, i: nat)
    requires i <= |m|
    ensures Stands(m, i, [])
  {
  }

  lemma {:induction false} CommentThere(m: seq<Char>, i: nat) returns (body: seq<Char>, ended: bool)
    requires Block(m) && i < |m|
    ensures PartOk(Comment(body, ended)) && Stands(m, i, body)
    ensures var e := i + |body|;
            e < |m| && if ended then e + 2 < |m| && m[e] == 42 && m[e+1] == 47 else m[e] == 0
    decreases |m| - i
  {
    hide Stands;
    if m[i] == 0 || (m[i] == 42 && m[i+1] == 47) {
      body, ended := [], m[i] == 42;
      StandsNone(m, i);
    } else {
      var rest;
      rest, ended := CommentThere(m, i + 1);
      StandsFirst(m, i, [m[i]], rest);
      if rest != [] { StandsAt(m, i + 1, rest, 0); }
      body := [m[i]] + rest;
      assert forall k :: 0 < k < |body| ==> body[k] == rest[k-1];
    }
  }

  lemma {:induction false} LiteralThere(m: seq<Char>, i: nat) returns (body: seq<Char>, ended: bool)
    requires Block(m) && i < |m|
    ensures PartOk(Quoted(body, ended)) && Stands(m, i, body)
    ensures var e := i + |body|; e < |m| && m[e] == (if ended then 34 else 0) && (ended ==> e + 1 < |m|)
    decreases |m| - i
  {
    hide Stands;
    if m[i] == 0 || m[i] == 34 {
      body, ended := [], m[i] == 34;
      StandsNone(m, i);
    } else {
      var front := if m[i] == 92 && m[i+1] == 34 then [m[i], m[i+1]] else [m[i]];
      var rest;
      rest, ended := LiteralThere(m, i + |front|);
      StandsFirst(m, i, front, rest);
      if rest != [] { StandsAt(m, i + |front|, rest, 0); }
      FrontOk(front, rest, ended);
      body := front + rest;
    }
  }

  lemma FrontOk(front: seq<Char>, rest: seq<Char>, ended: bool)
    requires PartOk(Quoted(rest, ended)) && 0 !in front
    requires front == [92, 34] || (|front| == 1 && front[0] != 34 && (ended && rest == [] ==> front[0] != 92))
    ensures PartOk(Quoted(front + rest, ended))
  {
    var body := front + rest;
    forall i | 0 <= i < |body| && body[i] == 34 ensures i > 0 && body[i-1] == 92 {
      if i >= |front| { assert rest[i-|front|] == body[i]; }
    }
  }

  lemma DelimitedThere(m: seq<Char>, pos: nat, open: seq<Char>, body: seq<Char>, close: seq<Char>)
    requires pos + |open| <= |m| && open == m[pos..pos+|open|] && Stands(m, pos + |open|, body)
    requires var e := pos + |open| + |body|; e + |close| <= |m| && close == m[e..e+|close|]
    ensures Stands(m, pos, Delimited(open, body, close))
  {
    StandsFirst(m, pos, open, body);
    assert Stands(m, pos + |open + body|, close);
    StandsJoin(m, pos, open + body, close);
  }

  lemma LinePart(m: seq<Char>, pos: nat) returns (x: Part)
    requires Block(m) && pos + 2 < |m| && m[pos] == 47 && m[pos+1] == 47
    ensures PartAt(m, pos, x)
  {
    hide Stands, Delimited, PartOk;
    var body, ended := LineThere(m, pos + 2);
    var close: seq<Char> := if ended then [10] else [];
    DelimitedThere(m, pos, [47, 47], body, close);
    x := Line(body, ended);
    assert PartText(x) == Delimited([47, 47], body, close);
  }

  lemma CommentPart(m: seq<Char>, pos: nat) returns (x: Part)
    requires Block(m) && pos + 2 < |m| && m[pos] == 47 && m[pos+1] == 42
    ensures PartAt(m, pos, x)
  {
    hide Stands, Delimited, PartOk;
    var body, ended := CommentThere(m, pos + 2);
    var close: seq<Char> := if ended then [42, 47] else [];
    DelimitedThere(m, pos, [47, 42], body, close);
    x := Comment(body, ended);
    assert PartText(x) == Delimited([47, 42], body, close);
  }

  lemma LiteralPart(m: seq<Char>, pos: nat) returns (x: Part)
    requires Block(m) && pos + 1 < |m| && m[pos] == 34
    ensures PartAt(m, pos, x)
  {
    hide Stands, Delimited, PartOk;
    var body, ended := LiteralThere(m, pos + 1);
    var close: seq<Char> := if ended then [34] else [];
    DelimitedThere(m, pos, [34], body, close);
    x := Quoted(body, ended);
    assert PartText(x) == Delimited([34], body, close);
  }

  lemma PartThere(m: seq<Char>, pos: nat) returns (x: Part)
    requires Block(m) && pos < |m| && m[pos] != 0
    ensures PartAt(m, pos, x)
  {
    if m[pos] == 34 {
      x := LiteralPart(m, pos);
    } else if m[pos] == 47 && m[pos+1] == 47 {
      x := LinePart(m, pos);
    } else if m[pos] == 47 && m[pos+1] == 42 {
      x := CommentPart(m, pos);
    } else {
      x := if m[pos] == 47 then Stray else if IsGap(m[pos]) then Gap(m[pos]) else Other(m[pos]);
    }
  }

  lemma {:induction false} PartsThere(m: seq<Char>, pos: nat) returns (xs: seq<Part>)
    requires Block(m) && pos < |m|
    ensures PartsAt(m, pos, xs)
    decreases |m| - pos
  {
    hide PartOk, Follows, Stands, PartText;
    if m[pos] == 0 {
      xs := [];
    } else {
      var x := PartThere(m, pos);
      var rest := PartsThere(m, pos + |PartText(x)|);
      xs := [x] + rest;
      assert xs[1..] == rest;
    }
  }

  // ---------------------------------------------------------------- any text

  ghost predicate Keeps(m: seq<Char>, r: seq<Char>) {
    exists xs :: PartsAt(m, 0, xs) && Kept(xs) == r
  }

  /** Minifying keeps of a text exactly what is kept of its parts, and every text has parts. */
  lemma MinifiesExactly(m: seq<Char>, r: seq<Char>)
    requires Block(m)
    ensures Minified(m, 0) == r <==> Keeps(m, r)
  {
    var xs := PartsThere(m, 0);
    PartsMinify(m, 0, xs);
    if ys :| PartsAt(m, 0, ys) && Kept(ys) == r { PartsMinify(m, 0, ys); }
  }
}
