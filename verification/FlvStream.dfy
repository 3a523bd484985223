/**
 What the FLV parser makes of any bytes at all, told by their place in the stream: which streams it goes on with
 (`AcceptedExactly`), and the messages it has handed on by then (`DeliveredExactly`).
 */
module FlvStream {
  import opened Bytes
  import opened Machines
  import opened FlvParser

  // ---------------------------------------------------------------- the stream by its bytes

  /** The signature "FLV" and version 1, as far as they have come. */
  predicate SignatureTaken(s: seq<Byte>) {
    && (|s| > 0 ==> s[0] == 'F' as int) && (|s| > 1 ==> s[1] == 'L' as int) && (|s| > 2 ==> s[2] == 'V' as int)
    && (|s| > 3 ==> s[3] == 1)
  }

  /** A size field of 0 behind a header of nine bytes, once it is there. */
  predicate HeaderTaken(s: seq<Byte>) {
    SignatureTaken(s) && (|s| >= 13 ==> s[9] == s[10] == s[11] == s[12] == 0)
  }

  /** The length that a tag states. */
  function Length(t: seq<Byte>): (n: int)
    requires |t| >= 4
    ensures 0 <= n < 0x100_0000
  {
    ThreeBytes(t[1], t[2], t[3])
  }

  function ThreeBytes(a: Byte, b: Byte, c: Byte): (n: int)
    ensures 0 <= n < 0x100_0000
  {
    a * 0x1_0000 + b * 0x100 + c
  }

  /** Audio, video or data. */
  predicate TypeTaken(b: Byte) {
    b == 8 || b == 9 || b == 18
  }

  /** Four bytes behind the payload state its length and that of the tag's header. */
  predicate SizeTaken(t: seq<Byte>)
    requires |t| >= 4 && |t| >= 15 + Length(t)
  {
    var i := 11 + Length(t);
    t[i] * 0x100_0000 + ThreeBytes(t[i+1], t[i+2], t[i+3]) == Length(t) + 11
  }

  /** Tags that may go on: each of a known type, and each that is all there of the size it states. */
  predicate TagsTaken(t: seq<Byte>)
    decreases |t|
  {
    t == []
    || (TypeTaken(t[0]) && (|t| >= 4 && |t| >= 15 + Length(t) ==> SizeTaken(t) && TagsTaken(t[15+Length(t)..])))
  }

  /** The message of a tag: the timestamp's high byte comes last. */
  function TagMessage(t: seq<Byte>): Message
    requires |t| >= 11 && |t| >= 11 + Length(t)
  {
    Message(t[0], t[7] * 0x100_0000 + ThreeBytes(t[4], t[5], t[6]), ThreeBytes(t[8], t[9], t[10]), t[11..11+Length(t)])
  }

  /** A message is out with its last byte of payload; one without payload with the byte behind its header. */
  predicate Whole(t: seq<Byte>) {
    |t| >= 11 && |t| >= 11 + Length(t) && (Length(t) == 0 ==> |t| > 11)
  }

  function Carried(t: seq<Byte>): seq<Message>
    decreases |t|
  {
    if t == [] || !TypeTaken(t[0]) || !Whole(t) then []
    else if |t| < 15 + Length(t) || !SizeTaken(t) then [TagMessage(t)]
    else [TagMessage(t)] + Carried(t[15+Length(t)..])
  }

  // ---------------------------------------------------------------- prefixes

  /** The parser does not recover, and takes nothing back. */
  lemma Prefix(f: Flv, a: seq<Byte>, b: seq<Byte>)
    ensures Feed(f, a).failed ==> Feed(f, a + b) == Feed(f, a) && Messages(f, a + b) == Messages(f, a)
    ensures Messages(f, a) <= Messages(f, a + b)
  {
    hide Feed, Messages;
    FeedAppend(f, a, b);
    if Feed(f, a).failed { FeedFailed(Feed(f, a), b); }
  }

  /** A prefix of what goes on quietly goes on quietly. */
  lemma QuietPrefix(f: Flv, a: seq<Byte>, b: seq<Byte>)
    requires !Feed(f, a + b).failed && Messages(f, a + b) == []
    ensures !Feed(f, a).failed && Messages(f, a) == []
  {
    hide Feed, Messages;
    Prefix(f, a, b);
  }

  lemma PartOfSize(f: Flv, bs: seq<Byte>)
    requires !f.failed && f.state.TagSize0? && |bs| <= 3
    ensures !Feed(f, bs).failed && Messages(f, bs) == []
  {
    hide Feed, Messages;
    var all := bs + seq(3 - |bs|, i => 0);
    var g1 := f.(tagsize := ZERO.(b3 := all[0]), state := TagSize1);
    var g2 := g1.(tagsize := g1.tagsize.(b2 := all[1]), state := TagSize2);
    var g := g2.(tagsize := g2.tagsize.(b1 := all[2]), state := TagSize3);
    Feed3(f, all, g1, g2, g);
    QuietPrefix(f, bs, seq(3 - |bs|, i => 0));
  }

  // ---------------------------------------------------------------- one tag

  lemma Bytes24(a: Byte, b: Byte, c: Byte)
    ensures BE24(ThreeBytes(a, b, c)) == [a, b, c]
  {
    var n := ThreeBytes(a, b, c);
    assert n / 0x100 == a * 0x100 + b;
  }

  lemma Bytes32(a: Byte, b: Byte, c: Byte, d: Byte)
    ensures var z := a * 0x100_0000 + ThreeBytes(b, c, d); 0 <= z < 0x1_0000_0000 && BE32(z) == [a, b, c, d]
  {
    var z := a * 0x100_0000 + ThreeBytes(b, c, d);
    var hi, lo := a * 0x100 + b, c * 0x100 + d;
    assert z == hi * 0x1_0000 + lo && 0 <= hi < 0x1_0000 && 0 <= lo < 0x1_0000;
    assert z / 0x1_0000 == hi && hi % 0x1_0000 == hi && z % 0x1_0000 == lo;
    assert BE16(hi) == [a, b] && BE16(lo) == [c, d];
  }

  /** Eleven bytes of a known type are the header of a message, whatever its payload. */
  lemma HeaderIs(t: seq<Byte>, payload: seq<Byte>) returns (m: Message)
    requires |t| >= 11 && TypeTaken(t[0]) && |payload| == Length(t)
    ensures Sendable(m) && TagHeader(m) == t[..11] && m.payload == payload
    ensures |t| >= 11 + Length(t) && payload == t[11..11+Length(t)] ==> m == TagMessage(t)
  {
    hide ThreeBytes;
    var low, id := ThreeBytes(t[4], t[5], t[6]), ThreeBytes(t[8], t[9], t[10]);
    m := Message(t[0], t[7] * 0x100_0000 + low, id, payload);
    Bytes24(t[1], t[2], t[3]);
    Bytes24(t[4], t[5], t[6]);
    Bytes24(t[8], t[9], t[10]);
    LowAndHigh(t[7], low);
    assert t[..11] == [t[0]] + [t[1], t[2], t[3]] + [t[4], t[5], t[6]] + [t[7]] + [t[8], t[9], t[10]];
  }

  lemma LowAndHigh(high: Byte, low: int)
    requires 0 <= low < 0x100_0000
    ensures var n := high * 0x100_0000 + low;
            0 <= n < 0x1_0000_0000 && n % 0x100_0000 == low && n / 0x100_0000 == high
  {
  }

  /** A tag that breaks off in its header. */
  lemma HeaderBreaksOff(f: Flv, t: seq<Byte>)
    requires BetweenTags(f) && 0 < |t| <= 11 && TypeTaken(t[0])
    ensures !Feed(f, t).failed && Messages(f, t) == []
  {
    hide Feed, Messages, TagHeader;
    var rest: seq<Byte> := seq(11 - |t|, i => 0);
    var u := t + rest;
    var m := HeaderIs(u, seq(Length(u), i => 0));
    var g := FeedTagHeader(f, m);
    assert u[..11] == u;
    QuietPrefix(f, t, rest);
  }

  /** A tag that breaks off behind its header. */
  lemma TagBreaksOff(f: Flv, t: seq<Byte>)
    requires BetweenTags(f) && |t| >= 11 && |t| < 15 + Length(t) && TypeTaken(t[0])
    ensures !Feed(f, t).failed && Messages(f, t) == if Whole(t) then [TagMessage(t)] else []
  {
    hide Feed, Messages, TagHeader;
    var n := Length(t);
    if |t| < 11 + n || |t| == 11 {
      var m := HeaderIs(t, seq(n, i => 0));
      var g := FeedTagHeader(f, m);
      assert t == t[..11] + t[11..];
      FeedAppend(f, t[..11], t[11..]);
      if |t| == 11 { FeedNothing(g); assert t[11..] == []; } else { FeedPayload(g, t[11..]); }
    } else {
      var m := HeaderIs(t, t[11..11+n]);
      var g := FeedTagHeader(f, m);
      assert t == t[..11] + t[11..];
      FeedAppend(f, t[..11], t[11..]);
      PayloadAndMore(g, m, t[11..], n);
    }
  }

  /** The payload, and no more than three bytes of the size behind it. */
  lemma PayloadAndMore(g: Flv, m: Message, s: seq<Byte>, n: nat)
    requires !g.failed && g.state.Data? && g.left == n <= |s| < n + 4 && g.payload == [] && (n == 0 ==> |s| > 0)
    requires Ready(g.(payload := m.payload)) == m && m.payload == s[..n]
    ensures !Feed(g, s).failed && Messages(g, s) == [m]
  {
    hide Feed, Messages;
    assert s == s[..n] + s[n..];
    if n == 0 {
      var h := Taken(g);
      assert s == [s[0]] + s[1..] && g.(payload := []) == g;
      PartOfSize(h, s);
      FirstBehind(g, s);
    } else {
      FeedLastPayload(g, s[..n]);
      assert g.payload + s[..n] == s[..n];
      FeedAppend(g, s[..n], s[n..]);
      PartOfSize(Taken(g.(left := 0)), s[n..]);
    }
  }

  lemma FirstBehind(g: Flv, s: seq<Byte>)
    requires !g.failed && g.state.Data? && g.left == 0 && s != []
    ensures Feed(g, s) == Feed(Taken(g), s) && Messages(g, s) == [Ready(g)] + Messages(Taken(g), s)
  {
    assert s == [s[0]] + s[1..];
    RunOne(Next, Emitted, g, s[0], s[1..]);
    RunOne(Next, Emitted, Taken(g), s[0], s[1..]);
  }

  // ---------------------------------------------------------------- all tags

  lemma BadType(f: Flv, t: seq<Byte>)
    requires BetweenTags(f) && t != [] && !TypeTaken(t[0])
    ensures Feed(f, t).failed && Messages(f, t) == []
  {
    hide Feed, Messages;
    FeedOne(f, t[0]);
    assert t == [t[0]] + t[1..];
    Prefix(f, [t[0]], t[1..]);
  }

  /** A tag with its size field. */
  lemma WholeTag(f: Flv, t: seq<Byte>, head: seq<Byte>)
    requires BetweenTags(f) && |t| >= 4 && |t| >= 15 + Length(t) && TypeTaken(t[0]) && head == t[..15+Length(t)]
    ensures Messages(f, head) == [TagMessage(t)]
    ensures if SizeTaken(t) then BetweenTags(Feed(f, head)) else Feed(f, head).failed
  {
    hide Feed, Messages, TypeTaken, BetweenTags, TagHeader, BE32;
    var n := Length(t);
    var m := HeaderIs(t, t[11..11+n]);
    Bytes32(t[11+n], t[12+n], t[13+n], t[14+n]);
    var z := t[11+n] * 0x100_0000 + ThreeBytes(t[12+n], t[13+n], t[14+n]);
    FeedTag(f, m, z);
    assert head == Tag(m) + BE32(z) by { assert head == t[..11] + t[11..11+n] + t[11+n..15+n]; }
  }

  lemma {:induction false} TagsExactly(f: Flv, t: seq<Byte>)
    requires BetweenTags(f)
    ensures !Feed(f, t).failed <==> TagsTaken(t)
    ensures Messages(f, t) == Carried(t)
    decreases |t|
  {
    hide Feed, Messages, TypeTaken, TagMessage, BetweenTags;
    if t == [] {
      FeedNothing(f);
      GoesOn(f);
    } else if !TypeTaken(t[0]) {
      BadType(f, t);
    } else if |t| < 11 {
      HeaderBreaksOff(f, t);
    } else if |t| < 15 + Length(t) {
      TagBreaksOff(f, t);
    } else {
      var head, rest := t[..15+Length(t)], t[15+Length(t)..];
      WholeTag(f, t, head);
      assert t == head + rest;
      FeedAppend(f, head, rest);
      if SizeTaken(t) {
        TagsExactly(Feed(f, head), rest);
      } else {
        Prefix(f, head, rest);
        FeedFailed(Feed(f, head), rest);
      }
    }
  }

  lemma GoesOn(f: Flv)
    requires BetweenTags(f)
    ensures !f.failed
  {
  }

  // ---------------------------------------------------------------- the file header

  lemma FailsAt(f: Flv, s: seq<Byte>)
    requires s != [] && Next(f, s[0]).failed && Emitted(f, s[0]) == []
    ensures Feed(f, s).failed && Messages(f, s) == []
  {
    hide Feed, Messages, Next, Emitted;
    FeedOne(f, s[0]);
    assert s == [s[0]] + s[1..];
    Prefix(f, [s[0]], s[1..]);
    FeedFailed(Next(f, s[0]), s[1..]);
    FeedAppend(f, [s[0]], s[1..]);
  }

  lemma StepOver(f: Flv, s: seq<Byte>, g: Flv)
    requires s != [] && g == Next(f, s[0]) && Emitted(f, s[0]) == []
    ensures Feed(f, s) == Feed(g, s[1..]) && Messages(f, s) == Messages(g, s[1..])
  {
    hide Feed, Messages, Next, Emitted;
    FeedQuiet(f, s[0], g, s[1..]);
    assert s == [s[0]] + s[1..];
  }

  lemma BadSignature(s: seq<Byte>)
    requires !SignatureTaken(s)
    ensures Feed(INIT, s).failed && Messages(INIT, s) == []
  {
    hide Feed, Messages;
    var f1, f2 := INIT.(state := HeaderFL), INIT.(state := HeaderFLV);
    if s[0] != 0x46 {
      FailsAt(INIT, s);
    } else {
      StepOver(INIT, s, f1);
      if s[1] != 0x4C {
        FailsAt(f1, s[1..]);
      } else {
        StepOver(f1, s[1..], f2);
        assert s[1..][1..] == s[2..];
        BadVersion(f2, s[2..]);
      }
    }
  }

  lemma BadVersion(f: Flv, s: seq<Byte>)
    requires !f.failed && f.state.HeaderFLV? && s != [] && (s[0] == 0x56 ==> |s| > 1 && s[1] != 1)
    ensures Feed(f, s).failed && Messages(f, s) == []
  {
    hide Feed, Messages;
    if s[0] != 0x56 {
      FailsAt(f, s);
    } else {
      var g := f.(state := HeaderVersion);
      StepOver(f, s, g);
      FailsAt(g, s[1..]);
    }
  }

  /** The nine bytes of the header, whatever flags and length they state. */
  lemma NineBytes(s: seq<Byte>) returns (g: Flv)
    requires |s| == 9 && SignatureTaken(s)
    ensures Feed(INIT, s) == g && Messages(INIT, s) == []
    ensures !g.failed && g.state.TagSize0? && g.payload == [] && !g.firstSeen && g.mlen == ZERO
  {
    hide Feed, Messages;
    var f5 := FeedSignature(s[4], s[5]);
    g := FeedOffset(f5, s[6..]);
    var sig := [0x46, 0x4C, 0x56] + [1, s[4], s[5]];
    FeedAppend(INIT, sig, s[6..]);
    assert s == sig + s[6..];
  }

  /** The header and the size field behind it. */
  lemma ThirteenBytes(s: seq<Byte>)
    requires |s| == 13 && SignatureTaken(s)
    ensures Messages(INIT, s) == []
    ensures if HeaderTaken(s) then BetweenTags(Feed(INIT, s)) else Feed(INIT, s).failed
  {
    hide Feed, Messages, ThreeBytes, SignatureTaken, SizeOk, Word.Value, BE32;
    var head, size := s[..9], s[9..];
    SignatureThere(s, 9);
    var g := NineBytes(head);
    var z := s[9] * 0x100_0000 + ThreeBytes(s[10], s[11], s[12]);
    Bytes32(s[9], s[10], s[11], s[12]);
    assert size == BE32(z);
    ZeroBytes(s[9], s[10], s[11], s[12]);
    FeedSize(g, z);
    NoneSeen(g, z);
    FeedAppend(INIT, head, size);
    assert s == head + size;
  }

  lemma SignatureThere(s: seq<Byte>, n: nat)
    requires 4 <= n <= |s|
    ensures SignatureTaken(s[..n]) <==> SignatureTaken(s)
  {
  }

  lemma ZeroBytes(a: Byte, b: Byte, c: Byte, d: Byte)
    ensures a * 0x100_0000 + ThreeBytes(b, c, d) == 0 <==> a == b == c == d == 0
  {
  }

  lemma NoneSeen(g: Flv, z: int)
    requires g.mlen == ZERO && !g.firstSeen
    ensures (SizeOk(g, z) <==> z == 0) && g.mlen.Value() == 0
  {
    hide Word.Value;
    FirstSize(g);
  }

  /** A header with no flags and no length. */
  const HEAD: seq<Byte> := [0x46, 0x4C, 0x56, 1, 0, 0, 0, 0, 0]

  /** A stream that breaks off in the header or the size field behind it. */
  lemma HeadBreaksOff(s: seq<Byte>)
    requires |s| < 13 && SignatureTaken(s)
    ensures !Feed(INIT, s).failed && Messages(INIT, s) == []
  {
    hide Feed, Messages, SignatureTaken;
    if |s| < 9 {
      var rest := HEAD[|s|..];
      HeadTaken();
      Completed(s, HEAD);
      var g := NineBytes(s + rest);
      QuietPrefix(INIT, s, rest);
    } else {
      SignatureThere(s, 9);
      var g := NineBytes(s[..9]);
      PartOfSize(g, s[9..]);
      FeedAppend(INIT, s[..9], s[9..]);
      assert s == s[..9] + s[9..];
    }
  }

  lemma HeadTaken()
    ensures SignatureTaken(HEAD)
  {
  }

  lemma Completed(s: seq<Byte>, whole: seq<Byte>)
    requires SignatureTaken(s) && SignatureTaken(whole) && |s| <= |whole|
    ensures SignatureTaken(s + whole[|s|..])
  {
  }

  // ---------------------------------------------------------------- the whole stream

  lemma HeaderAndTags(s: seq<Byte>)
    requires |s| >= 13
    ensures !Feed(INIT, s).failed <==> HeaderTaken(s) && TagsTaken(s[13..])
    ensures Messages(INIT, s) == if HeaderTaken(s) then Carried(s[13..]) else []
  {
    hide Feed, Messages, TagsTaken, Carried, SignatureTaken;
    var head, rest := s[..13], s[13..];
    assert s == head + rest;
    SignatureThere(s, 13);
    if !SignatureTaken(s) {
      BadSignature(s);
    } else {
      ThirteenBytes(head);
      if HeaderTaken(s) {
        FeedAppend(INIT, head, rest);
        TagsExactly(Feed(INIT, head), rest);
      } else {
        Prefix(INIT, head, rest);
        FeedFailed(Feed(INIT, head), rest);
        FeedAppend(INIT, head, rest);
      }
    }
  }

  /**
   The parser goes on exactly with what begins with the signature and version, has a first size of 0, and goes on
   with tags of the three types with the right size behind each, as far as the stream has come.
   */
  lemma AcceptedExactly(s: seq<Byte>)
    ensures !Feed(INIT, s).failed <==> HeaderTaken(s) && (|s| >= 13 ==> TagsTaken(s[13..]))
  {
    hide Feed, Messages, TagsTaken, Carried, SignatureTaken;
    if |s| >= 13 { HeaderAndTags(s); } else if SignatureTaken(s) { HeadBreaksOff(s); } else { BadSignature(s); }
  }

  /** What it has handed on by then, are the messages of the tags that are there, up to the first it refuses. */
  lemma DeliveredExactly(s: seq<Byte>)
    ensures Messages(INIT, s) == if |s| >= 13 && HeaderTaken(s) then Carried(s[13..]) else []
  {
    hide Feed, Messages, TagsTaken, Carried, SignatureTaken;
    if |s| >= 13 { HeaderAndTags(s); } else if SignatureTaken(s) { HeadBreaksOff(s); } else { BadSignature(s); }
  }
}
