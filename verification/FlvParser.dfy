/**
 The FLV pull parser: a byte machine fed by whatever buffers the network delivers.
 `Feed` says, byte by byte, which messages a stream carries; the session's methods,
 which copy payload in blocks into a chain of chunk buffers, are proved equal to it.
 */
module FlvParser {
  import opened Bytes
  import opened Machines

  const AUDIO: Byte := 8
  const VIDEO: Byte := 9
  const AMF_META: Byte := 18

  // ---------------------------------------------------------------- state

  /** A 32-bit field filled through a byte pointer on a little-endian host: `b3` is the most significant byte. */
  datatype Word = Word(b0: Byte, b1: Byte, b2: Byte, b3: Byte) {
    function Value(): (v: int)
      ensures 0 <= v < 0x1_0000_0000
    {
      b3 * 0x100_0000 + b2 * 0x1_0000 + b1 * 0x100 + b0
    }
  }

  const ZERO := Word(0, 0, 0, 0)

  datatype FlvState =
    | HeaderF | HeaderFL | HeaderFLV | HeaderVersion | HeaderFlags
    | DataOffset0 | DataOffset1 | DataOffset2 | DataOffset3
    | TagSize0 | TagSize1 | TagSize2 | TagSize3
    | TagType
    | DataSize0 | DataSize1 | DataSize2
    | Timestamp0 | Timestamp1 | Timestamp2 | TimestampExtended
    | StreamId0 | StreamId1 | StreamId2
    | Data

  /**
   What the parser knows between two bytes. `left` is the payload still to come; `failed` means the request was
   given up.
   */
  datatype Flv = Flv(
    state: FlvState, version: int, flags: int, offset: Word, tagsize: Word, firstSeen: bool,
    typ: Byte, mlen: Word, timestamp: Word, msid: Word,
    left: int, payload: seq<Byte>, failed: bool)

  const INIT := Flv(HeaderF, 0, 0, ZERO, ZERO, false, 0, ZERO, ZERO, ZERO, 0, [], false)

  datatype Message = Message(typ: Byte, timestamp: int, msid: int, payload: seq<Byte>)

  function Ready(f: Flv): Message {
    Message(f.typ, f.timestamp.Value(), f.msid.Value(), f.payload)
  }

  // ---------------------------------------------------------------- the stream, byte by byte

  predicate Accepted(ch: Byte) {
    ch == AMF_META || ch == AUDIO || ch == VIDEO
  }

  /** Is the size field in front of a tag the right one? 0 at first, then the previous tag's length plus 11. */
  predicate SizeOk(f: Flv, tagsize: int) {
    if f.mlen.Value() == 0 && !f.firstSeen then tagsize == 0 else tagsize == f.mlen.Value() + 11
  }

  predicate InFileHeader(s: FlvState) {
    s.HeaderF? || s.HeaderFL? || s.HeaderFLV? || s.HeaderVersion? || s.HeaderFlags? ||
    s.DataOffset0? || s.DataOffset1? || s.DataOffset2? || s.DataOffset3?
  }

  predicate InSize(s: FlvState) {
    s.TagSize0? || s.TagSize1? || s.TagSize2? || s.TagSize3?
  }

  predicate InLength(s: FlvState) {
    s.TagType? || s.DataSize0? || s.DataSize1? || s.DataSize2?
  }

  /** One byte of the file header: "FLV", version 1, flags, header length. */
  function FileByte(f: Flv, ch: Byte): Flv
    requires InFileHeader(f.state)
  {
    var bad := f.(failed := true);
    match f.state
    case HeaderF => if ch == 0x46 then f.(state := HeaderFL) else bad
    case HeaderFL => if ch == 0x4C then f.(state := HeaderFLV) else bad
    case HeaderFLV => if ch == 0x56 then f.(state := HeaderVersion) else bad
    case HeaderVersion =>
      if ch == 1 then f.(version := ch, state := HeaderFlags) else f.(version := ch, failed := true)
    case HeaderFlags => f.(flags := ch, state := DataOffset0)
    case DataOffset0 => f.(offset := f.offset.(b3 := ch), state := DataOffset1)
    case DataOffset1 => f.(offset := f.offset.(b2 := ch), state := DataOffset2)
    case DataOffset2 => f.(offset := f.offset.(b1 := ch), state := DataOffset3)
    case DataOffset3 => f.(offset := f.offset.(b0 := ch), state := TagSize0)
  }

  /** One byte of the size field in front of a tag. */
  function SizeByte(f: Flv, ch: Byte): Flv
    requires InSize(f.state)
  {
    match f.state
    case TagSize0 => f.(tagsize := ZERO.(b3 := ch), state := TagSize1)
    case TagSize1 => f.(tagsize := f.tagsize.(b2 := ch), state := TagSize2)
    case TagSize2 => f.(tagsize := f.tagsize.(b1 := ch), state := TagSize3)
    case TagSize3 =>
      var g := f.(tagsize := f.tagsize.(b0 := ch), firstSeen := f.firstSeen || f.mlen.Value() == 0);
      if SizeOk(f, g.tagsize.Value()) then g.(state := TagType) else g.(failed := true)
  }

  /** One byte of a tag's type and length. */
  function LengthByte(f: Flv, ch: Byte): Flv
    requires InLength(f.state)
  {
    match f.state
    case TagType => if Accepted(ch) then f.(typ := ch, state := DataSize0) else f.(failed := true)
    case DataSize0 => f.(mlen := ZERO.(b2 := ch), state := DataSize1)
    case DataSize1 => f.(mlen := f.mlen.(b1 := ch), state := DataSize2)
    case DataSize2 => var m := f.mlen.(b0 := ch); f.(mlen := m, left := m.Value(), state := Timestamp0)
  }

  /** One byte of a tag's timestamp and stream id. */
  function StampByte(f: Flv, ch: Byte): Flv
    requires !f.state.Data? && !InFileHeader(f.state) && !InSize(f.state) && !InLength(f.state)
  {
    match f.state
    case Timestamp0 => f.(timestamp := f.timestamp.(b2 := ch), state := Timestamp1)
    case Timestamp1 => f.(timestamp := f.timestamp.(b1 := ch), state := Timestamp2)
    case Timestamp2 => f.(timestamp := f.timestamp.(b0 := ch), state := TimestampExtended)
    case TimestampExtended => f.(timestamp := f.timestamp.(b3 := ch), state := StreamId0)
    case StreamId0 => f.(msid := ZERO.(b2 := ch), state := StreamId1)
    case StreamId1 => f.(msid := f.msid.(b1 := ch), state := StreamId2)
    case StreamId2 => f.(msid := f.msid.(b0 := ch), state := Data)
  }

  /** One byte outside the payload. */
  function HeaderByte(f: Flv, ch: Byte): Flv
    requires !f.state.Data?
  {
    if InFileHeader(f.state) then FileByte(f, ch)
    else if InSize(f.state) then SizeByte(f, ch)
    else if InLength(f.state) then LengthByte(f, ch)
    else StampByte(f, ch)
  }

  /** The state once a message has been handed over. */
  function Taken(f: Flv): Flv {
    f.(state := TagSize0, payload := [])
  }

  /**
   One byte of the stream: the next state and the messages completed. A message of
   length 0 is completed by the byte after its header, which is not part of it.
   */
  function Next(f: Flv, ch: Byte): Flv {
    if f.failed then f
    else if !f.state.Data? then HeaderByte(f, ch)
    else if f.left <= 0 then HeaderByte(Taken(f), ch)
    else
      var g := f.(payload := f.payload + [ch], left := f.left - 1);
      if g.left == 0 then Taken(g) else g
  }

  function Emitted(f: Flv, ch: Byte): seq<Message> {
    if f.failed || !f.state.Data? then []
    else if f.left <= 0 then [Ready(f)]
    else if f.left == 1 then [Ready(f.(payload := f.payload + [ch]))]
    else []
  }

  /** The state after a stretch of the stream ... */
  function Feed(f: Flv, s: seq<Byte>): Flv {
    Run(Next, f, s)
  }

  /** ... and the messages it completes. */
  function Messages(f: Flv, s: seq<Byte>): seq<Message> {
    Outputs(Next, Emitted, f, s)
  }

  /** Bytes may be fed in any two pieces. */
  lemma FeedAppend(f: Flv, a: seq<Byte>, b: seq<Byte>)
    ensures Feed(f, a + b) == Feed(Feed(f, a), b)
    ensures Messages(f, a + b) == Messages(f, a) + Messages(Feed(f, a), b)
  {
    RunAppend(Next, Emitted, f, a, b);
  }

  /** One byte that only changes the state. */
  lemma FeedQuiet(f: Flv, ch: Byte, g: Flv, s: seq<Byte>)
    requires g == Next(f, ch) && Emitted(f, ch) == []
    ensures Feed(f, [ch] + s) == Feed(g, s) && Messages(f, [ch] + s) == Messages(g, s)
  {
    RunOne(Next, Emitted, f, ch, s);
  }

  lemma FeedOne(f: Flv, ch: Byte)
    ensures Feed(f, [ch]) == Next(f, ch) && Messages(f, [ch]) == Emitted(f, ch)
  {
    RunOne(Next, Emitted, f, ch, []);
    assert [ch] + [] == [ch];
  }

  lemma {:induction false} FeedFailed(f: Flv, s: seq<Byte>)
    requires f.failed
    ensures Feed(f, s) == f && Messages(f, s) == []
    decreases |s|
  {
    if s != [] { FeedFailed(f, s[1..]); }
  }

  /** A stretch of payload that does not complete the message. */
  lemma {:induction false} FeedPayload(f: Flv, s: seq<Byte>)
    requires !f.failed && f.state.Data? && |s| < f.left
    ensures Feed(f, s) == f.(payload := f.payload + s, left := f.left - |s|) && Messages(f, s) == []
    decreases |s|
  {
    if s == [] {
      assert f.payload + s == f.payload;
    } else {
      FeedPayload(Next(f, s[0]), s[1..]);
      assert f.payload + [s[0]] + s[1..] == f.payload + s;
    }
  }

  /** The payload that completes the message. */
  lemma FeedLastPayload(f: Flv, s: seq<Byte>)
    requires !f.failed && f.state.Data? && |s| == f.left > 0
    ensures Feed(f, s) == Taken(f.(left := 0)) && Messages(f, s) == [Ready(f.(payload := f.payload + s))]
  {
    var k := |s| - 1;
    FeedPayload(f, s[..k]);
    FeedAppend(f, s[..k], [s[k]]);
    assert s == s[..k] + [s[k]];
    FeedOne(f.(payload := f.payload + s[..k], left := 1), s[k]);
    assert f.payload + s[..k] + [s[k]] == f.payload + s;
  }

  // ---------------------------------------------------------------- split invariance

  /** What a session holds after a series of deliveries, each a chain of buffers. */
  function FeedAll(f: Flv, chains: seq<seq<seq<Byte>>>): Flv
    decreases |chains|
  {
    if chains == [] then f else FeedAll(Feed(f, Flat(chains[0])), chains[1..])
  }

  function MessagesAll(f: Flv, chains: seq<seq<seq<Byte>>>): seq<Message>
    decreases |chains|
  {
    if chains == [] then []
    else Messages(f, Flat(chains[0])) + MessagesAll(Feed(f, Flat(chains[0])), chains[1..])
  }

  /** The bytes of all deliveries in order. */
  function Stream(chains: seq<seq<seq<Byte>>>): seq<Byte> {
    if chains == [] then [] else Flat(chains[0]) + Stream(chains[1..])
  }

  lemma {:induction false} FeedAllIsFeed(f: Flv, chains: seq<seq<seq<Byte>>>)
    ensures FeedAll(f, chains) == Feed(f, Stream(chains))
    ensures MessagesAll(f, chains) == Messages(f, Stream(chains))
    decreases |chains|
  {
    if chains != [] {
      FeedAllIsFeed(Feed(f, Flat(chains[0])), chains[1..]);
      FeedAppend(f, Flat(chains[0]), Stream(chains[1..]));
    }
  }

  /** However the network divides the same bytes, the messages and the final state are the same. */
  lemma SplitInvariant(f: Flv, xs: seq<seq<seq<Byte>>>, ys: seq<seq<seq<Byte>>>)
    requires Stream(xs) == Stream(ys)
    ensures FeedAll(f, xs) == FeedAll(f, ys) && MessagesAll(f, xs) == MessagesAll(f, ys)
  {
    FeedAllIsFeed(f, xs);
    FeedAllIsFeed(f, ys);
  }

  // ---------------------------------------------------------------- the writer's side

  function BE24(n: int): seq<Byte>
    requires 0 <= n < 0x100_0000
  {
    var high := n / 0x100;
    [high / 0x100, high % 0x100, n % 0x100]
  }

  predicate Sendable(m: Message) {
    && Accepted(m.typ) && |m.payload| < 0x100_0000
    && 0 <= m.timestamp < 0x1_0000_0000 && 0 <= m.msid < 0x100_0000
  }

  /** A tag: type, length, timestamp (low 24 bits, then the high 8), stream id, payload. */
  function Tag(m: Message): seq<Byte>
    requires Sendable(m)
  {
    TagHeader(m) + m.payload
  }

  function TagHeader(m: Message): seq<Byte>
    requires Sendable(m)
  {
    [m.typ] + BE24(|m.payload|) + BE24(m.timestamp % 0x100_0000) + [m.timestamp / 0x100_0000] + BE24(m.msid)
  }

  function Tags(ms: seq<Message>): seq<Byte>
    requires forall m :: m in ms ==> Sendable(m)
  {
    if ms == [] then [] else Tag(ms[0]) + BE32(|ms[0].payload| + 11) + Tags(ms[1..])
  }

  /** A whole file: signature, version 1, flags, header length, a zero size field, then the tags. */
  function File(flags: Byte, headerLen: int, ms: seq<Message>): seq<Byte>
    requires 0 <= headerLen < 0x1_0000_0000
    requires forall m :: m in ms ==> Sendable(m)
  {
    FileHeader(flags, headerLen) + BE32(0) + Tags(ms)
  }

  // ---------------------------------------------------------------- round trip

  /** Three bytes that only change the state. */
  lemma Feed3(f: Flv, s: seq<Byte>, g1: Flv, g2: Flv, g3: Flv)
    requires |s| == 3 && g1 == Next(f, s[0]) && g2 == Next(g1, s[1]) && g3 == Next(g2, s[2])
    requires Emitted(f, s[0]) == Emitted(g1, s[1]) == Emitted(g2, s[2]) == []
    ensures Feed(f, s) == g3 && Messages(f, s) == []
  {
    FeedQuiet(f, s[0], g1, [s[1], s[2]]);
    FeedQuiet(g1, s[1], g2, [s[2]]);
    FeedOne(g2, s[2]);
    assert s == [s[0]] + [s[1], s[2]] && [s[1], s[2]] == [s[1]] + [s[2]];
  }

  lemma BE32Value(z: int)
    requires 0 <= z < 0x1_0000_0000
    ensures var bs := BE32(z); Word(bs[3], bs[2], bs[1], bs[0]).Value() == z
  {
    var hi, lo := z / 0x1_0000, z % 0x1_0000;
    assert hi % 0x1_0000 == hi;
    TwoBytes(hi);
    TwoBytes(lo);
    assert BE32(z) == [hi / 0x100 % 0x100, hi % 0x100, lo / 0x100 % 0x100, lo % 0x100];
  }

  lemma TwoBytes(n: int)
    requires 0 <= n < 0x1_0000
    ensures n / 0x100 % 0x100 * 0x100 + n % 0x100 == n
  {
  }

  lemma FeedNothing(f: Flv)
    ensures Feed(f, []) == f && Messages(f, []) == []
  {
  }

  lemma FeedSizeBytes(f: Flv, bs: seq<Byte>) returns (g: Flv)
    requires !f.failed && f.state.TagSize0? && |bs| == 4
    ensures g == f.(tagsize := ZERO.(b3 := bs[0]).(b2 := bs[1]).(b1 := bs[2]), state := TagSize3)
    ensures Messages(f, bs) == [] && Feed(f, bs) == HeaderByte(g, bs[3])
  {
    var g1 := f.(tagsize := ZERO.(b3 := bs[0]), state := TagSize1);
    var g2 := g1.(tagsize := g1.tagsize.(b2 := bs[1]), state := TagSize2);
    g := g2.(tagsize := g2.tagsize.(b1 := bs[2]), state := TagSize3);
    Feed3(f, bs[..3], g1, g2, g);
    FeedAppend(f, bs[..3], bs[3..]);
    assert bs == bs[..3] + bs[3..] && bs[3..] == [bs[3]];
    FeedOne(g, bs[3]);
  }

  /** The size field: accepted exactly when it is the value `SizeOk` wants. */
  lemma FeedSize(f: Flv, z: int)
    requires !f.failed && f.state.TagSize0? && 0 <= z < 0x1_0000_0000
    ensures Messages(f, BE32(z)) == []
    ensures !Feed(f, BE32(z)).failed <==> SizeOk(f, z)
    ensures SizeOk(f, z) ==>
              var g := Feed(f, BE32(z));
              g.state.TagType? && g == f.(state := TagType, tagsize := g.tagsize, firstSeen := g.firstSeen)
              && (f.firstSeen || f.mlen.Value() == 0 ==> g.firstSeen)
  {
    var g := FeedSizeBytes(f, BE32(z));
    BE32Value(z);
  }

  ghost predicate BetweenTags(f: Flv) {
    !f.failed && f.state.TagType? && f.payload == [] && f.firstSeen
  }

  lemma FeedLength(f: Flv, n: int) returns (g: Flv)
    requires !f.failed && f.state.DataSize0? && 0 <= n < 0x100_0000
    ensures g == Feed(f, BE24(n)) && Messages(f, BE24(n)) == []
    ensures g == f.(mlen := g.mlen, left := n, state := Timestamp0) && g.mlen.Value() == n
  {
    var bs := BE24(n);
    var g1 := f.(mlen := ZERO.(b2 := bs[0]), state := DataSize1);
    var g2 := g1.(mlen := g1.mlen.(b1 := bs[1]), state := DataSize2);
    var w := g2.mlen.(b0 := bs[2]);
    assert w == Word(bs[2], bs[1], bs[0], 0) && w.Value() == n;
    g := g2.(mlen := w, left := n, state := Timestamp0);
    Feed3(f, bs, g1, g2, g);
  }

  lemma TimestampValue(t: int)
    requires 0 <= t < 0x1_0000_0000
    ensures var bs := BE24(t % 0x100_0000); Word(bs[2], bs[1], bs[0], t / 0x100_0000).Value() == t
  {
  }

  lemma FeedTimeBytes(f: Flv, bs: seq<Byte>) returns (g: Flv)
    requires !f.failed && f.state.Timestamp0? && |bs| == 3
    ensures g == Feed(f, bs) && Messages(f, bs) == []
    ensures g == f.(timestamp := Word(bs[2], bs[1], bs[0], f.timestamp.b3), state := TimestampExtended)
  {
    var g1 := f.(timestamp := f.timestamp.(b2 := bs[0]), state := Timestamp1);
    var g2 := g1.(timestamp := g1.timestamp.(b1 := bs[1]), state := Timestamp2);
    g := g2.(timestamp := g2.timestamp.(b0 := bs[2]), state := TimestampExtended);
    Feed3(f, bs, g1, g2, g);
  }

  lemma FeedTimestamp(f: Flv, t: int) returns (g: Flv)
    requires !f.failed && f.state.Timestamp0? && 0 <= t < 0x1_0000_0000
    ensures var s := BE24(t % 0x100_0000) + [t / 0x100_0000]; g == Feed(f, s) && Messages(f, s) == []
    ensures g == f.(timestamp := g.timestamp, state := StreamId0) && g.timestamp.Value() == t
  {
    var bs := BE24(t % 0x100_0000);
    var high := t / 0x100_0000;
    TimestampValue(t);
    var g3 := FeedTimeBytes(f, bs);
    g := g3.(timestamp := Word(bs[2], bs[1], bs[0], high), state := StreamId0);
    FeedOne(g3, high);
    FeedAppend(f, bs, [high]);
  }

  lemma FeedStreamId(f: Flv, n: int) returns (g: Flv)
    requires !f.failed && f.state.StreamId0? && 0 <= n < 0x100_0000
    ensures g == Feed(f, BE24(n)) && Messages(f, BE24(n)) == []
    ensures g == f.(msid := g.msid, state := Data) && g.msid.Value() == n
  {
    var bs := BE24(n);
    var g1 := f.(msid := ZERO.(b2 := bs[0]), state := StreamId1);
    var g2 := g1.(msid := g1.msid.(b1 := bs[1]), state := StreamId2);
    g := g2.(msid := Word(bs[2], bs[1], bs[0], 0), state := Data);
    Feed3(f, bs, g1, g2, g);
  }

  lemma FeedTagHeader(f: Flv, m: Message) returns (g: Flv)
    requires BetweenTags(f) && Sendable(m)
    ensures g == Feed(f, TagHeader(m)) && Messages(f, TagHeader(m)) == []
    ensures !g.failed && g.state.Data? && g.left == |m.payload| == g.mlen.Value() && g.payload == [] && g.firstSeen
    ensures Ready(g.(payload := m.payload)) == m
  {
    var len, time, id := BE24(|m.payload|), BE24(m.timestamp % 0x100_0000) + [m.timestamp / 0x100_0000], BE24(m.msid);
    FeedOne(f, m.typ);
    var f1 := f.(typ := m.typ, state := DataSize0);
    var f2 := FeedLength(f1, |m.payload|);
    var f3 := FeedTimestamp(f2, m.timestamp);
    g := FeedStreamId(f3, m.msid);
    FeedAppend(f, [m.typ], len);
    FeedAppend(f, [m.typ] + len, time);
    FeedAppend(f, [m.typ] + len + time, id);
    assert TagHeader(m) == [m.typ] + len + time + id;
  }

  /**
   After a tag and the four bytes that follow it, the message is out, and only the right size field lets the
   parser go on.
   */
  lemma FeedTag(f: Flv, m: Message, z: int)
    requires BetweenTags(f) && Sendable(m) && 0 <= z < 0x1_0000_0000
    ensures Messages(f, Tag(m) + BE32(z)) == [m]
    ensures z == |m.payload| + 11 ==> BetweenTags(Feed(f, Tag(m) + BE32(z)))
    ensures z != |m.payload| + 11 ==> Feed(f, Tag(m) + BE32(z)).failed
  {
    var g := FeedTagHeader(f, m);
    FeedBody(g, m, z);
    FeedAppend(f, TagHeader(m), m.payload + BE32(z));
    assert Tag(m) + BE32(z) == TagHeader(m) + (m.payload + BE32(z));
  }

  lemma FeedBody(g: Flv, m: Message, z: int)
    requires !g.failed && g.state.Data? && g.left == |m.payload| == g.mlen.Value() && g.payload == [] && g.firstSeen
    requires Ready(g.(payload := m.payload)) == m && 0 <= z < 0x1_0000_0000
    ensures var s := m.payload + BE32(z);
      && Messages(g, s) == [m]
      && (z == |m.payload| + 11 ==> BetweenTags(Feed(g, s)))
      && (z != |m.payload| + 11 ==> Feed(g, s).failed)
  {
    var h := Taken(g.(left := 0));
    FeedSize(h, z);
    if m.payload == [] {
      assert m.payload + BE32(z) == BE32(z);
      assert g.(payload := []) == g && h == Taken(g);
      FeedEmptyPayload(g, z);
    } else {
      FeedLastPayload(g, m.payload);
      assert g.payload + m.payload == m.payload;
      FeedAppend(g, m.payload, BE32(z));
    }
  }

  /** A message of length 0 comes out with the first byte of the size field. */
  lemma FeedEmptyPayload(g: Flv, z: int)
    requires !g.failed && g.state.Data? && g.left == 0 && 0 <= z < 0x1_0000_0000
    ensures Feed(g, BE32(z)) == Feed(Taken(g), BE32(z))
    ensures Messages(g, BE32(z)) == [Ready(g)] + Messages(Taken(g), BE32(z))
  {
    var bs := BE32(z);
    assert bs == [bs[0]] + bs[1..];
    RunOne(Next, Emitted, g, bs[0], bs[1..]);
    RunOne(Next, Emitted, Taken(g), bs[0], bs[1..]);
  }

  lemma {:induction false} FeedTags(f: Flv, ms: seq<Message>)
    requires BetweenTags(f) && forall m :: m in ms ==> Sendable(m)
    ensures Messages(f, Tags(ms)) == ms && BetweenTags(Feed(f, Tags(ms)))
    decreases |ms|
  {
    hide Feed, Messages, BE32, Tag, Run, Outputs;
    if ms == [] {
      FeedNothing(f);
    } else {
      var m := ms[0];
      var first := Tag(m) + BE32(|m.payload| + 11);
      FeedTag(f, m, |m.payload| + 11);
      FeedTags(Feed(f, first), ms[1..]);
      FeedAppend(f, first, Tags(ms[1..]));
    }
  }

  lemma FeedFLV()
    ensures Feed(INIT, [0x46, 0x4C, 0x56]) == INIT.(state := HeaderVersion) && Messages(INIT, [0x46, 0x4C, 0x56]) == []
  {
    Feed3(INIT, [0x46, 0x4C, 0x56],
          INIT.(state := HeaderFL), INIT.(state := HeaderFLV), INIT.(state := HeaderVersion));
  }

  lemma FeedSignature(flags: Byte, b: Byte) returns (g: Flv)
    ensures g == INIT.(version := 1, flags := flags, offset := ZERO.(b3 := b), state := DataOffset1)
    ensures var s := [0x46, 0x4C, 0x56] + [1, flags, b]; Feed(INIT, s) == g && Messages(INIT, s) == []
  {
    FeedFLV();
    g := FeedVersion(INIT.(state := HeaderVersion), flags, b);
    FeedAppend(INIT, [0x46, 0x4C, 0x56], [1, flags, b]);
  }

  lemma FeedVersion(f: Flv, flags: Byte, b: Byte) returns (g: Flv)
    requires !f.failed && f.state.HeaderVersion?
    ensures g == f.(version := 1, flags := flags, offset := f.offset.(b3 := b), state := DataOffset1)
    ensures Feed(f, [1, flags, b]) == g && Messages(f, [1, flags, b]) == []
  {
    var f3 := f.(version := 1, state := HeaderFlags);
    var f4 := f3.(flags := flags, state := DataOffset0);
    g := f4.(offset := f4.offset.(b3 := b), state := DataOffset1);
    Feed3(f, [1, flags, b], f3, f4, g);
  }

  lemma FeedOffset(f: Flv, s: seq<Byte>) returns (g: Flv)
    requires !f.failed && f.state.DataOffset1? && |s| == 3
    ensures g == f.(offset := g.offset, state := TagSize0)
    ensures Feed(f, s) == g && Messages(f, s) == []
  {
    var f6 := f.(offset := f.offset.(b2 := s[0]), state := DataOffset2);
    var f7 := f6.(offset := f6.offset.(b1 := s[1]), state := DataOffset3);
    g := f7.(offset := f7.offset.(b0 := s[2]), state := TagSize0);
    Feed3(f, s, f6, f7, g);
  }

  function FileHeader(flags: Byte, headerLen: int): seq<Byte>
    requires 0 <= headerLen < 0x1_0000_0000
  {
    [0x46, 0x4C, 0x56, 1, flags] + BE32(headerLen)
  }

  lemma HeaderInTwo(flags: Byte, headerLen: int)
    requires 0 <= headerLen < 0x1_0000_0000
    ensures var off := BE32(headerLen);
            |off| == 4 && FileHeader(flags, headerLen) == [0x46, 0x4C, 0x56] + [1, flags, off[0]] + off[1..]
  {
  }

  /** Before any message a size field of 0 is right. */
  lemma FirstSize(f: Flv)
    requires f.mlen == ZERO && !f.firstSeen
    ensures SizeOk(f, 0) && f.mlen.Value() == 0
  {
  }

  lemma FeedFileHeader(flags: Byte, headerLen: int)
    requires 0 <= headerLen < 0x1_0000_0000
    ensures var h := FileHeader(flags, headerLen) + BE32(0);
            BetweenTags(Feed(INIT, h)) && Messages(INIT, h) == []
  {
    hide Run, Outputs, BE32, FileHeader, Feed, Messages, SizeOk, Word.Value;
    var off := BE32(headerLen);
    HeaderInTwo(flags, headerLen);
    var sig := [0x46, 0x4C, 0x56] + [1, flags, off[0]];
    var f5 := FeedSignature(flags, off[0]);
    var f8 := FeedOffset(f5, off[1..]);
    FeedAppend(INIT, sig, off[1..]);
    FirstSize(f8);
    FeedSize(f8, 0);
    FeedAppend(INIT, FileHeader(flags, headerLen), BE32(0));
  }

  /** Whatever list of messages is written as a file is delivered exactly, in order. */
  lemma RoundTrip(flags: Byte, headerLen: int, ms: seq<Message>)
    requires 0 <= headerLen < 0x1_0000_0000
    requires forall m :: m in ms ==> Sendable(m)
    ensures Messages(INIT, File(flags, headerLen, ms)) == ms
    ensures BetweenTags(Feed(INIT, File(flags, headerLen, ms)))
  {
    var h := FileHeader(flags, headerLen) + BE32(0);
    FeedFileHeader(flags, headerLen);
    FeedTags(Feed(INIT, h), ms);
    FeedAppend(INIT, h, Tags(ms));
  }
}
