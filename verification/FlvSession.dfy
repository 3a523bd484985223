/**
 The session side of the FLV pull parser: fields updated in place, payload copied
 block by block into a chain of chunk buffers, and the driving loop over a chain
 of received buffers.
 */
module FlvSession {
  import opened Bytes
  import opened Machines
  import opened FlvParser

  datatype Rc = Ok | Again | Error

  class Session {
    var state: FlvState
    var version: int
    var flags: int
    var offset: Word
    var tagsize: Word
    var firstSeen: bool
    var typ: Byte
    var mlen: Word
    var timestamp: Word
    var msid: Word
    var left: int                 // st->len: payload still to come
    var chain: seq<seq<Byte>>     // st->in: each buffer holds up to `chunk` bytes
    var failed: bool              // the request was finalized
    const chunk: int

    /** Chain buffers are filled in order: only the last one has room. */
    ghost predicate Valid()
      reads this
    {
      && chunk > 0 && left >= 0
      && (forall i :: 0 <= i < |chain| ==> |chain[i]| <= chunk)
      && (forall i :: 0 <= i < |chain| - 1 ==> |chain[i]| == chunk)
    }

    function Abs(): Flv
      reads this
    {
      Flv(state, version, flags, offset, tagsize, firstSeen, typ, mlen, timestamp, msid, left, Flat(chain), failed)
    }

    constructor (chunkSize: int)
      requires chunkSize > 0
      ensures Valid() && Abs() == INIT && chunk == chunkSize
    {
      state, version, flags, offset, tagsize, firstSeen := HeaderF, 0, 0, ZERO, ZERO, false;
      typ, mlen, timestamp, msid, left, chain, failed := 0, ZERO, ZERO, ZERO, 0, [], false;
      chunk := chunkSize;
    }

    /** The cases of the parser's switch for the file header. */
    method FileCase(ch: Byte) returns (ok: bool)
      requires Valid() && InFileHeader(state) && !failed
      modifies this`state, this`version, this`flags, this`offset
      ensures Valid()
      ensures FileByte(old(Abs()), ch) == Abs().(failed := !ok)
    {
      ok := true;
      match state
      case HeaderF => if ch == 0x46 { state := HeaderFL; } else { ok := false; }
      case HeaderFL => if ch == 0x4C { state := HeaderFLV; } else { ok := false; }
      case HeaderFLV => if ch == 0x56 { state := HeaderVersion; } else { ok := false; }
      case HeaderVersion =>
        version := ch;
        if version != 1 { ok := false; } else { state := HeaderFlags; }
      case HeaderFlags => flags, state := ch, DataOffset0;
      case DataOffset0 => offset, state := offset.(b3 := ch), DataOffset1;
      case DataOffset1 => offset, state := offset.(b2 := ch), DataOffset2;
      case DataOffset2 => offset, state := offset.(b1 := ch), DataOffset3;
      case DataOffset3 => offset, state := offset.(b0 := ch), TagSize0;
    }

    /** The cases for the size field between tags. */
    method SizeCase(ch: Byte) returns (ok: bool)
      requires Valid() && InSize(state) && !failed
      modifies this`state, this`tagsize, this`firstSeen
      ensures Valid()
      ensures SizeByte(old(Abs()), ch) == Abs().(failed := !ok)
    {
      ok := true;
      match state
      case TagSize0 =>
        tagsize := ZERO;
        tagsize, state := tagsize.(b3 := ch), TagSize1;
      case TagSize1 => tagsize, state := tagsize.(b2 := ch), TagSize2;
      case TagSize2 => tagsize, state := tagsize.(b1 := ch), TagSize3;
      case TagSize3 =>
        tagsize := tagsize.(b0 := ch);
        if mlen.Value() == 0 && !firstSeen {
          firstSeen := true;
          if tagsize.Value() != 0 { ok := false; }
        } else {
          if mlen.Value() + 11 != tagsize.Value() { ok := false; }
        }
        if ok { state := TagType; }
    }

    /** The cases for a tag's type and length. */
    method LengthCase(ch: Byte) returns (ok: bool)
      requires Valid() && InLength(state) && !failed
      modifies this`state, this`typ, this`mlen, this`left
      ensures Valid()
      ensures LengthByte(old(Abs()), ch) == Abs().(failed := !ok)
    {
      ok := true;
      match state
      case TagType =>
        if ch != AMF_META && ch != AUDIO && ch != VIDEO {
          ok := false;
        } else {
          typ, state := ch, DataSize0;
        }
      case DataSize0 =>
        mlen := ZERO;
        mlen, state := mlen.(b2 := ch), DataSize1;
      case DataSize1 => mlen, state := mlen.(b1 := ch), DataSize2;
      case DataSize2 =>
        mlen, state := mlen.(b0 := ch), Timestamp0;
        left := mlen.Value();
    }

    /** The cases for a tag's timestamp and stream id. */
    method StampCase(ch: Byte)
      requires Valid() && !state.Data? && !InFileHeader(state) && !InSize(state) && !InLength(state) && !failed
      modifies this`state, this`timestamp, this`msid
      ensures Valid()
      ensures StampByte(old(Abs()), ch) == Abs()
    {
      match state
      case Timestamp0 => timestamp, state := timestamp.(b2 := ch), Timestamp1;
      case Timestamp1 => timestamp, state := timestamp.(b1 := ch), Timestamp2;
      case Timestamp2 => timestamp, state := timestamp.(b0 := ch), TimestampExtended;
      case TimestampExtended => timestamp, state := timestamp.(b3 := ch), StreamId0;
      case StreamId0 =>
        msid := ZERO;
        msid, state := msid.(b2 := ch), StreamId1;
      case StreamId1 => msid, state := msid.(b1 := ch), StreamId2;
      case StreamId2 => msid, state := msid.(b0 := ch), Data;
    }

    /** The parser's switch outside the payload, for the byte at `p`. */
    method HeaderCase(b: seq<Byte>, p: int) returns (ok: bool)
      requires Valid() && !state.Data? && !failed && 0 <= p < |b|
      modifies this
      ensures Valid() && !failed
      ensures LeadsTo(old(Abs()), b[p..], [], Abs().(failed := !ok), if ok then b[p+1..] else [])
    {
      HeaderFed(Abs(), b, p);
      if InFileHeader(state) {
        ok := FileCase(b[p]);
      } else if InSize(state) {
        ok := SizeCase(b[p]);
      } else if InLength(state) {
        ok := LengthCase(b[p]);
      } else {
        StampCase(b[p]);
        ok := true;
      }
    }

    ghost predicate AllFull()
      reads this
    {
      forall i :: 0 <= i < |chain| ==> |chain[i]| == chunk
    }

    /** The first buffer of the chain that is not full, or its end. */
    method FindRoom() returns (li: int)
      requires Valid()
      ensures |chain| - 1 <= li <= |chain| && 0 <= li
      ensures li == |chain| ==> AllFull()
    {
      li := 0;
      while li < |chain| && |chain[li]| == chunk
        invariant 0 <= li <= |chain|
        invariant forall i :: 0 <= i < li ==> |chain[i]| == chunk
      {
        li := li + 1;
      }
    }

    /** A fresh buffer behind full ones. */
    method NewBuffer()
      requires Valid() && AllFull()
      modifies this`chain
      ensures Valid() && |chain| == old(|chain|) + 1 && chain[|chain|-1] == [] && Flat(chain) == old(Flat(chain))
    {
      FlatAppend(chain, [[]]);
      FlatOne<Byte>([]);
      assert Flat(chain) + [] == Flat(chain);
      chain := chain + [[]];
    }

    /** Move the next `len` bytes of `b` into the last buffer. */
    method Copy(b: seq<Byte>, p: int, len: int, ghost start: int, ghost before: seq<Byte>)
      requires Valid() && chain != [] && |chain[|chain|-1]| + len <= chunk
      requires 0 <= start <= p <= p + len <= |b| && 0 <= len <= left && Flat(chain) == before + b[start..p]
      modifies this`chain, this`left
      ensures Valid() && |chain| == old(|chain|) && left == old(left) - len
      ensures Flat(chain) == before + b[start..p+len] && |chain[|chain|-1]| == old(|chain[|chain|-1]|) + len
    {
      FlatGrow(chain, b[p..p+len]);
      SlicesJoin(b, start, p, p + len);
      assert before + b[start..p] + b[p..p+len] == before + b[start..p+len];
      chain := chain[|chain|-1 := chain[|chain|-1] + b[p..p+len]];
      left := left - len;
    }

    /** The payload case: fill the free part of the chain, buffer by buffer, from what has been received. */
    method DataCase(b: seq<Byte>, start: int) returns (p: int)
      requires Valid() && 0 <= start <= |b|
      modifies this`left, this`chain
      ensures Valid() && p - start == (if old(left) <= |b| - start then old(left) else |b| - start)
      ensures left == old(left) - (p - start) && Flat(chain) == old(Flat(chain)) + b[start..p]
    {
      p := start;
      ghost var before, total := Flat(chain), left;
      assert before + b[start..p] == before;
      var li := FindRoom();
      while true
        invariant Valid() && start <= p <= |b| && |chain| - 1 <= li <= |chain| && 0 <= li
        invariant left == total - (p - start) && Flat(chain) == before + b[start..p]
        invariant li == |chain| ==> AllFull()
        decreases |b| - p, |chain| - li
      {
        if li == |chain| {
          NewBuffer();
        }
        var len := if left < |b| - p then left else |b| - p;
        var room := chunk - |chain[li]|;
        if room >= len {
          Copy(b, p, len, start, before);
          p := p + len;
          return;
        }
        Copy(b, p, room, start, before);
        p, li := p + room, li + 1;
      }
    }

    /**
     One call of the parser on what is left of a buffer. `Ok` means a message is
     complete and waits in the chain; `Again` that the buffer is used up.
     */
    method Parse(b: seq<Byte>, start: int) returns (rc: Rc, p: int)
      requires Valid() && !failed && 0 <= start <= |b|
      modifies this
      ensures Valid() && !failed && start <= p <= |b|
      ensures rc == Error ==> LeadsTo(old(Abs()), b[start..], [], Abs().(failed := true), [])
      ensures rc == Again ==> p == |b| && LeadsTo(old(Abs()), b[start..], [], Abs(), [])
      ensures rc == Ok ==> LeadsTo(old(Abs()), b[start..], [Ready(Abs())], Taken(Abs()), b[p..])
      ensures rc == Ok ==> state.TagSize0? && (p > start || old(state).Data?)
    {
      p := start;
      ghost var f := Abs();
      while p < |b|
        invariant Valid() && !failed && start <= p <= |b|
        invariant LeadsTo(f, b[start..], [], Abs(), b[p..])
        invariant p == start ==> Abs() == f
      {
        ghost var g, q := Abs(), p;
        if state.Data? {
          rc, p := PayloadCase(b, p);
          LeadsOn(f, b[start..], [], g, b[q..], Got(rc, Abs()), Left(rc, Abs()), if rc == Again then [] else b[p..]);
          return;
        }
        var ok := HeaderCase(b, p);
        LeadsOn(f, b[start..], [], g, b[q..], [], Abs().(failed := !ok), if ok then b[p+1..] else []);
        if !ok {
          return Error, p;
        }
        p := p + 1;
      }
      assert b[p..] == [];
      return Again, p;
    }

    /** The whole payload case: copy, and look whether the message is complete. */
    method PayloadCase(b: seq<Byte>, start: int) returns (rc: Rc, p: int)
      requires Valid() && !failed && 0 <= start < |b| && state.Data?
      modifies this
      ensures Valid() && !failed && start <= p <= |b| && rc != Error
      ensures LeadsTo(old(Abs()), b[start..], Got(rc, Abs()), Left(rc, Abs()), if rc == Again then [] else b[p..])
      ensures if rc == Again then p == |b| else state.TagSize0?
    {
      hide LeadsTo, Flat;
      ghost var g := Abs();
      p := DataCase(b, start);
      DataFed(g, b, start, p);
      if left != 0 {
        rc := Again;
      } else {
        state := TagSize0;
        rc := Ok;
      }
    }

    /** One round of the driving loop: parse, and hand over the message if one is complete. */
    method Round(bufs: seq<seq<Byte>>, l: int, start: int) returns (p: int, ms: seq<Message>)
      requires Valid() && !failed && 0 <= l < |bufs| && 0 <= start <= |bufs[l]|
      modifies this
      ensures Valid() && start <= p <= |bufs[l]|
      ensures LeadsTo(old(Abs()), Pending(bufs, l, start), ms, Abs(), if failed then [] else Pending(bufs, l, p))
      ensures !failed ==> p == |bufs[l]| || p > start || (old(state).Data? && !state.Data?)
    {
      ghost var f, s, more := Abs(), bufs[l][start..], Flat(bufs[l+1..]);
      var rc;
      rc, p := Parse(bufs[l], start);
      match rc
      case Error =>
        failed, ms := true, [];
        LeadsWithMore(f, s, [], Abs(), [], more);
        LeadsNowhere(f, s + more, [], Abs(), more);
      case Again =>
        ms := [];
        LeadsWithMore(f, s, [], Abs(), [], more);
        assert [] + more == bufs[l][p..] + more;
      case Ok =>
        LeadsWithMore(f, s, [Ready(Abs())], Taken(Abs()), bufs[l][p..], more);
        ms := [Message(typ, timestamp.Value(), msid.Value(), Flat(chain))];
        chain := [];
    }

    /** The driving loop over a chain of received buffers; `msgs` are the messages handed on. */
    method RecvBody(bufs: seq<seq<Byte>>) returns (msgs: seq<Message>)
      requires Valid() && !failed
      modifies this
      ensures Valid()
      ensures Abs() == Feed(old(Abs()), Flat(bufs)) && msgs == Messages(old(Abs()), Flat(bufs))
    {
      hide LeadsTo, Feed, Messages, Flat, Pending, Run, Outputs;
      msgs := [];
      var l, p := 0, 0;
      ghost var f := Abs();
      PendingAll(bufs);
      LeadsAtFirst(f, Flat(bufs));
      while true
        invariant Valid() && !failed && 0 <= l <= |bufs| && (if l < |bufs| then 0 <= p <= |bufs[l]| else p == 0)
        invariant LeadsTo(f, Flat(bufs), msgs, Abs(), Pending(bufs, l, p))
        decreases |bufs| - l, if l < |bufs| then |bufs[l]| - p else 0, if state.Data? then 1 else 0
      {
        if l < |bufs| && p == |bufs[l]| {
          PendingNext(bufs, l);
          l, p := l + 1, 0;
        }
        if l == |bufs| {
          PendingNone(bufs, p);
          LeadsAtLast(f, Flat(bufs), msgs, Abs());
          return;
        }
        ghost var g, q := Abs(), p;
        var ms;
        p, ms := Round(bufs, l, p);
        LeadsOn(f, Flat(bufs), msgs, g, Pending(bufs, l, q), ms, Abs(), if failed then [] else Pending(bufs, l, p));
        msgs := msgs + ms;
        if failed {
          LeadsAtLast(f, Flat(bufs), msgs, Abs());
          return;
        }
      }
    }
  }

  /** The message a call of the parser leaves to be handed on, if any ... */
  function Got(rc: Rc, f: Flv): seq<Message> {
    if rc == Ok then [Ready(f)] else []
  }

  /** ... and the state once that is done. */
  function Left(rc: Rc, f: Flv): Flv {
    if rc == Ok then Taken(f) else f
  }

  /** Having read `s` from `f`, apart from `rest`, the session is at `g` and has handed on `ms`. */
  ghost predicate LeadsTo(f: Flv, s: seq<Byte>, ms: seq<Message>, g: Flv, rest: seq<Byte>) {
    Feed(f, s) == Feed(g, rest) && Messages(f, s) == ms + Messages(g, rest)
  }

  lemma LeadsOn(f: Flv, s: seq<Byte>, ms: seq<Message>, g: Flv, t: seq<Byte>, ns: seq<Message>, h: Flv, rest: seq<Byte>)
    requires LeadsTo(f, s, ms, g, t) && LeadsTo(g, t, ns, h, rest)
    ensures LeadsTo(f, s, ms + ns, h, rest)
  {
  }

  lemma LeadsAtFirst(f: Flv, s: seq<Byte>)
    ensures LeadsTo(f, s, [], f, s)
  {
  }

  lemma LeadsAtLast(f: Flv, s: seq<Byte>, ms: seq<Message>, g: Flv)
    requires LeadsTo(f, s, ms, g, [])
    ensures g == Feed(f, s) && ms == Messages(f, s)
  {
  }

  lemma PendingNone(bufs: seq<seq<Byte>>, p: int)
    ensures Pending(bufs, |bufs|, p) == []
  {
  }

  lemma PendingAll(bufs: seq<seq<Byte>>)
    ensures Pending(bufs, 0, 0) == Flat(bufs)
  {
    if bufs != [] { assert bufs[0][0..] == bufs[0]; }
  }

  /** What is said of a stretch of the stream also holds with more behind it. */
  lemma LeadsWithMore(f: Flv, s: seq<Byte>, ms: seq<Message>, g: Flv, rest: seq<Byte>, more: seq<Byte>)
    requires LeadsTo(f, s, ms, g, rest)
    ensures LeadsTo(f, s + more, ms, g, rest + more)
  {
    FeedAppend(f, s, more);
    FeedAppend(g, rest, more);
  }

  lemma LeadsNowhere(f: Flv, s: seq<Byte>, ms: seq<Message>, g: Flv, rest: seq<Byte>)
    requires LeadsTo(f, s, ms, g, [] + rest) && g.failed
    ensures LeadsTo(f, s, ms, g, [])
  {
    FeedFailed(g, [] + rest);
  }

  /** The bytes not yet parsed: the rest of buffer `l` from `p`, and all buffers behind it. */
  function Pending(bufs: seq<seq<Byte>>, l: int, p: int): seq<Byte>
    requires 0 <= l <= |bufs| && (l < |bufs| ==> 0 <= p <= |bufs[l]|)
  {
    if l == |bufs| then [] else bufs[l][p..] + Flat(bufs[l+1..])
  }

  lemma PendingNext(bufs: seq<seq<Byte>>, l: int)
    requires 0 <= l < |bufs|
    ensures Pending(bufs, l, |bufs[l]|) == Pending(bufs, l + 1, 0)
  {
    if l + 1 < |bufs| {
      FlatSplit(bufs, l + 1);
    }
  }

  lemma HeaderFed(f: Flv, b: seq<Byte>, p: int)
    requires 0 <= p < |b| && !f.failed && !f.state.Data?
    ensures var g := HeaderByte(f, b[p]); LeadsTo(f, b[p..], [], g, if g.failed then [] else b[p+1..])
  {
    assert b[p..] == [b[p]] + b[p+1..];
    var g := HeaderByte(f, b[p]);
    FeedQuiet(f, b[p], g, b[p+1..]);
    if g.failed { FeedFailed(g, b[p+1..]); }
  }

  /** What the payload case does, in terms of single bytes. */
  lemma DataFed(f: Flv, b: seq<Byte>, start: int, p: int)
    requires !f.failed && f.state.Data? && f.left >= 0 && 0 <= start < |b| && start <= p <= |b|
    requires p - start == if f.left <= |b| - start then f.left else |b| - start
    ensures var g := f.(left := f.left - (p - start), payload := f.payload + b[start..p]);
      && (g.left != 0 ==> p == |b| && LeadsTo(f, b[start..], [], g, []))
      && (g.left == 0 ==> LeadsTo(f, b[start..], [Ready(g)], Taken(g), b[p..]))
  {
    SlicesJoin(b, start, p, |b|);
    assert b[start..|b|] == b[start..] && b[p..|b|] == b[p..];
    if p - start < f.left {
      FeedPayload(f, b[start..p]);
      assert b[start..p] == b[start..];
    } else if f.left > 0 {
      FeedLastPayload(f, b[start..p]);
      FeedAppend(f, b[start..p], b[p..]);
    } else {
      assert f.payload + b[start..p] == f.payload;
      EmptyFed(f, b[p], b[p+1..]);
      assert b[p..] == [b[p]] + b[p+1..];
    }
  }

  lemma EmptyFed(f: Flv, ch: Byte, more: seq<Byte>)
    requires !f.failed && f.state.Data? && f.left == 0
    ensures LeadsTo(f, [ch] + more, [Ready(f)], Taken(f), [ch] + more)
  {
    RunOne(Next, Emitted, f, ch, more);
    RunOne(Next, Emitted, Taken(f), ch, more);
  }

  lemma SlicesJoin<T>(b: seq<T>, i: int, j: int, k: int)
    requires 0 <= i <= j <= k <= |b|
    ensures b[i..j] + b[j..k] == b[i..k]
  {
  }
}
