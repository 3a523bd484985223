/** The reader as it runs: over a chain of buffers, keeping the current link and an offset into it. */
module AmfReader {
  import opened Bytes
  import opened Amf

  lemma {:induction false} LinkStands(chain: seq<seq<Byte>>, l: nat)
    requires l < |chain|
    ensures Stands(Flat(chain), |Flat(chain[..l])|, chain[l])
    ensures |Flat(chain[..l+1])| == |Flat(chain[..l])| + |chain[l]| <= |Flat(chain)|
  {
    assert chain == chain[..l] + chain[l..];
    FlatAppend(chain[..l], chain[l..]);
    FlatSplit(chain, l);
    assert chain[..l+1] == chain[..l] + [chain[l]];
    FlatAppend(chain[..l], [chain[l]]);
    FlatOne(chain[l]);
    var a, b, c := Flat(chain[..l]), chain[l], Flat(chain[l+1..]);
    assert Flat(chain) == a + (b + c);
    forall x | 0 <= x < |b| ensures (a + (b + c))[|a|+x] == b[x] { assert (b + c)[x] == b[x]; }
  }

  lemma StandsMore(b: seq<Byte>, p: nat, a: seq<Byte>, base: nat, buf: seq<Byte>, from: nat, to: nat)
    requires Stands(b, p, a) && Stands(b, base, buf) && from <= to <= |buf| && base + from == p + |a|
    ensures p + |a| + (to - from) <= |b| && Stands(b, p, a + buf[from..to])
  {
    var piece := buf[from..to];
    forall x | 0 <= x < |a + piece| ensures p + x < |b| && b[p+x] == (a + piece)[x] {
      if x >= |a| { assert b[base+(from+x-|a|)] == buf[from+x-|a|]; }
    }
    if piece != [] { assert b[base+(to-1)] == buf[to-1]; }
  }

  lemma ReadsU16(b: seq<Byte>, pos: nat)
    requires pos + 2 <= |b|
    ensures U16(b[pos..pos+2], 0) == U16(b, pos)
  {
  }

  lemma SliceFront(b: seq<Byte>, i: nat, n: nat, k: nat)
    requires k <= n && i + n <= |b|
    ensures b[i..i+n][..k] == b[i..i+k]
  {
  }

  class Reader {
    const chain: seq<seq<Byte>>
    var link: nat
    var offset: nat

    constructor (chain: seq<seq<Byte>>)
      ensures this.chain == chain && Valid() && Pos() == 0
    {
      this.chain, link, offset := chain, 0, 0;
    }

    /** The link may be past the last buffer; the offset is inside the current one. */
    ghost predicate Valid()
      reads this
    {
      link <= |chain| && offset <= (if link < |chain| then |chain[link]| else 0) && Pos() <= |All()|
    }

    ghost function All(): seq<Byte> {
      Flat(chain)
    }

    /** The position in the flat sequence of all bytes. */
    function Pos(): nat
      reads this
    {
      if link <= |chain| then |Flat(chain[..link])| + offset else 0
    }

    /** The next `n` bytes, wherever the buffers end; at the end of the input nothing moves. */
    method Get(n: nat) returns (ok: bool, bytes: seq<Byte>)
      requires Valid()
      modifies this
      ensures Valid()
      ensures ok <==> old(Pos()) + n <= |All()|
      ensures ok ==> bytes == All()[old(Pos())..old(Pos())+n] && Pos() == old(Pos()) + n
      ensures !ok ==> link == old(link) && offset == old(offset)
    {
      if n == 0 { return true, []; }
      var l, off;
      ok, bytes, l, off := Walk(chain, link, offset, n);
      if ok {
        StandsSlice(All(), Pos(), bytes);
        link, offset := l, off;
      }
    }

    /** The walk along the links. */
    static method Walk(chain: seq<seq<Byte>>, link: nat, offset: nat, n: nat)
      returns (ok: bool, bytes: seq<Byte>, l: nat, off: nat)
      requires link <= |chain| && offset <= (if link < |chain| then |chain[link]| else 0) && n > 0
      ensures ok <==> |Flat(chain[..link])| + offset + n <= |Flat(chain)|
      ensures ok ==> |bytes| == n && Stands(Flat(chain), |Flat(chain[..link])| + offset, bytes)
      ensures ok ==> l < |chain| && off <= |chain[l]| && |Flat(chain[..l])| + off == |Flat(chain[..link])| + offset + n
    {
      hide Flat;
      ghost var all, p, base := Flat(chain), |Flat(chain[..link])| + offset, |Flat(chain[..link])|;
      var rest := n;
      bytes, l, off := [], link, offset;
      if link < |chain| { LinkStands(chain, link); }
      assert chain[..|chain|] == chain;
      while l < |chain|
        invariant link <= l <= |chain| && off <= (if l < |chain| then |chain[l]| else 0)
        invariant base == |Flat(chain[..l])| && base + off == p + |bytes| && |bytes| + rest == n && rest > 0
        invariant Stands(all, p, bytes)
      {
        LinkStands(chain, l);
        var buf := chain[l];
        if |buf| >= off + rest {
          StandsMore(all, p, bytes, base, buf, off, off + rest);
          return true, bytes + buf[off..off+rest], l, off + rest;
        }
        StandsMore(all, p, bytes, base, buf, off, |buf|);
        bytes, rest := bytes + buf[off..|buf|], rest - (|buf| - off);
        base, l, off := base + |buf|, l + 1, 0;
      }
      ok := false;
    }

    method ReadScalar(slot: Slot, n: nat, swap: bool) returns (rc: Rc, slot': Slot)
      requires Valid()
      modifies this
      ensures Valid()
      ensures var r := Amf.ReadScalar(All(), old(Pos()), slot, n, swap);
              rc == r.rc && (rc == Ok ==> slot' == r.slot && Pos() == r.pos)
    {
      var ok, bytes := Get(n);
      if !ok { return Err, slot; }
      return Ok, if slot.Nothing? then slot else Cell(if swap then Reverse(bytes) else bytes);
    }

    method ReadString(slot: Slot) returns (rc: Rc, slot': Slot)
      requires Valid()
      modifies this
      ensures Valid()
      ensures var r := Amf.ReadString(All(), old(Pos()), slot);
              rc == r.rc && (rc == Ok ==> slot' == r.slot && Pos() == r.pos)
    {
      hide Flat, U16;
      ghost var pos := Pos();
      var ok, text := Get(2);
      if !ok { return Err, slot; }
      var len := U16(text, 0);
      ReadsU16(All(), pos);
      if !slot.Text? {
        ok, text := Get(len);
        return if ok then Ok else Err, slot;
      }
      if slot.len <= 0 { return Fault, slot; }
      rc, slot' := ReadText(slot.len, len);
      if rc == Ok && slot.len <= len { SliceFront(All(), pos + 2, len, slot.len - 1); }
    }

    /** The text of a string, into a buffer of `room` bytes: what does not fit in before its NUL is passed over. */
    method ReadText(room: int, len: nat) returns (rc: Rc, slot: Slot)
      requires Valid() && room > 0
      modifies this
      ensures Valid()
      ensures rc == if old(Pos()) + len > |All()| then Err else Ok
      ensures rc == Ok ==>
                && Pos() == old(Pos()) + len
                && slot == Text(room, All()[old(Pos())..old(Pos())+(if room <= len then room - 1 else len)])
    {
      hide Flat;
      if room <= len {
        var ok, text := Get(room - 1);
        if !ok { return Err, Nothing; }
        var more, _ := Get(len - room + 1);
        return if more then Ok else Err, Text(room, text);
      }
      var ok, text := Get(len);
      return if ok then Ok else Err, Text(room, text);
    }

    method ReadPlain(typ: int, slot: Slot) returns (rc: Rc, slot': Slot, stop: bool)
      requires Valid()
      modifies this
      ensures Valid()
      ensures var r := Amf.ReadPlain(All(), old(Pos()), typ, slot);
              rc == r.rc && (rc == Ok ==> slot' == r.slot && stop == r.stop && Pos() == r.pos)
    {
      rc, slot', stop := Ok, slot, false;
      if typ == NUMBER { rc, slot' := ReadScalar(slot, 8, true); }
      else if typ == BOOLEAN || typ == INT8 { rc, slot' := ReadScalar(slot, 1, false); }
      else if typ == INT16 { rc, slot' := ReadScalar(slot, 2, true); }
      else if typ == INT32 { rc, slot' := ReadScalar(slot, 4, true); }
      else if typ == STRING { rc, slot' := ReadString(slot); }
      else if typ == END { stop := true; }
      else if typ != NULL && typ != ARRAY_NULL { rc := Err; }
    }

    method ReadValue(typ: int, slot: Slot) returns (rc: Rc, slot': Slot, stop: bool)
      requires Valid()
      modifies this
      ensures Valid()
      ensures var r := Amf.ReadValue(All(), old(Pos()), typ, slot);
              rc == r.rc && (rc == Ok ==> slot' == r.slot && stop == r.stop && Pos() == r.pos)
      decreases |All()| - Pos(), 3, 0
    {
      if typ == MIXED_ARRAY || typ == OBJECT || typ == ARRAY {
        rc, slot' := ReadGroup(typ, slot);
        stop := false;
      } else if typ == VARIANT {
        rc, slot' := ReadVariant(slot);
        stop := false;
      } else {
        rc, slot', stop := ReadPlain(typ, slot);
      }
    }

    method ReadGroup(typ: int, slot: Slot) returns (rc: Rc, slot': Slot)
      requires Valid()
      modifies this
      ensures Valid()
      ensures var r := Amf.ReadGroup(All(), old(Pos()), typ, slot);
              rc == r.rc && (rc == Ok ==> slot' == r.slot && !r.stop && Pos() == r.pos)
      decreases |All()| - Pos(), 2, 0
    {
      var elts := Nested(slot);
      if typ == OBJECT {
        rc, elts := ReadObject(elts);
      } else {
        var ok, bytes := Get(4);
        if !ok { return Err, slot; }
        if typ == ARRAY {
          assert U32(bytes, 0) == U32(All(), old(Pos()));
          rc, elts := ReadArray(elts, U32(bytes, 0));
        } else {
          rc, elts := ReadObject(elts);
        }
      }
      slot' := Regrouped(slot, elts);
    }

    method ReadVariant(slot: Slot) returns (rc: Rc, slot': Slot)
      requires Valid()
      modifies this
      ensures Valid()
      ensures var r := Amf.ReadVariant(All(), old(Pos()), slot);
              rc == r.rc && (rc == Ok ==> slot' == r.slot && !r.stop && Pos() == r.pos)
      decreases |All()| - Pos(), 2, 0
    {
      var ok, typ := Get(1);
      if !ok { return Err, slot; }
      var alts := Nested(slot);
      var k := FindAlternative(alts, typ[0]);
      var place := if k < |alts| then alts[k].slot else Nothing;
      var stop;
      rc, place, stop := ReadValue(typ[0], place);
      slot' := if k < |alts| then Regrouped(slot, alts[k := alts[k].(slot := place)]) else slot;
    }

    /** The scan over all alternatives, remembering the last that fits. */
    static method FindAlternative(alts: seq<Elt>, typ: int) returns (k: nat)
      ensures k == Alternative(alts, typ, |alts|)
    {
      k := |alts|;
      var n := 0;
      while n < |alts|
        invariant n <= |alts| && k == Alternative(alts, typ, n)
      {
        var e := alts[n];
        if e.code == typ && !e.optional && !e.typeless && !e.context { k := n; }
        n := n + 1;
      }
    }

    method ReadElt(elt: Option<Elt>) returns (rc: Rc, elt': Option<Elt>, stop: bool)
      requires Valid()
      modifies this
      ensures Valid()
      ensures var r := Amf.ReadElt(All(), old(Pos()), elt);
              rc == r.rc && (rc == Ok ==> elt' == r.elt && stop == r.stop && Pos() == r.pos)
      decreases |All()| - Pos(), 4, 0
    {
      rc, elt', stop := Err, elt, false;
      var place := Nothing;
      if elt.Some? && elt.value.typeless {
        if elt.value.optional || elt.value.context { return; }
        rc, place, stop := ReadValue(elt.value.code, elt.value.slot);
        elt' := Some(elt.value.(slot := place));
        return;
      }
      var ok, typ := Get(1);
      if !ok {
        rc := if elt.None? then Fault else if elt.value.optional then Ok else Err;
        stop := true;
        return;
      }
      var mine := elt.Some? && Compatible(elt.value.code % 0x100, typ[0]) && elt.value.slot != Nothing;
      if mine && !elt.value.context {
        rc, place, stop := ReadValue(typ[0], elt.value.slot);
        elt' := Some(elt.value.(slot := place));
      } else {
        if mine { elt' := Some(elt.value.(slot := Saved(Pos()))); }
        rc, place, stop := ReadValue(typ[0], Nothing);
      }
    }

    /** The longest name asked for. */
    static method LongestName(elts: seq<Elt>) returns (maxlen: nat)
      ensures forall i :: 0 <= i < |elts| ==> |elts[i].name| <= maxlen
    {
      maxlen := 0;
      var n := 0;
      while n < |elts|
        invariant n <= |elts| && forall i :: 0 <= i < n ==> |elts[i].name| <= maxlen
      {
        if |elts[n].name| > maxlen { maxlen := |elts[n].name|; }
        n := n + 1;
      }
    }

    /** A name of `len` bytes; what is longer than any name asked for is passed over. */
    method ReadName(len: nat, maxlen: nat) returns (ok: bool, name: seq<Byte>)
      requires Valid()
      modifies this
      ensures Valid()
      ensures ok <==> old(Pos()) + len <= |All()|
      ensures ok ==> Pos() == old(Pos()) + len
      ensures ok ==>
               |name| <= len && name == All()[old(Pos())..old(Pos())+|name|]
               && (|name| == len || |name| == maxlen < len)
    {
      if len <= maxlen {
        ok, name := Get(len);
      } else {
        ok, name := Get(maxlen);
        if !ok { return; }
        var more, _ := Get(len - maxlen);
        ok := more;
      }
    }

    /** The search by length and name; only a beginning of the name may be there when no name is as long. */
    static method FindField(elts: seq<Elt>, len: nat, name: seq<Byte>, ghost full: seq<Byte>) returns (n: nat)
      requires |full| == len && |name| <= len && name == full[..|name|]
      requires |name| == len || forall i :: 0 <= i < |elts| ==> |elts[i].name| <= |name|
      ensures n == Find(elts, full)
    {
      n := 0;
      assert elts[0..] == elts;
      while n < |elts| && (len != |elts[n].name| || CString(name) != CString(elts[n].name))
        invariant n <= |elts| && Find(elts, full) == n + Find(elts[n..], full)
      {
        assert elts[n..][0] == elts[n] && elts[n..][1..] == elts[n+1..];
        n := n + 1;
      }
      assert n < |elts| ==> name == full;
    }

    /** One turn of the loop over properties; `more` unless it ends here. */
    method ReadField(elts: seq<Elt>) returns (rc: Rc, more: bool, elts': seq<Elt>)
      requires Valid()
      modifies this
      ensures Valid() && |elts'| == |elts|
      ensures more ==> rc == Ok && Pos() > old(Pos())
      ensures more ==> Amf.ReadObject(All(), Pos(), elts') == Amf.ReadObject(All(), old(Pos()), elts)
      ensures !more ==> var r := Amf.ReadObject(All(), old(Pos()), elts);
                        rc == r.rc && (rc == Ok ==> elts' == r.elts && Pos() == r.pos)
      decreases |All()| - Pos(), 1, 0
    {
      hide Amf.ReadElt, Flat, Find, CString;
      rc, more, elts' := Err, false, elts;
      ghost var b, p := All(), Pos();
      var maxlen := LongestName(elts);
      var ok, bytes := Get(2);
      if !ok { rc := Ok; return; }
      var len := U16(bytes, 0);
      assert len == U16(b, p);
      if len == 0 {
        ok, bytes := Get(1);
        if ok && bytes[0] == END { rc := Ok; }
        return;
      }
      ok, bytes := ReadName(len, maxlen);
      if !ok { return; }
      var n := FindField(elts, len, bytes, b[p+2..p+2+len]);
      var elt, stop := if n < |elts| then Some(elts[n]) else None, false;
      rc, elt, stop := ReadElt(elt);
      more := rc == Ok;
      if more && n < |elts| && elt.Some? { elts' := elts[n := elt.value]; }
    }

    method ReadObject(elts: seq<Elt>) returns (rc: Rc, elts': seq<Elt>)
      requires Valid()
      modifies this
      ensures Valid()
      ensures var r := Amf.ReadObject(All(), old(Pos()), elts);
              rc == r.rc && (rc == Ok ==> elts' == r.elts && Pos() == r.pos)
      decreases |All()| - Pos(), 1, 1
    {
      hide Amf.ReadObject, Flat;
      elts' := elts;
      ghost var b, start := All(), Pos();
      while true
        invariant Valid() && start <= Pos()
        invariant Amf.ReadObject(b, Pos(), elts') == Amf.ReadObject(b, start, elts)
        decreases |b| - Pos()
      {
        var more;
        rc, more, elts' := ReadField(elts');
        if !more { return; }
      }
    }

    method ReadArray(elts: seq<Elt>, len: nat) returns (rc: Rc, elts': seq<Elt>)
      requires Valid()
      modifies this
      ensures Valid()
      ensures var r := Amf.ReadArray(All(), old(Pos()), elts, 0, len);
              rc == r.rc && (rc == Ok ==> elts' == r.elts && Pos() == r.pos)
      decreases |All()| - Pos(), 5, len
    {
      elts' := elts;
      ghost var b, start := All(), Pos();
      var n := 0;
      while n < len
        invariant Valid() && start <= Pos() && n <= len && |elts'| == |elts|
        invariant Amf.ReadArray(b, Pos(), elts', n, len - n) == Amf.ReadArray(b, start, elts, 0, len)
      {
        var elt := if n < |elts'| then Some(elts'[n]) else None;
        var stop;
        rc, elt, stop := ReadElt(elt);
        if rc != Ok { return rc, elts'; }
        if n < |elts'| && elt.Some? { elts' := elts'[n := elt.value]; }
        n := n + 1;
      }
      rc := Ok;
    }

    /** Elements in a row. */
    method Read(elts: seq<Elt>) returns (rc: Rc, elts': seq<Elt>)
      requires Valid()
      modifies this
      ensures Valid()
      ensures var r := ReadElts(All(), old(Pos()), elts, 0);
              rc == r.rc && (rc == Ok ==> elts' == r.elts && Pos() == r.pos)
    {
      elts' := elts;
      ghost var b, start := All(), Pos();
      var n := 0;
      while n < |elts'|
        invariant Valid() && n <= |elts'| == |elts|
        invariant ReadElts(b, Pos(), elts', n) == ReadElts(b, start, elts, 0)
      {
        var elt, stop;
        rc, elt, stop := ReadElt(Some(elts'[n]));
        if elt.Some? { elts' := elts'[n := elt.value]; }
        if rc != Ok || stop { return; }
        n := n + 1;
      }
      rc := Ok;
    }
  }
}
