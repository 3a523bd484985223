/** The writer as it runs: filling buffers of given sizes, one after the other, as an allocator hands them out. */
module AmfWriter {
  import opened Bytes
  import opened Amf
  import opened AmfRoundTrip
  import AmfReader

  function Sum(s: seq<nat>): nat {
    if s == [] then 0 else s[0] + Sum(s[1..])
  }

  class Writer {
    /** What each buffer of the chain holds; writing goes on in the last. */
    var bufs: seq<seq<Byte>>
    /** Free bytes at the end of the last buffer. */
    var free: nat
    /** The sizes of the buffers that the allocator still has. */
    var pool: seq<nat>

    constructor (pool: seq<nat>)
      ensures bufs == [] && this.pool == pool && Valid() && Room() == Sum(pool)
    {
      bufs, free, this.pool := [], 0, pool;
    }

    ghost predicate Valid()
      reads this
    {
      bufs == [] ==> free == 0
    }

    ghost function Room(): nat
      reads this
    {
      free + Sum(pool)
    }

    ghost function Contents(): seq<Byte>
      reads this
    {
      Flat(bufs)
    }

    /** A buffer more, once the last is full; fails when the allocator has none. */
    method Extend() returns (ok: bool)
      requires Valid() && free == 0
      modifies this
      ensures Valid() && Contents() == old(Contents()) && Room() == old(Room())
      ensures ok <==> old(pool) != []
      ensures ok ==> bufs != [] && pool == old(pool)[1..]
      ensures !ok ==> pool == []
    {
      if pool == [] { return false; }
      FlatAppend(bufs, [[]]);
      FlatOne<Byte>([]);
      bufs, free, pool := bufs + [[]], pool[0], pool[1..];
      ok := true;
    }

    /** The bytes follow what was written before, however the buffers divide them. */
    method Put(p: seq<Byte>) returns (ok: bool)
      requires Valid()
      modifies this
      ensures Valid()
      ensures ok <==> |p| <= old(Room())
      ensures ok ==> Contents() == old(Contents()) + p && Room() == old(Room()) - |p|
    {
      hide Flat, Sum;
      var n := 0;
      assert p[..0] == [];
      while n < |p|
        invariant Valid() && n <= |p| && Contents() == old(Contents()) + p[..n] && Room() == old(Room()) - n
        decreases |p| - n, |pool|
      {
        if bufs == [] || free == 0 {
          ok := Extend();
          if !ok {
            NoSizes();
            return;
          }
        }
        var size := if free >= |p| - n then |p| - n else free;
        FlatGrow(bufs, p[n..n+size]);
        assert p[..n+size] == p[..n] + p[n..n+size];
        bufs, free := bufs[|bufs|-1 := bufs[|bufs|-1] + p[n..n+size]], free - size;
        n := n + size;
      }
      assert p[..n] == p;
      ok := true;
    }

    static lemma NoSizes()
      ensures Sum([]) == 0
    {
    }

    /** What a step of writing does: all of the bytes if there are any and there is room, else it fails. */
    twostate predicate Wrote(ok: bool, new bytes: Option<seq<Byte>>)
      reads this
    {
      && (ok <==> bytes.Some? && |bytes.value| <= old(Room()))
      && (ok ==> Contents() == old(Contents()) + bytes.value && Room() == old(Room()) - |bytes.value|)
    }

    method WriteCell(code: int, bytes: seq<Byte>) returns (ok: bool)
      requires Valid()
      modifies this
      ensures Valid() && Wrote(ok, EncodeCell(code, bytes))
    {
      if code == NUMBER && |bytes| == 8 { ok := Put(Reverse(bytes)); }
      else if (code == BOOLEAN || code == INT8) && |bytes| == 1 { ok := Put(bytes); }
      else if code == INT16 && |bytes| == 2 { ok := Put(Reverse(bytes)); }
      else if code == INT32 && |bytes| == 4 { ok := Put(Reverse(bytes)); }
      else { ok := false; }
    }

    method WriteText(t: seq<Byte>) returns (ok: bool)
      requires Valid()
      modifies this
      ensures Valid() && Wrote(ok, Some(EncodeText(t)))
    {
      hide Flat;
      ghost var was := Contents();
      ok := Put(BE16(|t|));
      if !ok { return; }
      ok := Put(t);
      Regroup(was, BE16(|t|), t);
    }

    method WriteBody(e: Elt) returns (ok: bool)
      requires Valid()
      modifies this
      ensures Valid() && Wrote(ok, EncodeBody(e))
      decreases e, 0, 0
    {
      hide Flat;
      if e.slot.Cell? {
        ok := WriteCell(e.code, e.slot.bytes);
      } else if e.slot.Text? {
        if e.code != STRING || e.slot.len % 0x1_0000 > |e.slot.text| { return false; }
        ok := WriteText(WrittenText(e.slot.len, e.slot.text));
      } else if e.slot.Group? {
        ok := WriteGroup(e.code, e.slot.elts);
      } else if e.slot.Nothing? && e.code == STRING {
        ok := WriteText([]);
      } else {
        ok := e.code == NULL || e.code == ARRAY_NULL;
      }
    }

    method WriteGroup(code: int, elts: seq<Elt>) returns (ok: bool)
      requires Valid()
      modifies this
      ensures Valid() && Wrote(ok, EncodeGroup(code, elts))
      decreases elts, 3, 0
    {
      hide Flat;
      ghost var was := Contents();
      if code == ARRAY {
        ok := Put(BE32(|elts|));
        if !ok { return; }
        ok := WriteItems(elts);
        if ok { Regroup(was, BE32(|elts|), EncodeAll(elts, 0).value); }
      } else if code == OBJECT || code == MIXED_ARRAY {
        ok := Put(Index(code));
        if !ok { return; }
        ok := WriteFields(elts);
        if !ok { return; }
        ghost var fields := EncodeFields(elts, 0).value;
        ok := Put(EndMark());
        Regroup(was + Index(code), fields, EndMark());
        Regroup(was, Index(code), fields + EndMark());
      } else {
        ok := false;
      }
    }

    method WriteItems(elts: seq<Elt>) returns (ok: bool)
      requires Valid()
      modifies this
      ensures Valid() && Wrote(ok, EncodeAll(elts, 0))
      decreases elts, 1, |elts|
    {
      hide Flat;
      ghost var was, room := Contents(), Room();
      var n := 0;
      while n < |elts|
        invariant Valid() && n <= |elts| && Left(was, room, EncodeAll(elts, 0), EncodeAll(elts, n))
      {
        ghost var so := Contents();
        ok := Write(elts[n]);
        if !ok { return; }
        if EncodeAll(elts, n + 1).Some? { Regroup(so, Encode(elts[n]).value, EncodeAll(elts, n + 1).value); }
        n := n + 1;
      }
      ok := true;
    }

    /** In the middle of writing `all`, `rest` is left to write. */
    ghost predicate Left(was: seq<Byte>, room: nat, all: Option<seq<Byte>>, rest: Option<seq<Byte>>)
      reads this
    {
      && (all.None? <==> rest.None?)
      && (all.Some? ==> was + all.value == Contents() + rest.value && room - |all.value| == Room() - |rest.value|)
    }

    method WriteFields(elts: seq<Elt>) returns (ok: bool)
      requires Valid()
      modifies this
      ensures Valid() && Wrote(ok, EncodeFields(elts, 0))
      decreases elts, 1, |elts|
    {
      hide Flat;
      ghost var was, room := Contents(), Room();
      var n := 0;
      while n < |elts|
        invariant Valid() && n <= |elts| && Left(was, room, EncodeFields(elts, 0), EncodeFields(elts, n))
      {
        ghost var so := Contents();
        ok := WriteField(elts[n]);
        if !ok { return; }
        if EncodeFields(elts, n + 1).Some? { Regroup(so, EncodeField(elts[n]).value, EncodeFields(elts, n + 1).value); }
        n := n + 1;
      }
      ok := true;
    }

    method WriteField(e: Elt) returns (ok: bool)
      requires Valid()
      modifies this
      ensures Valid() && Wrote(ok, EncodeField(e))
      decreases e, 2, 0
    {
      hide Flat;
      ghost var was := Contents();
      var name := WrittenName(e.name);
      ok := Put(BE16(|name|));
      if !ok { return; }
      ok := Put(name);
      if !ok { return; }
      ok := Write(e);
      Regroup(was, BE16(|name|), name);
      if ok { Regroup(was, BE16(|name|) + name, Encode(e).value); }
    }

    method Write(e: Elt) returns (ok: bool)
      requires Valid()
      modifies this
      ensures Valid() && Wrote(ok, Encode(e))
      decreases e, 1, 0
    {
      hide Flat;
      if e.optional || e.context { return false; }
      ghost var was := Contents();
      ok := Put(TypeMark(e));
      if !ok { return; }
      ok := WriteBody(e);
      if ok { Regroup(was, TypeMark(e), EncodeBody(e).value); }
    }
  }

  /** Whatever buffers the writer gets, and however the bytes are divided when they are read. */
  method WriteAndRead(e: Elt, t: Elt, pool: seq<nat>, divide: seq<Byte> -> seq<seq<Byte>>)
    returns (written: bool, rc: Rc, t': Elt)
    requires Typed(e) && Named(e) && Ready(t)
    requires Encode(e).Some? ==> Flat(divide(Encode(e).value)) == Encode(e).value
    ensures written <==> Encode(e).Some? && |Encode(e).value| <= Sum(pool)
    ensures written ==> rc == Ok && t' == Fill(t, e)
    ensures written && Matches(t, e) ==> SameValue(t', e)
  {
    hide Amf.ReadElt;
    var writer := new Writer(pool);
    assert writer.Contents() == [];
    written := writer.Write(e);
    rc, t' := Err, t;
    if written {
      ghost var b := Encode(e).value;
      assert [] + b == b;
      var reader := new AmfReader.Reader(divide(Flat(writer.bufs)));
      var elt, stop;
      rc, elt, stop := reader.ReadElt(Some(t));
      assert Stands(b, 0, b);
      ReadsElt(b, 0, Some(t), e);
      t' := elt.value;
      if Matches(t, e) { FillHolds(t, e); }
    }
  }
}
