/** The bytes of AMF 0 as they are, and what becomes of input that ends, or goes on, in a way that nobody writes. */
module AmfWire {
  import opened Bytes
  import opened Amf
  import opened AmfRoundTrip

  function Value(code: int, slot: Slot): Elt {
    Elt(code, false, false, false, [], slot)
  }

  /** The AMF 0 encoding of numbers, booleans and nulls, byte by byte ... */
  lemma PlainBytes(n: seq<Byte>, v: Byte)
    requires |n| == 8
    ensures Encode(Value(0x00, Cell(n))) == Some([0x00, n[7], n[6], n[5], n[4], n[3], n[2], n[1], n[0]])
    ensures Encode(Value(0x01, Cell([v]))) == Some([0x01, v])
    ensures Encode(Value(0x05, Nothing)) == Some([0x05]) && Encode(Value(0x06, Nothing)) == Some([0x06])
  {
    assert EncodeBody(Value(0x00, Cell(n))) == Some(Reverse(n));
    assert EncodeBody(Value(0x01, Cell([v]))) == Some([v]);
    assert EncodeBody(Value(0x05, Nothing)) == EncodeBody(Value(0x06, Nothing)) == Some([]);
    assert [0x00] + Reverse(n) == [0x00, n[7], n[6], n[5], n[4], n[3], n[2], n[1], n[0]];
    assert [0x01] + [v] == [0x01, v] && [0x05] + [] == [0x05] && [0x06] + [] == [0x06];
  }

  /** ... of strings: as long as the element says, or up to their NUL if it says nothing; lengths have 16 bits ... */
  lemma TextBytes(t: seq<Byte>, len: nat)
    requires len % 0x1_0000 <= |t|
    ensures var k := if len % 0x1_0000 == 0 then |CString(t)| % 0x1_0000 else len % 0x1_0000;
            k <= |t| && Encode(Value(0x02, Text(len, t))) == Some([0x02, k / 0x100, k % 0x100] + t[..k])
  {
    hide CString, WrittenText;
    var text := WrittenText(len, t);
    Written(t, len);
    assert EncodeBody(Value(0x02, Text(len, t))) == Some(EncodeText(text));
    assert [0x02] + BE16(|text|) == [0x02, |text| / 0x100, |text| % 0x100];
    Regroup([0x02], BE16(|text|), text);
  }

  lemma Written(t: seq<Byte>, len: nat)
    requires len % 0x1_0000 <= |t|
    ensures var k := if len % 0x1_0000 == 0 then |CString(t)| % 0x1_0000 else len % 0x1_0000;
            k <= |t| && WrittenText(len, t) == t[..k]
  {
    hide CString;
    var s := CString(t);
    if len % 0x1_0000 == 0 {
      var k := |s| % 0x1_0000;
      assert k <= |s|;
      assert s[..k] == t[..k];
    }
  }

  lemma NoTextBytes()
    ensures Encode(Value(0x02, Nothing)) == Some([0x02, 0x00, 0x00])
  {
    assert EncodeBody(Value(0x02, Nothing)) == Some(EncodeText([]));
    assert [0x02] + EncodeText([]) == [0x02, 0x00, 0x00];
  }

  /** ... of objects, mixed arrays and arrays ... */
  lemma GroupBytes(ws: seq<Elt>)
    requires |ws| < 0x1_0000_0000
    ensures EncodeFields(ws, 0).Some? ==>
              && Encode(Value(0x03, Group(ws))) == Some([0x03] + EncodeFields(ws, 0).value + [0x00, 0x00, 0x09])
              && Encode(Value(0x08, Group(ws)))
                 == Some([0x08, 0x00, 0x00, 0x00, 0x00] + EncodeFields(ws, 0).value + [0x00, 0x00, 0x09])
    ensures var n := |ws|; EncodeAll(ws, 0).Some? ==>
              Encode(Value(0x0a, Group(ws)))
              == Some([0x0a, n / 0x100_0000, n / 0x1_0000 % 0x100, n / 0x100 % 0x100, n % 0x100]
                      + EncodeAll(ws, 0).value)
  {
    if EncodeFields(ws, 0).Some? { ObjectBytes(ws); }
    if EncodeAll(ws, 0).Some? { ArrayBytes(ws); }
  }

  lemma ObjectBytes(ws: seq<Elt>)
    requires EncodeFields(ws, 0).Some?
    ensures Encode(Value(0x03, Group(ws))) == Some([0x03] + EncodeFields(ws, 0).value + [0x00, 0x00, 0x09])
    ensures Encode(Value(0x08, Group(ws)))
            == Some([0x08, 0x00, 0x00, 0x00, 0x00] + EncodeFields(ws, 0).value + [0x00, 0x00, 0x09])
  {
    hide EncodeAll, EncodeFields;
    var o, m, fields := Value(0x03, Group(ws)), Value(0x08, Group(ws)), EncodeFields(ws, 0).value;
    var tail: seq<Byte> := fields + [0, 0, 9];
    assert EncodeBody(o) == EncodeGroup(0x03, ws) == Some([] + tail);
    assert [] + tail == tail;
    Regroup([0x03], fields, [0, 0, 9]);
    assert EncodeBody(m) == EncodeGroup(0x08, ws) == Some([0, 0, 0, 0] + tail);
    Regroup([0x08], [0, 0, 0, 0], tail);
    assert [0x08] + [0, 0, 0, 0] == [0x08, 0, 0, 0, 0];
    Regroup([0x08, 0, 0, 0, 0], fields, [0, 0, 9]);
  }

  lemma ArrayBytes(ws: seq<Elt>)
    requires |ws| < 0x1_0000_0000 && EncodeAll(ws, 0).Some?
    ensures var n := |ws|;
            Encode(Value(0x0a, Group(ws)))
            == Some([0x0a, n / 0x100_0000, n / 0x1_0000 % 0x100, n / 0x100 % 0x100, n % 0x100] + EncodeAll(ws, 0).value)
  {
    hide EncodeAll, EncodeFields, BE32;
    var a, n := Value(0x0a, Group(ws)), |ws|;
    assert EncodeBody(a) == EncodeGroup(0x0a, ws) == Some(BE32(n) + EncodeAll(ws, 0).value);
    FourBytes(n);
    Regroup([0x0a], BE32(n), EncodeAll(ws, 0).value);
    assert [0x0a] + BE32(n) == [0x0a, n / 0x100_0000, n / 0x1_0000 % 0x100, n / 0x100 % 0x100, n % 0x100];
  }

  lemma FourBytes(n: nat)
    requires n < 0x1_0000_0000
    ensures BE32(n) == [n / 0x100_0000, n / 0x1_0000 % 0x100, n / 0x100 % 0x100, n % 0x100]
  {
    var hi, lo := n / 0x1_0000, n % 0x1_0000;
    assert hi % 0x1_0000 == hi;
    LowBytes(hi, lo);
  }

  lemma LowBytes(hi: nat, lo: nat)
    requires hi < 0x1_0000 && lo < 0x1_0000
    ensures var n := hi * 0x1_0000 + lo;
            n / 0x100_0000 == hi / 0x100 && n / 0x100 % 0x100 == lo / 0x100 && n % 0x100 == lo % 0x100
  {
    var n := hi * 0x1_0000 + lo;
    assert n / 0x100 == hi * 0x100 + lo / 0x100;
    assert n / 0x100_0000 == n / 0x1_0000 / 0x100;
  }

  /** ... and of a property. */
  lemma FieldBytes(e: Elt)
    requires Encode(e).Some?
    ensures var k := |e.name| % 0x1_0000;
            k <= |e.name| && EncodeField(e) == Some([k / 0x100, k % 0x100] + e.name[..k] + Encode(e).value)
  {
    hide Encode;
    var k := |e.name| % 0x1_0000;
    assert k <= |e.name| && WrittenName(e.name) == e.name[..k];
    assert BE16(k) == [k / 0x100, k % 0x100];
  }

  /** A string is read into its buffer as far as there is room in front of a NUL, and passed over to its end. */
  lemma TextRead(b: seq<Byte>, pos: nat, room: int, was: seq<Byte>, t: seq<Byte>)
    requires |t| < 0x1_0000 && room > 0 && Stands<Byte>(b, pos, [0x02, |t| / 0x100, |t| % 0x100] + t)
    ensures pos <= |b|
    ensures ReadElt(b, pos, Some(Value(0x02, Text(room, was))))
            == One(Ok, Some(Value(0x02, Text(room, if |t| < room then t else t[..room-1]))), pos + 3 + |t|, false)
  {
    hide Stands, ReadString, FillText;
    assert BE16(|t|) == [|t| / 0x100, |t| % 0x100];
    assert [0x02, |t| / 0x100, |t| % 0x100] + t == [0x02] + EncodeText(t);
    StandsSplit<Byte>(b, pos, [0x02], EncodeText(t));
    StandsAt<Byte>(b, pos, [0x02], 0);
    ReadsText(b, pos + 1, Text(room, was), t);
    RoomFills(room, was, t);
    assert ReadValue(b, pos + 1, 0x02, Text(room, was)) == ReadString(b, pos + 1, Text(room, was));
  }

  lemma RoomFills(room: int, was: seq<Byte>, t: seq<Byte>)
    requires room > 0
    ensures FillText(Text(room, was), t) == Text(room, if |t| < room then t else t[..room-1])
  {
  }

  /** Items go to the elements in order; those behind the last element are passed over, elements behind them kept. */
  lemma {:induction false} ItemsInOrder(ts: seq<Elt>, ws: seq<Elt>, i: nat, j: nat)
    requires i <= |ws| && j < |ts|
    ensures |FillItems(ts, ws, i)| == |ts|
    ensures FillItems(ts, ws, i)[j] == if i <= j < |ws| then Fill(ts[j], ws[j]) else ts[j]
    decreases |ws| - i
  {
    hide Fill;
    if i < |ws| { ItemsInOrder(FillItem(ts, i, ws[i]), ws, i + 1, j); }
  }

  /** An integer that is written and read without its type. */
  function Raw(size: nat, bytes: seq<Byte>): Elt {
    Elt(if size == 1 then 0x0100 else if size == 2 then 0x0101 else 0x0102, false, true, false, [], Cell(bytes))
  }

  /** It is its bytes in network order, and is read back. */
  lemma RawIntegers(b: seq<Byte>, n: seq<Byte>, was: seq<Byte>)
    requires |n| == 1 || |n| == 2 || |n| == 4
    requires |b| == |n| && forall i :: 0 <= i < |n| ==> b[i] == n[|n|-1-i]
    ensures Encode(Raw(|n|, n)) == Some(b)
    ensures ReadElt(b, 0, Some(Raw(|n|, was))) == One(Ok, Some(Raw(|n|, n)), |n|, false)
  {
    hide Reverse, ReadScalar, ReadElt;
    BothWays(b, n);
    assert EncodeBody(Raw(|n|, n)) == Some(b);
    assert [] + b == b;
    WholeScalar(b, n, was);
    RawRead(b, |n|, was);
  }

  lemma RawRead(b: seq<Byte>, size: nat, was: seq<Byte>)
    requires size == 1 || size == 2 || size == 4
    ensures var v := ReadScalar(b, 0, Cell(was), size, size > 1);
            ReadElt(b, 0, Some(Raw(size, was))) == One(v.rc, Some(Raw(size, was).(slot := v.slot)), v.pos, v.stop)
  {
    hide ReadScalar;
    assert ReadPlain(b, 0, Raw(size, was).code, Cell(was)) == ReadScalar(b, 0, Cell(was), size, size > 1);
  }

  lemma BothWays(b: seq<Byte>, n: seq<Byte>)
    requires |b| == |n| && forall i :: 0 <= i < |n| ==> b[i] == n[|n|-1-i]
    ensures Reverse(n) == b && Reverse(b) == n && (|n| == 1 ==> b == n)
  {
  }

  lemma WholeScalar(b: seq<Byte>, n: seq<Byte>, was: seq<Byte>)
    requires |b| == |n| > 0 && Reverse(b) == n && (|n| == 1 ==> b == n)
    ensures ReadScalar(b, 0, Cell(was), |n|, |n| > 1) == Val(Ok, Cell(n), |n|, false)
  {
    hide Reverse;
    assert b[0..|n|] == b;
  }

  /** A plain value cut short is not taken. */
  lemma CutShort(b: seq<Byte>, t: Option<Elt>, w: Elt)
    requires Typed(w) && !w.slot.Group? && Encode(w).Some? && b < Encode(w).value && b != []
    requires t.Some? ==> Ready(t.value) && !t.value.typeless
    ensures ReadElt(b, 0, t).rc == Err
  {
    var body := EncodeBody(w).value;
    assert Encode(w).value == [w.code] + body && b[0] == w.code;
    if w.slot.Text? || w.code == STRING {
      var text := if w.slot.Text? then WrittenText(w.slot.len, w.slot.text) else [];
      assert body == BE16(|text|) + text;
      if |b| >= 3 {
        assert b[1] == Encode(w).value[1] == body[0] && b[2] == Encode(w).value[2] == body[1];
        assert U16(b, 1) == |text|;
      }
    }
  }

  // ---------------------------------------------------------------- other ends

  lemma {:induction false} FieldsThen(b: seq<Byte>, pos: nat, ts: seq<Elt>, ws: seq<Elt>, i: nat)
    requires i <= |ws| && AllTyped(ws) && AllNamed(true, ws) && AllReady(ts) && EncodeFields(ws, i).Some?
    requires Stands(b, pos, EncodeFields(ws, i).value)
    ensures var end := pos + |EncodeFields(ws, i).value|;
            end <= |b| && ReadObject(b, pos, ts) == ReadObject(b, end, FillFields(ts, ws, i))
    decreases |ws| - i
  {
    hide ReadObject, Stands, Typed, Named;
    NothingBehind(b, pos, EncodeFields(ws, i).value);
    if i < |ws| {
      FieldStands(b, pos, ws, i, []);
      NothingBehind(b, pos + FieldSize(ws[i]), EncodeFields(ws, i + 1).value);
      ReadsField(b, pos, ts, ws[i]);
      FieldsThen(b, pos + FieldSize(ws[i]), FillField(ts, ws[i]), ws, i + 1);
    }
  }

  lemma NothingBehind(b: seq<Byte>, pos: nat, s: seq<Byte>)
    requires Stands(b, pos, s) || Stands(b, pos, s + [])
    ensures pos + |s| <= |b| && Stands(b, pos, s) && Stands(b, pos, s + []) && s + [] == s
  {
    assert s + [] == s;
  }

  /** Properties with no end behind them are taken; with any end but the end mark's they are not. */
  lemma OtherEnds(b: seq<Byte>, pos: nat, ts: seq<Elt>, ws: seq<Elt>)
    requires AllTyped(ws) && AllNamed(true, ws) && AllReady(ts) && EncodeFields(ws, 0).Some?
    requires Stands(b, pos, EncodeFields(ws, 0).value)
    ensures var end := pos + |EncodeFields(ws, 0).value|;
            && end <= |b|
            && (|b| <= end + 1 ==> ReadObject(b, pos, ts) == Many(Ok, FillFields(ts, ws, 0), end))
            && (|b| >= end + 2 && b[end] == b[end+1] == 0x00 && (|b| == end + 2 || b[end+2] != 0x09) ==>
                  ReadObject(b, pos, ts).rc == Err)
  {
    hide EncodeFields, FillFields, AllReady, ReadObject, Stands, Typed, Named;
    FieldsThen(b, pos, ts, ws, 0);
    NoField(b, pos + |EncodeFields(ws, 0).value|, FillFields(ts, ws, 0));
  }

  /** One turn of the loop over properties, with no property there. */
  lemma NoField(b: seq<Byte>, pos: nat, ts: seq<Elt>)
    requires pos <= |b|
    ensures |b| <= pos + 1 ==> ReadObject(b, pos, ts) == Many(Ok, ts, pos)
    ensures |b| >= pos + 2 && b[pos] == b[pos+1] == 0x00 && (|b| == pos + 2 || b[pos+2] != 0x09) ==>
              ReadObject(b, pos, ts).rc == Err
  {
    hide ReadElt, Find;
    if |b| >= pos + 2 && b[pos] == b[pos+1] == 0x00 { assert U16(b, pos) == 0; }
  }

  /** So an object that breaks off behind a property is taken as if it ended there. */
  lemma BrokenOff(b: seq<Byte>, t: Option<Elt>, w: Elt, ws: seq<Elt>)
    requires (w == Value(0x03, Group(ws)) || w == Value(0x08, Group(ws))) && Typed(w) && Named(w) && Encode(w).Some?
    requires t.Some? ==> Ready(t.value) && !t.value.typeless
    requires var all := Encode(w).value; |all| >= 3 && (b == all[..|all|-3] || b == all[..|all|-2])
    ensures |Encode(w).value| > |b| > 0 && ReadElt(b, 0, t).rc == Ok && ReadElt(b, 0, t).elt == Filled(t, w)
  {
    hide ReadElt, ReadObject, EncodeFields, FillFields, Filled, Encode, Ready, AllReady, Compatible, Nested, Typed,
      Named;
    FieldsEncode(w, ws);
    ObjectBytes(ws);
    var all, fields := Encode(w).value, EncodeFields(ws, 0).value;
    var open: seq<Byte> := if w.code == 0x03 then [0x03] else [0x08, 0, 0, 0, 0];
    var slot := if t.Some? && Compatible(t.value.code % 0x100, w.code) then t.value.slot else Nothing;
    FieldsBehind(all, b, open, fields);
    NestedReady(t, w, ws, slot);
    ReadsElt(all, 0, t, w);
    BrokenOffElt(all, t, w.code, slot);
    ReadsFields(all, |open|, Nested(slot), ws, 0);
    BrokenOffElt(b, t, w.code, slot);
    OtherEnds(b, |open|, Nested(slot), ws);
  }

  lemma NestedReady(t: Option<Elt>, w: Elt, ws: seq<Elt>, slot: Slot)
    requires (w == Value(0x03, Group(ws)) || w == Value(0x08, Group(ws))) && Typed(w) && Named(w)
    requires t.Some? ==> Ready(t.value)
    requires slot == Nothing || (t.Some? && slot == t.value.slot)
    ensures AllTyped(ws) && AllNamed(true, ws) && AllReady(Nested(slot)) && (t.Some? ==> !t.value.context)
  {
  }

  lemma FieldsEncode(w: Elt, ws: seq<Elt>)
    requires w == Value(0x03, Group(ws)) || w == Value(0x08, Group(ws))
    ensures Encode(w).Some? <==> EncodeFields(ws, 0).Some?
  {
    hide EncodeFields;
    assert EncodeBody(w) == EncodeGroup(w.code, ws);
  }

  lemma FieldsBehind(all: seq<Byte>, b: seq<Byte>, open: seq<Byte>, fields: seq<Byte>)
    requires all == open + fields + [0, 0, 9] && open != []
    requires b == all[..|all|-3] || b == all[..|all|-2]
    ensures Stands(all, 0, all) && Stands(all, |open|, fields + EndMark()) && all[0] == open[0]
    ensures b != [] && b[0] == open[0] && |open| <= |b| <= |open| + |fields| + 1 && Stands(b, |open|, fields)
  {
    assert all == open + (fields + EndMark());
  }

  /** An object's or mixed array's type leads to its properties. */
  lemma BrokenOffElt(b: seq<Byte>, t: Option<Elt>, code: int, slot: Slot)
    requires b != [] && b[0] == code && (code == 0x03 || (code == 0x08 && |b| >= 5))
    requires t.Some? ==> !t.value.typeless && !t.value.context
    requires slot == if t.Some? && Compatible(t.value.code % 0x100, code) then t.value.slot else Nothing
    ensures var r, m := ReadElt(b, 0, t), ReadObject(b, if code == 0x03 then 1 else 5, Nested(slot));
            && r.rc == m.rc
            && r.elt == if t.Some? && Compatible(t.value.code % 0x100, code)
                        then Some(t.value.(slot := Regrouped(slot, m.elts))) else t
  {
    hide ReadObject, ReadArray, Compatible;
    var m := ReadObject(b, if code == 0x03 then 1 else 5, Nested(slot));
    assert ReadGroup(b, 1, code, slot) == Val(m.rc, Regrouped(slot, m.elts), m.pos, false);
    assert ReadValue(b, 1, code, slot) == ReadGroup(b, 1, code, slot);
    if t.Some? && slot == Nothing && Compatible(t.value.code % 0x100, code) {
      assert t.value.(slot := Nothing) == t.value;
    }
  }

  /** A type that AMF 0 does not have, or that is not read, is refused. */
  lemma OtherTypes(b: seq<Byte>, pos: nat, t: Option<Elt>)
    requires pos < |b| && b[pos] !in {0x00, 0x01, 0x02, 0x03, 0x05, 0x06, 0x08, 0x09, 0x0a}
    requires t.Some? ==> !t.value.typeless
    ensures ReadElt(b, pos, t).rc == Err
  {
  }

  /** The end type ends a list, whatever is still asked for. */
  lemma EndTypeEnds(b: seq<Byte>, pos: nat, ts: seq<Elt>, i: nat)
    requires pos < |b| && b[pos] == 0x09 && i < |ts| && !ts[i].typeless && !ts[i].context
    ensures ReadElts(b, pos, ts, i) == Many(Ok, ts, pos + 1)
  {
    assert ReadElt(b, pos, Some(ts[i])) == One(Ok, Some(ts[i]), pos + 1, true);
    assert ts[i := ts[i]] == ts;
  }
}
