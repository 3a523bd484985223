/** What reading makes of written values: the round trip, skipping, and independence from unknown properties. */
module AmfRoundTrip {
  import opened Bytes
  import opened Amf

  // ---------------------------------------------------------------- what is sent, what is asked

  /**
   Written in AMF 0 proper: every value carries its type, which fits the one byte there is for it, and lists have
   a 32-bit length.
   */
  predicate Typed(e: Elt)
    decreases e
  {
    !e.typeless && 0 <= e.code < 0x100 && (e.slot.Group? ==> AllTyped(e.slot.elts))
  }

  predicate AllTyped(elts: seq<Elt>)
    decreases elts
  {
    |elts| < 0x1_0000_0000 && forall i :: 0 <= i < |elts| ==> Typed(elts[i])
  }

  /** Every property of every object has a name whose length is not 0 in 16 bits. */
  predicate Named(e: Elt)
    decreases e, 0
  {
    e.slot.Group? ==> AllNamed(e.code == OBJECT || e.code == MIXED_ARRAY, e.slot.elts)
  }

  predicate AllNamed(named: bool, elts: seq<Elt>)
    decreases elts, 1
  {
    forall i :: 0 <= i < |elts| ==> (named ==> WrittenName(elts[i].name) != []) && Named(elts[i])
  }

  /** A place to read into: string buffers have room for their NUL, nested places are ready. */
  predicate ReadySlot(slot: Slot)
    decreases slot, 1
  {
    (slot.Text? ==> slot.len > 0) && (slot.Group? ==> AllReady(slot.elts))
  }

  predicate AllReady(elts: seq<Elt>)
    decreases elts, 2
  {
    forall i :: 0 <= i < |elts| ==> Ready(elts[i])
  }

  /** An element that reads typed values: itself typed, or a variant; it does not ask for the context. */
  predicate Ready(t: Elt)
    decreases t, 2
  {
    !t.context && ReadySlot(t.slot) && (t.typeless ==> t.code == VARIANT && !t.optional)
  }

  // ---------------------------------------------------------------- what reading makes of them

  /** The element `t` after the written element `w` is read into it. */
  function Fill(t: Elt, w: Elt): (r: Elt)
    ensures r == t.(slot := r.slot)
    ensures Ready(t) ==> Ready(r)
    decreases w, 3, 0
  {
    if t.typeless then t.(slot := FillVariant(t.slot, w))
    else if Compatible(t.code % 0x100, w.code) then t.(slot := FillSlot(t.slot, w))
    else t
  }

  /** A variant stores the value in its last alternative of that very type. */
  function FillVariant(slot: Slot, w: Elt): (r: Slot)
    ensures ReadySlot(slot) ==> ReadySlot(r)
    decreases w, 2, 0
  {
    var alts := Nested(slot);
    var k := Alternative(alts, w.code, |alts|);
    if k < |alts| then
      var alt := alts[k].(slot := FillSlot(alts[k].slot, w));
      assert ReadySlot(slot) ==> AllReady(alts) && Ready(alts[k]) && ReadySlot(alts[k].slot) && Ready(alt);
      assert ReadySlot(slot) ==> AllReady(alts[k := alt]);
      Regrouped(slot, alts[k := alt])
    else slot
  }

  /** What is stored behind a data pointer. A string too long for its buffer is cut. */
  function FillSlot(slot: Slot, w: Elt): (r: Slot)
    ensures ReadySlot(slot) ==> ReadySlot(r)
    ensures slot.Nothing? ==> r == slot
    decreases w, 1, 0
  {
    if slot.Nothing? then slot
    else
      match w.slot
      case Cell(bytes) => w.slot
      case Text(len, text) => FillText(slot, WrittenText(len, text))
      case Group(elts) => Regrouped(slot, FillGroup(Nested(slot), w.code, elts))
      case Nothing => if w.code == STRING then FillText(slot, []) else slot
      case Saved(_) => slot
  }

  function FillText(slot: Slot, t: seq<Byte>): Slot {
    if !slot.Text? || slot.len <= 0 then slot
    else Text(slot.len, if slot.len <= |t| then t[..slot.len-1] else t)
  }

  function FillGroup(ts: seq<Elt>, code: int, ws: seq<Elt>): (r: seq<Elt>)
    ensures |r| == |ts|
    ensures AllReady(ts) ==> AllReady(r)
    decreases ws, 4, 0
  {
    if code == ARRAY then FillItems(ts, ws, 0) else FillFields(ts, ws, 0)
  }

  /** A property goes to the first element of its name, if there is one. */
  function FillField(ts: seq<Elt>, w: Elt): (r: seq<Elt>)
    ensures |r| == |ts|
    ensures AllReady(ts) ==> AllReady(r)
    decreases w, 4, 0
  {
    var n := Find(ts, WrittenName(w.name));
    if n < |ts| then ts[n := Fill(ts[n], w)] else ts
  }

  function FillFields(ts: seq<Elt>, ws: seq<Elt>, i: nat): (r: seq<Elt>)
    requires i <= |ws|
    ensures |r| == |ts|
    ensures AllReady(ts) ==> AllReady(r)
    decreases ws, 0, |ws| - i
  {
    if i == |ws| then ts else FillFields(FillField(ts, ws[i]), ws, i + 1)
  }

  /** An item goes to the element in its place, if there is one. */
  function FillItem(ts: seq<Elt>, i: nat, w: Elt): (r: seq<Elt>)
    ensures |r| == |ts|
    ensures AllReady(ts) ==> AllReady(r)
    decreases w, 4, 0
  {
    if i < |ts| then ts[i := Fill(ts[i], w)] else ts
  }

  function FillItems(ts: seq<Elt>, ws: seq<Elt>, i: nat): (r: seq<Elt>)
    requires i <= |ws|
    ensures |r| == |ts|
    ensures AllReady(ts) ==> AllReady(r)
    decreases ws, 0, |ws| - i
  {
    if i == |ws| then ts else FillItems(FillItem(ts, i, ws[i]), ws, i + 1)
  }

  function Filled(t: Option<Elt>, w: Elt): Option<Elt> {
    if t.None? then None else Some(Fill(t.value, w))
  }

  // ---------------------------------------------------------------- reading what was written

  lemma BE16Stands(b: seq<Byte>, pos: nat, n: nat)
    requires n < 0x1_0000 && Stands(b, pos, BE16(n))
    ensures U16(b, pos) == n
  {
    StandsAt(b, pos, BE16(n), 0);
    StandsAt(b, pos, BE16(n), 1);
  }

  lemma BE32Stands(b: seq<Byte>, pos: nat, n: nat)
    requires n < 0x1_0000_0000 && Stands(b, pos, BE32(n))
    ensures U32(b, pos) == n
  {
    var hi, lo := n / 0x1_0000, n % 0x1_0000;
    assert hi % 0x1_0000 == hi && n == hi * 0x1_0000 + lo;
    StandsSplit(b, pos, BE16(hi), BE16(lo));
    BE16Stands(b, pos, hi);
    BE16Stands(b, pos + 2, lo);
  }

  lemma ReverseTwice(s: seq<Byte>)
    ensures Reverse(Reverse(s)) == s
  {
  }

  lemma ReadsCell(b: seq<Byte>, pos: nat, slot: Slot, code: int, bytes: seq<Byte>)
    requires EncodeCell(code, bytes).Some? && Stands(b, pos, EncodeCell(code, bytes).value)
    ensures pos <= |b|
    ensures ReadPlain(b, pos, code, slot)
            == Val(Ok, if slot.Nothing? then slot else Cell(bytes), pos + |EncodeCell(code, bytes).value|, false)
  {
    StandsSlice(b, pos, EncodeCell(code, bytes).value);
    ReverseTwice(bytes);
  }

  lemma ReadsText(b: seq<Byte>, pos: nat, slot: Slot, t: seq<Byte>)
    requires |t| < 0x1_0000 && Stands(b, pos, EncodeText(t)) && (slot.Text? ==> slot.len > 0)
    ensures pos <= |b|
    ensures ReadString(b, pos, slot) == Val(Ok, FillText(slot, t), pos + |EncodeText(t)|, false)
  {
    StandsSplit(b, pos, BE16(|t|), t);
    BE16Stands(b, pos, |t|);
    StandsSlice(b, pos + 2, t);
  }

  lemma {:induction false} ReadsValue(b: seq<Byte>, pos: nat, slot: Slot, w: Elt)
    requires (w.slot.Group? ==> AllTyped(w.slot.elts)) && Named(w) && EncodeBody(w).Some?
    requires Stands(b, pos, EncodeBody(w).value) && ReadySlot(slot)
    ensures pos <= |b|
    ensures ReadValue(b, pos, w.code, slot) == Val(Ok, FillSlot(slot, w), pos + |EncodeBody(w).value|, false)
    decreases w, 0, 0
  {
    if w.slot.Cell? {
      ReadsCell(b, pos, slot, w.code, w.slot.bytes);
    } else if w.slot.Text? {
      ReadsText(b, pos, slot, WrittenText(w.slot.len, w.slot.text));
    } else if w.slot.Group? {
      ReadsGroup(b, pos, slot, w.code, w.slot.elts);
    } else if w.slot.Nothing? && w.code == STRING {
      ReadsText(b, pos, slot, []);
    }
  }

  lemma {:induction false} ReadsGroup(b: seq<Byte>, pos: nat, slot: Slot, code: int, ws: seq<Elt>)
    requires AllTyped(ws) && AllNamed(code == OBJECT || code == MIXED_ARRAY, ws) && ReadySlot(slot)
    requires EncodeGroup(code, ws).Some? && Stands(b, pos, EncodeGroup(code, ws).value)
    ensures pos <= |b|
    ensures ReadGroup(b, pos, code, slot)
            == Val(Ok, Regrouped(slot, FillGroup(Nested(slot), code, ws)), pos + |EncodeGroup(code, ws).value|, false)
    decreases ws, 3, 0
  {
    hide ReadObject, ReadArray;
    if code == ARRAY {
      StandsSplit(b, pos, BE32(|ws|), EncodeAll(ws, 0).value);
      BE32Stands(b, pos, |ws|);
      ReadsItems(b, pos + 4, Nested(slot), ws, 0);
    } else {
      StandsSplit(b, pos, Index(code), EncodeFields(ws, 0).value + EndMark());
      ReadsFields(b, pos + |Index(code)|, Nested(slot), ws, 0);
    }
  }

  lemma {:induction false} ReadsVariant(b: seq<Byte>, pos: nat, slot: Slot, w: Elt)
    requires Typed(w) && Named(w) && EncodeBody(w).Some? && pos < |b| && b[pos] == w.code
    requires Stands(b, pos + 1, EncodeBody(w).value) && ReadySlot(slot)
    ensures ReadVariant(b, pos, slot) == Val(Ok, FillVariant(slot, w), pos + 1 + |EncodeBody(w).value|, false)
    decreases w, 1, 0
  {
    var alts := Nested(slot);
    var k := Alternative(alts, w.code, |alts|);
    if k < |alts| {
      assert AllReady(alts) && Ready(alts[k]);
      ReadsValue(b, pos + 1, alts[k].slot, w);
    } else {
      ReadsValue(b, pos + 1, Nothing, w);
    }
  }

  /** A typed value is read into its element, or skipped when there is none, and reading ends right behind it. */
  lemma {:induction false} ReadsElt(b: seq<Byte>, pos: nat, t: Option<Elt>, w: Elt)
    requires Typed(w) && Named(w) && Encode(w).Some? && Stands(b, pos, Encode(w).value)
    requires t.Some? ==> Ready(t.value)
    ensures pos <= |b|
    ensures ReadElt(b, pos, t) == One(Ok, Filled(t, w), pos + |Encode(w).value|, false)
    decreases w, 2, 0
  {
    hide ReadVariant, EncodeBody, FillVariant, FillSlot;
    StandsSplit(b, pos, TypeMark(w), EncodeBody(w).value);
    StandsAt(b, pos, TypeMark(w), 0);
    if t.Some? && t.value.typeless {
      ReadsVariant(b, pos, t.value.slot, w);
    } else if t.Some? && Compatible(t.value.code % 0x100, w.code) {
      ReadsValue(b, pos + 1, t.value.slot, w);
    } else {
      ReadsValue(b, pos + 1, Nothing, w);
    }
  }

  /** A property stands at a position: its name counted, then its value. */
  ghost predicate FieldAt(b: seq<Byte>, pos: nat, w: Elt)
    requires EncodeField(w).Some?
  {
    var name := WrittenName(w.name);
    var at := pos + 2 + |name|;
    at <= |b| && U16(b, pos) == |name| && b[pos+2..at] == name && Stands(b, at, Encode(w).value)
  }

  function FieldSize(w: Elt): nat
    requires EncodeField(w).Some?
  {
    |EncodeField(w).value|
  }

  lemma FieldStands(b: seq<Byte>, pos: nat, ws: seq<Elt>, i: nat, tail: seq<Byte>)
    requires i < |ws| && EncodeFields(ws, i).Some? && Stands(b, pos, EncodeFields(ws, i).value + tail)
    ensures FieldAt(b, pos, ws[i]) && Stands(b, pos + FieldSize(ws[i]), EncodeFields(ws, i + 1).value + tail)
    ensures |EncodeFields(ws, i).value| == FieldSize(ws[i]) + |EncodeFields(ws, i + 1).value|
  {
    var name, value := WrittenName(ws[i].name), Encode(ws[i]).value;
    var rest := EncodeFields(ws, i + 1).value;
    assert EncodeField(ws[i]).value == BE16(|name|) + name + value;
    assert EncodeFields(ws, i).value + tail == BE16(|name|) + (name + (value + (rest + tail)));
    StandsSplit(b, pos, BE16(|name|), name + (value + (rest + tail)));
    StandsSplit(b, pos + 2, name, value + (rest + tail));
    StandsSplit(b, pos + 2 + |name|, value, rest + tail);
    BE16Stands(b, pos, |name|);
    StandsSlice(b, pos + 2, name);
  }

  /** One turn of the loop over properties. */
  lemma ObjectStep(b: seq<Byte>, pos: nat, ts: seq<Elt>, name: seq<Byte>)
    requires name != [] && pos + 2 + |name| <= |b| && U16(b, pos) == |name| && b[pos+2..pos+2+|name|] == name
    ensures var n := Find(ts, name);
            var one := ReadElt(b, pos + 2 + |name|, if n < |ts| then Some(ts[n]) else None);
            && (one.rc != Ok ==> ReadObject(b, pos, ts).rc == one.rc)
            && (one.rc == Ok ==>
                  ReadObject(b, pos, ts)
                  == ReadObject(b, one.pos, if n < |ts| && one.elt.Some? then ts[n := one.elt.value] else ts))
  {
  }

  lemma ObjectEnd(b: seq<Byte>, pos: nat, ts: seq<Elt>)
    requires Stands(b, pos, EndMark())
    ensures pos <= |b| && ReadObject(b, pos, ts) == Many(Ok, ts, pos + 3)
  {
    StandsAt(b, pos, EndMark(), 0);
    StandsAt(b, pos, EndMark(), 1);
    StandsAt(b, pos, EndMark(), 2);
  }

  lemma {:induction false} ReadsField(b: seq<Byte>, pos: nat, ts: seq<Elt>, w: Elt)
    requires Typed(w) && Named(w) && WrittenName(w.name) != [] && Encode(w).Some? && AllReady(ts) && FieldAt(b, pos, w)
    ensures pos + FieldSize(w) <= |b| && ReadObject(b, pos, ts) == ReadObject(b, pos + FieldSize(w), FillField(ts, w))
    decreases w, 3, 0
  {
    hide ReadObject, ReadElt;
    var name := WrittenName(w.name);
    var n := Find(ts, name);
    var t := if n < |ts| then Some(ts[n]) else None;
    ReadsElt(b, pos + 2 + |name|, t, w);
    ObjectStep(b, pos, ts, name);
  }

  lemma {:induction false} ReadsFields(b: seq<Byte>, pos: nat, ts: seq<Elt>, ws: seq<Elt>, i: nat)
    requires i <= |ws| && AllTyped(ws) && AllNamed(true, ws) && AllReady(ts) && EncodeFields(ws, i).Some?
    requires Stands(b, pos, EncodeFields(ws, i).value + EndMark())
    ensures pos <= |b|
    ensures ReadObject(b, pos, ts) == Many(Ok, FillFields(ts, ws, i), pos + |EncodeFields(ws, i).value| + 3)
    decreases ws, 2, |ws| - i
  {
    hide ReadObject;
    if i == |ws| {
      StandsSplit(b, pos, [], EndMark());
      ObjectEnd(b, pos, ts);
    } else {
      FieldStands(b, pos, ws, i, EndMark());
      ReadsField(b, pos, ts, ws[i]);
      ReadsFields(b, pos + FieldSize(ws[i]), FillField(ts, ws[i]), ws, i + 1);
    }
  }

  /** One turn of the loop over items. */
  lemma ArrayStep(b: seq<Byte>, pos: nat, ts: seq<Elt>, i: nat, n: nat)
    requires pos <= |b| && n > 0
    ensures var one := ReadElt(b, pos, if i < |ts| then Some(ts[i]) else None);
            && (one.rc != Ok ==> ReadArray(b, pos, ts, i, n).rc == one.rc)
            && (one.rc == Ok ==>
                  ReadArray(b, pos, ts, i, n)
                  == ReadArray(b, one.pos, if i < |ts| && one.elt.Some? then ts[i := one.elt.value]
                      else ts, i + 1, n - 1))
  {
  }

  lemma {:induction false} ReadsItem(b: seq<Byte>, pos: nat, ts: seq<Elt>, i: nat, n: nat, w: Elt)
    requires Typed(w) && Named(w) && Encode(w).Some? && AllReady(ts) && n > 0 && Stands(b, pos, Encode(w).value)
    ensures var end := pos + |Encode(w).value|;
            end <= |b| && ReadArray(b, pos, ts, i, n) == ReadArray(b, end, FillItem(ts, i, w), i + 1, n - 1)
    decreases w, 3, 0
  {
    hide ReadArray, ReadElt;
    var t := if i < |ts| then Some(ts[i]) else None;
    ReadsElt(b, pos, t, w);
    ArrayStep(b, pos, ts, i, n);
  }

  lemma {:induction false} ReadsItems(b: seq<Byte>, pos: nat, ts: seq<Elt>, ws: seq<Elt>, i: nat)
    requires i <= |ws| && AllTyped(ws) && AllNamed(false, ws) && AllReady(ts) && EncodeAll(ws, i).Some?
    requires Stands(b, pos, EncodeAll(ws, i).value)
    ensures pos <= |b|
    ensures ReadArray(b, pos, ts, i, |ws| - i) == Many(Ok, FillItems(ts, ws, i), pos + |EncodeAll(ws, i).value|)
    decreases ws, 2, |ws| - i
  {
    hide Encode;
    if i < |ws| {
      var value := Encode(ws[i]).value;
      StandsSplit(b, pos, value, EncodeAll(ws, i + 1).value);
      ReadsItem(b, pos, ts, i, |ws| - i, ws[i]);
      ReadsItems(b, pos + |value|, FillItem(ts, i, ws[i]), ws, i + 1);
    }
  }

  // ---------------------------------------------------------------- a nameless property

  lemma TypeComesFirst(w: Elt)
    requires Typed(w) && Encode(w).Some?
    ensures Encode(w).value != [] && Encode(w).value[0] == w.code
    ensures w.code != END
  {
    assert EncodeBody(w).Some?;
    if w.slot.Group? {
      assert EncodeGroup(w.code, w.slot.elts).Some?;
    }
  }

  /** A property whose name counts 0 ends the object too early, and its type is not the end mark: reading fails. */
  lemma NamelessFails(b: seq<Byte>, pos: nat, ts: seq<Elt>, w: Elt)
    requires Typed(w) && WrittenName(w.name) == [] && Encode(w).Some? && FieldAt(b, pos, w)
    ensures pos <= |b| && ReadObject(b, pos, ts).rc == Err
  {
    TypeComesFirst(w);
    StandsAt(b, pos + 2, Encode(w).value, 0);
  }

  /** A property whose value cannot be read. */
  lemma {:induction false} FieldFails(b: seq<Byte>, pos: nat, ts: seq<Elt>, w: Elt)
    requires Typed(w) && !Named(w) && WrittenName(w.name) != [] && Encode(w).Some? && AllReady(ts) && FieldAt(b, pos, w)
    ensures pos <= |b| && ReadObject(b, pos, ts).rc == Err
    decreases w, 3, 0
  {
    var name := WrittenName(w.name);
    var n := Find(ts, name);
    var t := if n < |ts| then Some(ts[n]) else None;
    EltFails(b, pos + 2 + |name|, t, w);
    ObjectStep(b, pos, ts, name);
  }

  lemma {:induction false} FieldsFail(b: seq<Byte>, pos: nat, ts: seq<Elt>, ws: seq<Elt>, i: nat, j: nat)
    requires i <= j < |ws| && AllTyped(ws) && AllReady(ts) && EncodeFields(ws, i).Some?
    requires WrittenName(ws[j].name) == [] || !Named(ws[j])
    requires Stands(b, pos, EncodeFields(ws, i).value + EndMark())
    ensures pos <= |b| && ReadObject(b, pos, ts).rc == Err
    decreases ws, 2, |ws| - i
  {
    hide ReadObject;
    FieldStands(b, pos, ws, i, EndMark());
    if WrittenName(ws[i].name) == [] {
      NamelessFails(b, pos, ts, ws[i]);
    } else if Named(ws[i]) {
      ReadsField(b, pos, ts, ws[i]);
      FieldsFail(b, pos + FieldSize(ws[i]), FillField(ts, ws[i]), ws, i + 1, j);
    } else {
      FieldFails(b, pos, ts, ws[i]);
    }
  }

  lemma {:induction false} ItemsFail(b: seq<Byte>, pos: nat, ts: seq<Elt>, ws: seq<Elt>, i: nat, j: nat)
    requires i <= j < |ws| && AllTyped(ws) && AllReady(ts) && EncodeAll(ws, i).Some? && !Named(ws[j])
    requires Stands(b, pos, EncodeAll(ws, i).value)
    ensures pos <= |b| && ReadArray(b, pos, ts, i, |ws| - i).rc == Err
    decreases ws, 2, |ws| - i
  {
    var value := Encode(ws[i]).value;
    StandsSplit(b, pos, value, EncodeAll(ws, i + 1).value);
    if Named(ws[i]) {
      ReadsItem(b, pos, ts, i, |ws| - i, ws[i]);
      ItemsFail(b, pos + |value|, FillItem(ts, i, ws[i]), ws, i + 1, j);
    } else {
      var t := if i < |ts| then Some(ts[i]) else None;
      EltFails(b, pos, t, ws[i]);
      ArrayStep(b, pos, ts, i, |ws| - i);
    }
  }

  lemma {:induction false} GroupFails(b: seq<Byte>, pos: nat, slot: Slot, code: int, ws: seq<Elt>)
    requires AllTyped(ws) && !AllNamed(code == OBJECT || code == MIXED_ARRAY, ws) && ReadySlot(slot)
    requires EncodeGroup(code, ws).Some? && Stands(b, pos, EncodeGroup(code, ws).value)
    ensures pos <= |b| && ReadGroup(b, pos, code, slot).rc == Err
    decreases ws, 3, 0
  {
    hide ReadObject, ReadArray, Stands, EncodeAll, EncodeFields, Named, Typed, U16;
    if code == ARRAY {
      StandsSplit(b, pos, BE32(|ws|), EncodeAll(ws, 0).value);
      BE32Stands(b, pos, |ws|);
      var j := Nameless(false, ws);
      ItemsFail(b, pos + 4, Nested(slot), ws, 0, j);
    } else {
      ObjectFails(b, pos, slot, code, ws);
    }
  }

  lemma {:induction false} ObjectFails(b: seq<Byte>, pos: nat, slot: Slot, code: int, ws: seq<Elt>)
    requires code == OBJECT || code == MIXED_ARRAY
    requires AllTyped(ws) && !AllNamed(true, ws) && ReadySlot(slot) && EncodeFields(ws, 0).Some?
    requires Stands(b, pos, Index(code) + (EncodeFields(ws, 0).value + EndMark()))
    ensures pos <= |b| && ReadGroup(b, pos, code, slot).rc == Err
    decreases ws, 2, |ws| + 1
  {
    hide ReadObject, ReadArray, Stands, EncodeAll, EncodeFields, Named, Typed, U16;
    StandsSplit(b, pos, Index(code), EncodeFields(ws, 0).value + EndMark());
    var j := Nameless(true, ws);
    FieldsFail(b, pos + |Index(code)|, Nested(slot), ws, 0, j);
  }

  lemma Nameless(named: bool, ws: seq<Elt>) returns (j: nat)
    requires !AllNamed(named, ws)
    ensures j < |ws| && ((named && WrittenName(ws[j].name) == []) || !Named(ws[j]))
  {
    j :| j < |ws| && !((named ==> WrittenName(ws[j].name) != []) && Named(ws[j]));
  }

  lemma {:induction false} ValueFails(b: seq<Byte>, pos: nat, slot: Slot, w: Elt)
    requires Typed(w) && !Named(w) && EncodeBody(w).Some? && Stands(b, pos, EncodeBody(w).value) && ReadySlot(slot)
    ensures pos <= |b| && ReadValue(b, pos, w.code, slot).rc == Err
    decreases w, 0, 0
  {
    GroupFails(b, pos, slot, w.code, w.slot.elts);
  }

  lemma {:induction false} VariantFails(b: seq<Byte>, pos: nat, slot: Slot, w: Elt)
    requires Typed(w) && !Named(w) && EncodeBody(w).Some? && pos < |b| && b[pos] == w.code
    requires Stands(b, pos + 1, EncodeBody(w).value) && ReadySlot(slot)
    ensures ReadVariant(b, pos, slot).rc == Err
    decreases w, 1, 0
  {
    var alts := Nested(slot);
    var k := Alternative(alts, w.code, |alts|);
    if k < |alts| {
      assert AllReady(alts) && Ready(alts[k]);
      ValueFails(b, pos + 1, alts[k].slot, w);
    } else {
      ValueFails(b, pos + 1, Nothing, w);
    }
  }

  lemma {:induction false} EltFails(b: seq<Byte>, pos: nat, t: Option<Elt>, w: Elt)
    requires Typed(w) && !Named(w) && Encode(w).Some? && Stands(b, pos, Encode(w).value)
    requires t.Some? ==> Ready(t.value)
    ensures pos <= |b| && ReadElt(b, pos, t).rc == Err
    decreases w, 2, 0
  {
    hide ReadVariant, EncodeBody;
    StandsSplit(b, pos, TypeMark(w), EncodeBody(w).value);
    StandsAt(b, pos, TypeMark(w), 0);
    if t.Some? && t.value.typeless {
      VariantFails(b, pos, t.value.slot, w);
    } else if t.Some? && Compatible(t.value.code % 0x100, w.code) {
      ValueFails(b, pos + 1, t.value.slot, w);
    } else {
      ValueFails(b, pos + 1, Nothing, w);
    }
  }

  /** Any typed value, read into any ready place or skipped: reading succeeds exactly when no property is nameless. */
  lemma ReadsExactlyNamed(b: seq<Byte>, pos: nat, t: Option<Elt>, w: Elt)
    requires Typed(w) && Encode(w).Some? && Stands(b, pos, Encode(w).value)
    requires t.Some? ==> Ready(t.value)
    ensures pos <= |b|
    ensures ReadElt(b, pos, t).rc == Ok <==> Named(w)
    ensures Named(w) ==> ReadElt(b, pos, t) == One(Ok, Filled(t, w), pos + |Encode(w).value|, false)
  {
    if Named(w) {
      ReadsElt(b, pos, t, w);
    } else {
      EltFails(b, pos, t, w);
    }
  }

  // ---------------------------------------------------------------- the value comes back

  /** The element holds the value that was written. */
  predicate SameValue(t: Elt, w: Elt)
    decreases w
  {
    match w.slot
    case Cell(_) => t.slot == w.slot
    case Text(len, text) => t.slot.Text? && t.slot.text == WrittenText(len, text)
    case Group(ws) =>
      t.slot.Group? && |t.slot.elts| == |ws| && forall i :: 0 <= i < |ws| ==> SameValue(t.slot.elts[i], ws[i])
    case Nothing => w.code == STRING ==> t.slot.Text? && t.slot.text == []
    case Saved(_) => true
  }

  /** A place of type `t` takes values of type `w`: the same, or an object for a mixed array and the other way round. */
  predicate Suits(t: int, w: int) {
    t == w || (t == 0x03 && w == 0x08) || (t == 0x08 && w == 0x03)
  }

  /** Names of one length that are equal up to a common NUL. */
  predicate Alike(a: seq<Byte>, b: seq<Byte>) {
    |a| == |b| && forall i :: 0 <= i < |a| && NulFree(a[..i]) ==> a[i] == b[i]
  }

  lemma {:induction false} LongEnough(s: seq<Byte>, n: nat)
    requires n <= |s| && NulFree(s[..n])
    ensures n <= |CString(s)|
    decreases n
  {
    if n > 0 {
      var rest := s[1..][..n-1];
      forall k | 0 <= k < |rest| ensures rest[k] != 0 { assert rest[k] == s[..n][k+1]; }
      assert s[0] == s[..n][0];
      LongEnough(s[1..], n - 1);
    }
  }

  lemma AlikeIsSame(a: seq<Byte>, b: seq<Byte>)
    ensures SameName(a, b) <==> Alike(a, b)
  {
    var n := |CString(a)|;
    if |a| == |b| && CString(a) == CString(b) {
      forall i | 0 <= i < |a| && NulFree(a[..i]) ensures a[i] == b[i] {
        LongEnough(a, i);
        if i < n { assert a[i] == CString(a)[i] == b[i]; }
      }
    }
    if Alike(a, b) {
      forall i | 0 <= i < n ensures a[i] == b[i] { assert a[..i] == CString(a)[..i]; }
      assert a[..n] == CString(a) == b[..n];
      LongEnough(b, n);
      if n < |a| {
        assert a[n] == b[n] == 0;
        ShortEnough(b, n);
      }
    }
  }

  lemma {:induction false} ShortEnough(s: seq<Byte>, n: nat)
    requires n < |s| && s[n] == 0
    ensures |CString(s)| <= n
    decreases n
  {
    if n > 0 { ShortEnough(s[1..], n - 1); }
  }

  /** An element of the same shape, with room for every string and a NUL; properties have distinct names. */
  predicate Matches(t: Elt, w: Elt)
    decreases w, 0
  {
    && !t.typeless && Suits(t.code % 0x100, w.code % 0x100)
    && match w.slot
       case Cell(_) => t.slot.Cell?
       case Text(len, text) => t.slot.Text? && |WrittenText(len, text)| < t.slot.len
       case Group(ws) => t.slot.Group? && AllMatch(t.slot.elts, ws) && (w.code != ARRAY ==> SameNames(t.slot.elts, ws))
       case Nothing => w.code == STRING ==> t.slot.Text? && t.slot.len > 0
       case Saved(_) => true
  }

  predicate AllMatch(ts: seq<Elt>, ws: seq<Elt>)
    decreases ws, 1
  {
    |ts| == |ws| && forall i :: 0 <= i < |ws| ==> Matches(ts[i], ws[i])
  }

  predicate SameNames(ts: seq<Elt>, ws: seq<Elt>) {
    && |ts| == |ws|
    && (forall i :: 0 <= i < |ws| ==> ts[i].name == WrittenName(ws[i].name))
    && (forall i, j :: 0 <= i < j < |ts| ==> !Alike(ts[i].name, ts[j].name))
  }

  /** Elements differ in what they hold only. */
  predicate SameElts(ts: seq<Elt>, us: seq<Elt>) {
    |ts| == |us| && forall i :: 0 <= i < |ts| ==> us[i] == ts[i].(slot := us[i].slot)
  }

  lemma {:induction false} FindsFirst(ts: seq<Elt>, name: seq<Byte>, n: nat)
    requires n < |ts| && SameName(ts[n].name, name)
    requires forall i :: 0 <= i < n ==> !SameName(ts[i].name, name)
    ensures Find(ts, name) == n
    decreases n
  {
    if n > 0 {
      FindsFirst(ts[1..], name, n - 1);
    }
  }

  lemma {:induction false} FindsNames(ts: seq<Elt>, us: seq<Elt>, name: seq<Byte>)
    requires SameElts(ts, us)
    ensures Find(ts, name) == Find(us, name)
  {
    if ts != [] {
      FindsNames(ts[1..], us[1..], name);
    }
  }

  /** Reading a written value into an element of its shape gives the same value. */
  lemma {:induction false} FillHolds(t: Elt, w: Elt)
    requires Typed(w) && Matches(t, w) && EncodeBody(w).Some?
    ensures SameValue(Fill(t, w), w)
    decreases w, 0, 0
  {
    if w.slot.Group? {
      var ts, ws := t.slot.elts, w.slot.elts;
      assert EncodeGroup(w.code, ws).Some?;
      assert Fill(t, w).slot == FillSlot(t.slot, w);
      assert FillSlot(t.slot, w) == Group(FillGroup(ts, w.code, ws));
      if w.code == ARRAY {
        ItemsHold(ts, ts, ws, 0);
      } else {
        FieldsHold(ts, ts, ws, 0);
      }
    }
  }

  lemma {:induction false} FieldsHold(ts: seq<Elt>, us: seq<Elt>, ws: seq<Elt>, i: nat)
    requires i <= |ws| && AllTyped(ws) && AllMatch(ts, ws) && SameNames(ts, ws) && SameElts(ts, us)
    requires EncodeFields(ws, i).Some?
    requires forall j :: 0 <= j < i ==> SameValue(us[j], ws[j])
    requires forall j :: i <= j < |ts| ==> us[j] == ts[j]
    ensures var r := FillFields(us, ws, i); |r| == |ws| && forall j :: 0 <= j < |ws| ==> SameValue(r[j], ws[j])
    decreases ws, 1, |ws| - i
  {
    if i < |ws| {
      FindsNames(ts, us, ts[i].name);
      forall j | 0 <= j < i ensures !SameName(ts[j].name, ts[i].name) { AlikeIsSame(ts[j].name, ts[i].name); }
      FindsFirst(ts, ts[i].name, i);
      assert EncodeField(ws[i]).Some?;
      assert Encode(ws[i]).Some? && EncodeBody(ws[i]).Some?;
      FillHolds(ts[i], ws[i]);
      FieldsHold(ts, us[i := Fill(ts[i], ws[i])], ws, i + 1);
    }
  }

  lemma {:induction false} ItemsHold(ts: seq<Elt>, us: seq<Elt>, ws: seq<Elt>, i: nat)
    requires i <= |ws| && AllTyped(ws) && AllMatch(ts, ws) && |us| == |ts| && EncodeAll(ws, i).Some?
    requires forall j :: 0 <= j < i ==> SameValue(us[j], ws[j])
    requires forall j :: i <= j < |ts| ==> us[j] == ts[j]
    ensures var r := FillItems(us, ws, i); |r| == |ws| && forall j :: 0 <= j < |ws| ==> SameValue(r[j], ws[j])
    decreases ws, 1, |ws| - i
  {
    if i < |ws| {
      assert Encode(ws[i]).Some? && EncodeBody(ws[i]).Some?;
      FillHolds(ts[i], ws[i]);
      ItemsHold(ts, us[i := Fill(ts[i], ws[i])], ws, i + 1);
    }
  }

  // ---------------------------------------------------------------- other places

  /** A value of a type that the place does not take is skipped whole and leaves it as it was. */
  lemma OtherTypeSkipped(b: seq<Byte>, pos: nat, t: Elt, w: Elt)
    requires Typed(w) && Named(w) && Encode(w).Some? && Stands(b, pos, Encode(w).value)
    requires Ready(t) && !t.typeless && !Suits(t.code % 0x100, w.code)
    ensures pos <= |b| && ReadElt(b, pos, Some(t)) == One(Ok, Some(t), pos + |Encode(w).value|, false)
  {
    hide ReadElt, Encode, FillSlot;
    ReadsElt(b, pos, Some(t), w);
  }

  /** A variant takes a value into the last alternative of just its type, and leaves the others. */
  lemma VariantHolds(b: seq<Byte>, pos: nat, t: Elt, w: Elt, k: nat)
    requires Typed(w) && Named(w) && Encode(w).Some? && Stands(b, pos, Encode(w).value)
    requires Ready(t) && t.typeless && t.slot.Group? && k < |t.slot.elts|
    requires IsAlternative(t.slot.elts[k], w) && Matches(t.slot.elts[k], w)
    requires forall j :: k < j < |t.slot.elts| ==> !IsAlternative(t.slot.elts[j], w)
    ensures ReadBack(b, pos, t.slot.elts[k], w)
    ensures pos <= |b| && var r := ReadElt(b, pos, Some(t));
            && r.rc == Ok && r.pos == pos + |Encode(w).value| && !r.stop
            && r.elt.Some? && r.elt.value == t.(slot := r.elt.value.slot) && r.elt.value.slot.Group?
            && |r.elt.value.slot.elts| == |t.slot.elts| && SameValue(r.elt.value.slot.elts[k], w)
            && forall j :: 0 <= j < |t.slot.elts| && j != k ==> r.elt.value.slot.elts[j] == t.slot.elts[j]
  {
    hide ReadElt, Encode, FillSlot, SameValue, Matches, Stands;
    var alts := t.slot.elts;
    ReadsElt(b, pos, Some(t), w);
    LastAlternative(alts, w, k, |alts|);
    assert AllReady(alts) && Ready(alts[k]);
    ReadsElt(b, pos, Some(alts[k]), w);
    MatchedHolds(alts[k], w);
    SameType(alts[k], w);
    var filled := Fill(alts[k], w);
    assert Fill(t, w) == t.(slot := FillVariant(t.slot, w));
    assert FillVariant(t.slot, w) == Group(alts[k := filled]);
  }

  lemma SameType(t: Elt, w: Elt)
    requires Typed(w) && t.code == w.code && !t.typeless
    ensures Fill(t, w) == t.(slot := FillSlot(t.slot, w))
  {
    hide FillSlot;
  }

  predicate IsAlternative(a: Elt, w: Elt) {
    a.code == w.code && !a.optional && !a.typeless && !a.context
  }

  lemma {:induction false} LastAlternative(alts: seq<Elt>, w: Elt, k: nat, n: nat)
    requires k < n <= |alts| && IsAlternative(alts[k], w)
    requires forall j :: k < j < n ==> !IsAlternative(alts[j], w)
    ensures Alternative(alts, w.code, n) == k
    decreases n
  {
    if n - 1 > k { LastAlternative(alts, w, k, n - 1); }
  }

  lemma {:induction false} NoAlternative(alts: seq<Elt>, w: Elt, n: nat)
    requires n <= |alts| && forall j :: 0 <= j < n ==> !IsAlternative(alts[j], w)
    ensures Alternative(alts, w.code, n) == |alts|
    decreases n
  {
    if n > 0 { NoAlternative(alts, w, n - 1); }
  }

  /** A variant without an alternative of the value's type skips it. */
  lemma VariantSkips(b: seq<Byte>, pos: nat, t: Elt, w: Elt)
    requires Typed(w) && Named(w) && Encode(w).Some? && Stands(b, pos, Encode(w).value)
    requires Ready(t) && t.typeless && forall j :: 0 <= j < |Nested(t.slot)| ==> !IsAlternative(Nested(t.slot)[j], w)
    ensures pos <= |b| && ReadElt(b, pos, Some(t)) == One(Ok, Some(t), pos + |Encode(w).value|, false)
  {
    hide ReadElt, Encode, FillSlot;
    ReadsElt(b, pos, Some(t), w);
    NoAlternative(Nested(t.slot), w, |Nested(t.slot)|);
    assert FillVariant(t.slot, w) == t.slot && Fill(t, w) == t;
  }

  /** An element that asks for the context keeps the place right behind the type, where the value's bytes are. */
  lemma ContextSaved(b: seq<Byte>, pos: nat, t: Elt, w: Elt)
    requires Typed(w) && Named(w) && Encode(w).Some? && Stands(b, pos, Encode(w).value)
    requires t.context && !t.typeless && t.slot != Nothing
    ensures pos <= |b| && Stands(b, pos + 1, EncodeBody(w).value)
    ensures ReadElt(b, pos, Some(t))
            == One(Ok, Some(if Suits(t.code % 0x100, w.code) then t.(slot := Saved(pos + 1)) else t),
                   pos + |Encode(w).value|, false)
  {
    hide EncodeBody, ReadValue, FillSlot;
    StandsSplit(b, pos, TypeMark(w), EncodeBody(w).value);
    StandsAt(b, pos, TypeMark(w), 0);
    ReadsValue(b, pos + 1, Nothing, w);
  }

  // ---------------------------------------------------------------- unknown properties

  predicate Unknown(ts: seq<Elt>, u: Elt) {
    forall i :: 0 <= i < |ts| ==> !Alike(ts[i].name, WrittenName(u.name))
  }

  lemma {:induction false} FindsNone(ts: seq<Elt>, name: seq<Byte>)
    requires forall i :: 0 <= i < |ts| ==> !Alike(ts[i].name, name)
    ensures Find(ts, name) == |ts|
  {
    if ts != [] {
      AlikeIsSame(ts[0].name, name);
      FindsNone(ts[1..], name);
    }
  }

  /** A property that no element asks for, put anywhere among the others, changes nothing. */
  lemma {:induction false} UnknownIgnored(ts: seq<Elt>, ws: seq<Elt>, more: seq<Elt>, u: Elt, k: nat, i: nat)
    requires i <= k <= |ws| && more == ws[..k] + [u] + ws[k..] && Unknown(ts, u)
    ensures FillFields(ts, more, i) == FillFields(ts, ws, i)
    decreases k - i
  {
    FindsNone(ts, WrittenName(u.name));
    if i == k {
      assert FillField(ts, more[k]) == ts;
      RestIgnored(ts, ws, more, k);
    } else {
      var ts' := FillField(ts, ws[i]);
      assert more[i] == ws[i];
      FindsNames(ts, ts', WrittenName(u.name));
      UnknownIgnored(ts', ws, more, u, k, i + 1);
    }
  }

  lemma {:induction false} RestIgnored(ts: seq<Elt>, ws: seq<Elt>, more: seq<Elt>, i: nat)
    requires i <= |ws| && |more| == |ws| + 1 && forall j :: i <= j < |ws| ==> more[j+1] == ws[j]
    ensures FillFields(ts, more, i + 1) == FillFields(ts, ws, i)
    decreases |ws| - i
  {
    if i < |ws| {
      RestIgnored(FillField(ts, ws[i]), ws, more, i + 1);
    }
  }

  /** So a reader gets the same from an object whether or not the sender adds a property the reader does not know. */
  lemma UnknownPropertyIgnored(b: seq<Byte>, c: seq<Byte>, t: Elt, w: Elt, v: Elt, u: Elt, k: nat)
    requires w.slot.Group? && k <= |w.slot.elts| && v == w.(slot := Group(w.slot.elts[..k] + [u] + w.slot.elts[k..]))
    requires (w.code == OBJECT || w.code == MIXED_ARRAY) && Typed(w) && Typed(v) && Named(w) && Named(v)
    requires Encode(w).Some? && Encode(v).Some? && Stands(b, 0, Encode(w).value) && Stands(c, 0, Encode(v).value)
    requires Ready(t) && !t.typeless && Unknown(Nested(t.slot), u)
    ensures ReadElt(b, 0, Some(t)).elt == ReadElt(c, 0, Some(t)).elt
  {
    hide ReadElt;
    ReadsElt(b, 0, Some(t), w);
    ReadsElt(c, 0, Some(t), v);
    UnknownIgnored(Nested(t.slot), w.slot.elts, v.slot.elts, u, k, 0);
    assert FillGroup(Nested(t.slot), w.code, w.slot.elts) == FillGroup(Nested(t.slot), v.code, v.slot.elts);
    assert FillSlot(t.slot, w) == FillSlot(t.slot, v);
  }

  // ---------------------------------------------------------------- lists of elements

  /** A written list is read element by element; an optional element more is left alone at the end of the input. */
  lemma {:induction false} ReadsList(b: seq<Byte>, pos: nat, ts: seq<Elt>, ws: seq<Elt>, i: nat)
    requires i <= |ws| <= |ts| && AllTyped(ws) && AllNamed(false, ws) && AllReady(ts) && EncodeAll(ws, i).Some?
    requires Stands(b, pos, EncodeAll(ws, i).value)
    requires |ws| < |ts| ==> pos + |EncodeAll(ws, i).value| == |b| && ts[|ws|].optional
    ensures pos <= |b|
    ensures ReadElts(b, pos, ts, i) == Many(Ok, FillItems(ts, ws, i), pos + |EncodeAll(ws, i).value|)
    decreases |ws| - i
  {
    if i < |ws| {
      var value := Encode(ws[i]).value;
      StandsSplit(b, pos, value, EncodeAll(ws, i + 1).value);
      ReadsElt(b, pos, Some(ts[i]), ws[i]);
      var ts' := FillItem(ts, i, ws[i]);
      ReadsList(b, pos + |value|, ts', ws, i + 1);
    } else if i < |ts| {
      assert Ready(ts[i]);
      assert ts[i := ts[i]] == ts;
    }
  }

  // ---------------------------------------------------------------- exactly what comes back

  /** Every value carries its type, whatever it is, and lists have a 32-bit length. */
  predicate Marked(e: Elt)
    decreases e
  {
    !e.typeless && (e.slot.Group? ==> |e.slot.elts| < 0x1_0000_0000 && forall i ::
                      0 <= i < |e.slot.elts| ==> Marked(e.slot.elts[i]))
  }

  /** No object has two properties of one name. */
  predicate Distinct(e: Elt)
    decreases e
  {
    e.slot.Group? ==>
      && (forall i :: 0 <= i < |e.slot.elts| ==> Distinct(e.slot.elts[i]))
      && (e.code != ARRAY ==> forall i, j :: 0 <= i < j < |e.slot.elts| ==>
            !Alike(WrittenName(e.slot.elts[i].name), WrittenName(e.slot.elts[j].name)))
  }

  /** The place `t` then holds the value, and reading goes on right behind it. */
  ghost predicate ReadBack(b: seq<Byte>, pos: nat, t: Elt, w: Elt)
    requires Encode(w).Some?
  {
    && pos <= |b| && ReadElt(b, pos, Some(t)).rc == Ok
    && ReadElt(b, pos, Some(t)).pos == pos + |Encode(w).value| && !ReadElt(b, pos, Some(t)).stop
    && ReadElt(b, pos, Some(t)).elt.Some? && SameValue(ReadElt(b, pos, Some(t)).elt.value, w)
  }

  /** It comes back into every ready place of its shape, wherever it stands in any bytes. */
  ghost predicate ComesBack(w: Elt)
    requires Encode(w).Some?
  {
    forall b: seq<Byte>, pos: nat, t: Elt ::
      Ready(t) && Matches(t, w) && Stands(b, pos, Encode(w).value) ==> ReadBack(b, pos, t, w)
  }

  /** A place of the value's shape, with nothing in it yet. */
  function Blank(w: Elt): Elt
    decreases w
  {
    w.(name := WrittenName(w.name),
       slot := match w.slot
               case Cell(_) => Cell([])
               case Text(len, text) => Text(|WrittenText(len, text)| + 1, [])
               case Group(ws) => Group(seq(|ws|, i requires 0 <= i < |ws| => Blank(ws[i])))
               case Nothing => if w.code == STRING then Text(1, []) else Nothing
               case Saved(_) => Nothing)
  }

  lemma {:induction false} ItemsEncode(ws: seq<Elt>, i: nat, j: nat)
    requires i <= j < |ws| && (EncodeAll(ws, i).Some? || EncodeFields(ws, i).Some?)
    ensures Encode(ws[j]).Some?
    decreases j - i
  {
    if i < j {
      ItemsEncode(ws, i + 1, j);
    } else if EncodeFields(ws, i).Some? {
      assert EncodeField(ws[i]).Some?;
    }
  }

  lemma GroupEncodes(w: Elt, j: nat)
    requires w.slot.Group? && j < |w.slot.elts| && Encode(w).Some?
    ensures Encode(w.slot.elts[j]).Some?
  {
    assert EncodeBody(w) == EncodeGroup(w.code, w.slot.elts);
    ItemsEncode(w.slot.elts, 0, j);
  }

  lemma {:induction false} BlankMatches(w: Elt)
    requires Marked(w) && Distinct(w) && Encode(w).Some?
    ensures Ready(Blank(w)) && Matches(Blank(w), w)
    decreases w
  {
    if w.slot.Group? {
      var ts, ws := Blank(w).slot.elts, w.slot.elts;
      forall i | 0 <= i < |ws| ensures Ready(ts[i]) && Matches(ts[i], ws[i]) && ts[i].name == WrittenName(ws[i].name) {
        GroupEncodes(w, i);
        BlankMatches(ws[i]);
      }
      assert AllReady(ts) && AllMatch(ts, ws);
      assert w.code != ARRAY ==> SameNames(ts, ws);
    }
  }

  predicate IsGroup(code: int) {
    code == OBJECT || code == MIXED_ARRAY || code == ARRAY
  }

  predicate Extended(code: int) {
    code == INT8 || code == INT16 || code == INT32
  }

  /** A place that cannot come to hold the value: somewhere in it an extended type is asked for. */
  predicate Hopeless(t: Elt, w: Elt)
    decreases w, 0
  {
    && !t.typeless && !t.context && t.code == w.code
    && match w.slot
       case Cell(bytes) =>
         Extended(w.code) && EncodeCell(w.code, bytes).Some? && t.slot.Cell? && |t.slot.bytes| != |bytes|
       case Group(ws) =>
         IsGroup(w.code) && t.slot.Group? && exists i :: 0 <= i < |ws| && HopelessAt(t.slot.elts, ws, i)
       case _ => false
  }

  predicate HopelessAt(ts: seq<Elt>, ws: seq<Elt>, i: nat)
    requires i < |ws|
    decreases ws
  {
    |ts| == |ws| && Hopeless(ts[i], ws[i])
  }

  lemma {:induction false} HopelessHoldsNot(t: Elt, w: Elt)
    requires Hopeless(t, w)
    ensures !SameValue(t, w)
    decreases w
  {
    if w.slot.Group? {
      var i :| 0 <= i < |w.slot.elts| && HopelessAt(t.slot.elts, w.slot.elts, i);
      HopelessHoldsNot(t.slot.elts[i], w.slot.elts[i]);
    }
  }

  /** Whatever bytes are read, a place like that stays one. */
  lemma {:induction false} StaysHopeless(b: seq<Byte>, pos: nat, t: Elt, w: Elt)
    requires pos <= |b| && Hopeless(t, w)
    ensures var r := ReadElt(b, pos, Some(t)).elt; r.Some? && Hopeless(r.value, w)
    decreases |b| - pos, 4, 0
  {
    hide ReadGroup;
    if w.slot.Group? && pos < |b| && Compatible(t.code % 0x100, b[pos]) {
      var i :| 0 <= i < |w.slot.elts| && HopelessAt(t.slot.elts, w.slot.elts, i);
      GroupStays(b, pos + 1, b[pos], t.slot, w.slot.elts, i);
    }
  }

  lemma {:induction false} GroupStays(b: seq<Byte>, pos: nat, typ: int, slot: Slot, ws: seq<Elt>, i: nat)
    requires pos <= |b| && i < |ws| && IsGroup(typ) && slot.Group? && HopelessAt(slot.elts, ws, i)
    ensures var r := ReadGroup(b, pos, typ, slot).slot; r.Group? && HopelessAt(r.elts, ws, i)
    decreases |b| - pos, 2, 0
  {
    hide ReadObject, ReadArray, HopelessAt;
    var from := if typ == OBJECT then pos else pos + 4;
    if from > |b| {
    } else if typ == ARRAY {
      ItemsStay(b, from, slot.elts, 0, U32(b, pos), ws, i);
    } else {
      FieldsStay(b, from, slot.elts, ws, i);
    }
  }

  lemma {:induction false} FieldsStay(b: seq<Byte>, pos: nat, ts: seq<Elt>, ws: seq<Elt>, i: nat)
    requires pos <= |b| && i < |ws| && HopelessAt(ts, ws, i)
    ensures HopelessAt(ReadObject(b, pos, ts).elts, ws, i)
    decreases |b| - pos, 1, 0
  {
    hide ReadElt, Hopeless, CString;
    if pos + 2 <= |b| {
      var len := U16(b, pos);
      if len > 0 && pos + 2 + len <= |b| {
        var n := Find(ts, b[pos+2..pos+2+len]);
        var one := ReadElt(b, pos + 2 + len, if n < |ts| then Some(ts[n]) else None);
        if n == i { StaysHopeless(b, pos + 2 + len, ts[i], ws[i]); }
        if one.rc == Ok {
          FieldsStay(b, one.pos, if n < |ts| && one.elt.Some? then ts[n := one.elt.value] else ts, ws, i);
        }
      }
    }
  }

  lemma {:induction false} ItemsStay(b: seq<Byte>, pos: nat, ts: seq<Elt>, k: nat, n: nat, ws: seq<Elt>, i: nat)
    requires pos <= |b| && i < |ws| && HopelessAt(ts, ws, i)
    ensures HopelessAt(ReadArray(b, pos, ts, k, n).elts, ws, i)
    decreases |b| - pos, 5, n
  {
    hide ReadElt, Hopeless;
    if n > 0 {
      var one := ReadElt(b, pos, if k < |ts| then Some(ts[k]) else None);
      if k == i { StaysHopeless(b, pos, ts[i], ws[i]); }
      if one.rc == Ok {
        ItemsStay(b, one.pos, if k < |ts| && one.elt.Some? then ts[k := one.elt.value] else ts, k + 1, n - 1, ws, i);
      }
    }
  }

  lemma {:induction false} ExtendedIsHopeless(w: Elt)
    requires Marked(w) && !Typed(w) && Encode(w).Some?
    ensures Hopeless(Blank(w), w)
    decreases w
  {
    assert EncodeBody(w).Some?;
    if w.slot.Group? {
      var ts, ws := Blank(w).slot.elts, w.slot.elts;
      assert EncodeGroup(w.code, ws).Some?;
      var i :| 0 <= i < |ws| && !Typed(ws[i]);
      GroupEncodes(w, i);
      ExtendedIsHopeless(ws[i]);
      assert HopelessAt(ts, ws, i);
    }
  }

  /**
   A value that can be written at all comes back into every place of its shape if and only if all its types fit one
   byte and all its properties have names.
   */
  lemma ComesBackExactly(w: Elt)
    requires Marked(w) && Distinct(w) && Encode(w).Some?
    ensures ComesBack(w) <==> Typed(w) && Named(w)
  {
    hide ReadElt, Encode, Stands, Matches, Blank, Marked, Distinct, Typed, Named, Ready, Hopeless, SameValue;
    if Typed(w) && Named(w) {
      forall b: seq<Byte>, pos: nat, t: Elt | Ready(t) && Matches(t, w) && Stands(b, pos, Encode(w).value)
        ensures ReadBack(b, pos, t, w)
      {
        ReadsElt(b, pos, Some(t), w);
        MatchedHolds(t, w);
      }
    } else {
      var b, t := Encode(w).value, Blank(w);
      BlankMatches(w);
      WholeStands(b);
      assert !ReadBack(b, 0, t, w) by {
        if Typed(w) {
          ReadsExactlyNamed(b, 0, Some(t), w);
        } else {
          ExtendedIsHopeless(w);
          StaysHopeless(b, 0, t, w);
          HopelessHoldsNot(ReadElt(b, 0, Some(t)).elt.value, w);
        }
      }
    }
  }

  lemma WholeStands(b: seq<Byte>)
    ensures Stands(b, 0, b)
  {
  }

  lemma MatchedHolds(t: Elt, w: Elt)
    requires Typed(w) && Matches(t, w) && Encode(w).Some?
    ensures SameValue(Fill(t, w), w)
  {
    FillHolds(t, w);
  }

  function SmallInteger(): Elt {
    Elt(INT8, false, false, false, [1], Cell([7]))
  }

  function SmallObject(): Elt {
    Elt(OBJECT, false, false, false, [], Group([SmallInteger()]))
  }

  lemma ExtendedTypeWritten()
    ensures Encode(SmallObject()) == Some([3, 0, 1, 1, 0, 7, 0, 0, 9])
  {
    var e := SmallInteger();
    assert TypeMark(e) + [7] == [0, 7];
    assert Encode(e) == Some([0, 7]);
    assert EncodeFields([e], 1) == Some([]);
    assert WrittenName(e.name) == [1];
    assert EncodeField(e) == Some(BE16(1) + [1] + [0, 7]);
    assert BE16(1) + [1] + [0, 7] + [] == [0, 1, 1, 0, 7];
    assert EncodeFields([e], 0) == Some([0, 1, 1, 0, 7]);
    assert Index(OBJECT) + ([0, 1, 1, 0, 7] + EndMark()) == [0, 1, 1, 0, 7, 0, 0, 9];
    assert EncodeBody(SmallObject()) == EncodeGroup(OBJECT, [e]);
    assert EncodeGroup(OBJECT, [e]) == Some([0, 1, 1, 0, 7, 0, 0, 9]);
    assert TypeMark(SmallObject()) + [0, 1, 1, 0, 7, 0, 0, 9] == [3, 0, 1, 1, 0, 7, 0, 0, 9];
  }

  /**
   A one-byte integer in an object is not AMF 0: its type is cut to that of a
   number, and the reader asks for 8 bytes. That no code exceeds one byte
   (`Typed`) is enough for a round trip, not necessary: a reader that skips the
   value may by luck skip as many bytes as were written.
   */
  lemma ExtendedTypeCut()
    ensures Named(SmallObject()) && Encode(SmallObject()).Some?
    ensures ReadElt(Encode(SmallObject()).value, 0, None).rc == Err
  {
    ExtendedTypeWritten();
    var b: seq<Byte> := [3, 0, 1, 1, 0, 7, 0, 0, 9];
    NumberCutShort(b);
    ObjectStep(b, 1, [], [1]);
    assert ReadGroup(b, 1, OBJECT, Nothing).rc == Err;
    assert AllNamed(true, [SmallInteger()]);
    assert ReadElt(b, 0, None).rc == ReadValue(b, 1, OBJECT, Nothing).rc;
  }

  lemma NumberCutShort(b: seq<Byte>)
    requires b == [3, 0, 1, 1, 0, 7, 0, 0, 9]
    ensures b[3..4] == [1] && ReadElt(b, 4, None).rc == Err
  {
    assert ReadValue(b, 5, NUMBER, Nothing).rc == Err;
  }
}
