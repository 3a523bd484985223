/**
 AMF 0 encoding and template-driven decoding, over one flat byte sequence. The
 chains of network buffers it really runs over are in `AmfReader` and `AmfWriter`.

 An element describes a typed place: the caller fills it in to write, and the
 reader fills it in when the bytes bring a value of its type (and, in an object,
 of its name). Numbers are eight opaque bytes in host (little-endian) order.
 */
module Amf {
  import opened Bytes

  const NUMBER := 0x00
  const BOOLEAN := 0x01
  const STRING := 0x02
  const OBJECT := 0x03
  const NULL := 0x05
  const ARRAY_NULL := 0x06
  const MIXED_ARRAY := 0x08
  const END: Byte := 0x09
  const ARRAY := 0x0a
  const INT8 := 0x0100
  const INT16 := 0x0101
  const INT32 := 0x0102
  const VARIANT := 0x0103

  // ---------------------------------------------------------------- elements

  /**
   What an element's data pointer leads to: nothing, a scalar's bytes, a string
   buffer (`len` is the element's length field: the buffer's size to read, the
   text's length or 0 to write), or nested elements.
   */
  datatype Slot = Nothing | Cell(bytes: seq<Byte>) | Text(len: int,
      text: seq<Byte>) | Group(elts: seq<Elt>) | Saved(pos: nat)

  datatype Elt = Elt(code: int, optional: bool, typeless: bool, context: bool, name: seq<Byte>, slot: Slot)

  /** Success, failure, and a step that C leaves undefined: a null element followed, or a string buffer of no bytes. */
  datatype Rc = Ok | Err | Fault

  datatype Option<T> = None | Some(value: T)

  // ---------------------------------------------------------------- numbers in bytes

  function Reverse(s: seq<Byte>): (r: seq<Byte>)
    ensures |r| == |s| && forall i :: 0 <= i < |s| ==> r[i] == s[|s|-1-i]
  {
    seq(|s|, i requires 0 <= i < |s| => s[|s|-1-i])
  }

  function U16(b: seq<Byte>, pos: nat): (n: nat)
    requires pos + 2 <= |b|
    ensures n < 0x1_0000
  {
    var hi: int := b[pos];
    hi * 0x100 + b[pos+1]
  }

  function U32(b: seq<Byte>, pos: nat): nat
    requires pos + 4 <= |b|
  {
    U16(b, pos) * 0x1_0000 + U16(b, pos + 2)
  }

  // ---------------------------------------------------------------- writing

  function Nested(slot: Slot): seq<Elt> {
    if slot.Group? then slot.elts else []
  }

  /** The bytes written for the elements from `i` on; None when writing fails or reads through no data. */
  function EncodeAll(elts: seq<Elt>, i: nat): Option<seq<Byte>>
    requires i <= |elts|
    decreases elts, 1, |elts| - i
  {
    if i == |elts| then Some([])
    else
      var first := Encode(elts[i]);
      var rest := EncodeAll(elts, i + 1);
      if first.None? || rest.None? then None else Some(first.value + rest.value)
  }

  function Encode(e: Elt): Option<seq<Byte>>
    decreases e, 1, 0
  {
    if e.optional || e.context then None
    else
      var body := EncodeBody(e);
      if body.None? then None else Some(TypeMark(e) + body.value)
  }

  function TypeMark(e: Elt): seq<Byte> {
    if e.typeless then [] else [e.code % 0x100]
  }

  /** The text a string element writes: its length field counts, unless it is 0 modulo 2^16. */
  function WrittenText(len: int, text: seq<Byte>): (r: seq<Byte>)
    ensures |r| < 0x1_0000
  {
    var n := len % 0x1_0000;
    if n == 0 then
      var s := CString(text);
      s[..|s| % 0x1_0000]
    else if n <= |text| then text[..n] else text
  }

  function EncodeBody(e: Elt): Option<seq<Byte>>
    decreases e, 0, 0
  {
    match e.slot
    case Cell(bytes) => EncodeCell(e.code, bytes)
    case Text(len, text) => if e.code == STRING && len % 0x1_0000 <= |text|
        then Some(EncodeText(WrittenText(len, text))) else None
    case Group(elts) => EncodeGroup(e.code, elts)
    case Nothing => if e.code == STRING then Some(EncodeText([])) else EncodeNull(e.code)
    case Saved(_) => EncodeNull(e.code)
  }

  function EncodeNull(code: int): Option<seq<Byte>> {
    if code == NULL || code == ARRAY_NULL then Some([]) else None
  }

  function EncodeText(t: seq<Byte>): seq<Byte> {
    BE16(|t|) + t
  }

  function EncodeGroup(code: int, elts: seq<Elt>): Option<seq<Byte>>
    decreases elts, 3, 0
  {
    if code == ARRAY then
      var items := EncodeAll(elts, 0);
      if items.None? then None else Some(BE32(|elts|) + items.value)
    else if code == OBJECT || code == MIXED_ARRAY then
      var fields := EncodeFields(elts, 0);
      if fields.None? then None else Some(Index(code) + (fields.value + EndMark()))
    else None
  }

  /** Scalars: the bytes of memory, most significant first. */
  function EncodeCell(code: int, bytes: seq<Byte>): Option<seq<Byte>> {
    if code == NUMBER && |bytes| == 8 then Some(Reverse(bytes))
    else if (code == BOOLEAN || code == INT8) && |bytes| == 1 then Some(bytes)
    else if code == INT16 && |bytes| == 2 then Some(Reverse(bytes))
    else if code == INT32 && |bytes| == 4 then Some(Reverse(bytes))
    else None
  }

  /** An object ends with an empty name and the end type. */
  function EndMark(): seq<Byte> {
    [0, 0, END]
  }

  /** A mixed array begins with a highest index, always written as 0. */
  function Index(code: int): seq<Byte> {
    if code == MIXED_ARRAY then [0, 0, 0, 0] else []
  }

  function EncodeFields(elts: seq<Elt>, i: nat): Option<seq<Byte>>
    requires i <= |elts|
    decreases elts, 1, |elts| - i
  {
    if i == |elts| then Some([])
    else
      var first := EncodeField(elts[i]);
      var rest := EncodeFields(elts, i + 1);
      if first.None? || rest.None? then None else Some(first.value + rest.value)
  }

  /** A property: its name, counted, and its value. */
  function EncodeField(e: Elt): Option<seq<Byte>>
    decreases e, 2, 0
  {
    var value := Encode(e);
    if value.None? then None else Some(BE16(|WrittenName(e.name)|) + WrittenName(e.name) + value.value)
  }

  /** Names are counted in 16 bits. */
  function WrittenName(name: seq<Byte>): (r: seq<Byte>)
    ensures |r| < 0x1_0000
  {
    name[..|name| % 0x1_0000]
  }

  // ---------------------------------------------------------------- reading

  /**
   The outcome for one element: result, the element filled in, the position reached, and whether the list ends
   here.
   */
  datatype One = One(rc: Rc, elt: Option<Elt>, pos: nat, stop: bool)

  /** The outcome for nested elements. */
  datatype Many = Many(rc: Rc, elts: seq<Elt>, pos: nat)

  /** The outcome for a value: what its slot becomes. */
  datatype Val = Val(rc: Rc, slot: Slot, pos: nat, stop: bool)

  predicate Compatible(t1: int, t2: int) {
    t1 == t2 || (t1 == OBJECT && t2 == MIXED_ARRAY) || (t2 == OBJECT && t1 == MIXED_ARRAY)
  }

  /** Names are compared by length and then up to a common NUL. */
  predicate SameName(a: seq<Byte>, b: seq<Byte>) {
    |a| == |b| && CString(a) == CString(b)
  }

  /** The first element of that name, or the length of the list. */
  function Find(elts: seq<Elt>, name: seq<Byte>): (n: nat)
    ensures n <= |elts|
  {
    if elts == [] || SameName(elts[0].name, name) then 0 else 1 + Find(elts[1..], name)
  }

  /** A group slot takes back its elements. */
  function Regrouped(slot: Slot, elts: seq<Elt>): Slot {
    if slot.Group? then Group(elts) else slot
  }

  /** `ngx_rtmp_amf_read` for one element, or for none (`elt` is None) to skip a value. */
  function ReadElt(b: seq<Byte>, pos: nat, elt: Option<Elt>): (r: One)
    requires pos <= |b|
    ensures pos <= r.pos <= |b|
    decreases |b| - pos, 4, 0
  {
    if elt.Some? && elt.value.typeless then
      if elt.value.optional || elt.value.context then One(Err, elt, pos, false)
      else
        var v := ReadValue(b, pos, elt.value.code, elt.value.slot);
        One(v.rc, Some(elt.value.(slot := v.slot)), v.pos, v.stop)
    else if pos == |b| then
      if elt.None? then One(Fault, elt, pos, false)
      else if elt.value.optional then One(Ok, elt, pos, true)
      else One(Err, elt, pos, false)
    else
      var typ := b[pos];
      var mine := elt.Some? && Compatible(elt.value.code % 0x100, typ) && elt.value.slot != Nothing;
      if mine && !elt.value.context then
        var v := ReadValue(b, pos + 1, typ, elt.value.slot);
        One(v.rc, Some(elt.value.(slot := v.slot)), v.pos, v.stop)
      else
        var v := ReadValue(b, pos + 1, typ, Nothing);
        One(v.rc, if mine then Some(elt.value.(slot := Saved(pos + 1))) else elt, v.pos, v.stop)
  }

  /** Fixed-size scalars: `swap` for those kept in the other byte order. */
  function ReadScalar(b: seq<Byte>, pos: nat, slot: Slot, n: nat, swap: bool): (r: Val)
    requires pos <= |b|
    ensures pos <= r.pos <= |b|
  {
    if pos + n > |b| then Val(Err, slot, pos, false)
    else
      var bytes := b[pos..pos+n];
      Val(Ok, if slot.Nothing? then slot else Cell(if swap then Reverse(bytes) else bytes), pos + n, false)
  }

  function ReadString(b: seq<Byte>, pos: nat, slot: Slot): (r: Val)
    requires pos <= |b|
    ensures pos <= r.pos <= |b|
  {
    if pos + 2 > |b| then Val(Err, slot, pos, false)
    else
      var len := U16(b, pos);
      if slot.Text? && slot.len <= 0 then Val(Fault, slot, pos, false)
      else if pos + 2 + len > |b| then Val(Err, slot, pos, false)
      else
        var text := b[pos+2..pos+2+len];
        var slot' := if slot.Text? then Text(slot.len, if slot.len <= len then text[..slot.len-1] else text) else slot;
        Val(Ok, slot', pos + 2 + len, false)
  }

  /** A value of type `typ`, into the place behind a data pointer. */
  function ReadValue(b: seq<Byte>, pos: nat, typ: int, slot: Slot): (r: Val)
    requires pos <= |b|
    ensures pos <= r.pos <= |b|
    decreases |b| - pos, 3, 0
  {
    if typ == MIXED_ARRAY || typ == OBJECT || typ == ARRAY then ReadGroup(b, pos, typ, slot)
    else if typ == VARIANT then ReadVariant(b, pos, slot)
    else ReadPlain(b, pos, typ, slot)
  }

  function ReadPlain(b: seq<Byte>, pos: nat, typ: int, slot: Slot): (r: Val)
    requires pos <= |b|
    ensures pos <= r.pos <= |b|
  {
    if typ == NUMBER then ReadScalar(b, pos, slot, 8, true)
    else if typ == BOOLEAN || typ == INT8 then ReadScalar(b, pos, slot, 1, false)
    else if typ == INT16 then ReadScalar(b, pos, slot, 2, true)
    else if typ == INT32 then ReadScalar(b, pos, slot, 4, true)
    else if typ == STRING then ReadString(b, pos, slot)
    else if typ == NULL || typ == ARRAY_NULL then Val(Ok, slot, pos, false)
    else if typ == END then Val(Ok, slot, pos, true)
    else Val(Err, slot, pos, false)
  }

  /** Objects and arrays; a mixed array's highest index is passed over. */
  function ReadGroup(b: seq<Byte>, pos: nat, typ: int, slot: Slot): (r: Val)
    requires pos <= |b|
    ensures pos <= r.pos <= |b|
    decreases |b| - pos, 2, 0
  {
    var from := if typ == OBJECT then pos else pos + 4;
    if from > |b| then Val(Err, slot, pos, false)
    else
      var m := if typ == ARRAY then ReadArray(b, from, Nested(slot), 0, U32(b, pos))
          else ReadObject(b, from, Nested(slot));
      Val(m.rc, Regrouped(slot, m.elts), m.pos, false)
  }

  /** A value of the type that comes, into the alternative for it. */
  function ReadVariant(b: seq<Byte>, pos: nat, slot: Slot): (r: Val)
    requires pos <= |b|
    ensures pos <= r.pos <= |b|
    decreases |b| - pos, 2, 0
  {
    if pos == |b| then Val(Err, slot, pos, false)
    else
      var alts := Nested(slot);
      var k := Alternative(alts, b[pos], |alts|);
      var v := ReadValue(b, pos + 1, b[pos], if k < |alts| then alts[k].slot else Nothing);
      Val(v.rc, if k < |alts| then Regrouped(slot, alts[k := alts[k].(slot := v.slot)]) else slot, v.pos, false)
  }

  /** The last of the first `n` alternatives whose whole type field is that type; the list's length if there is none. */
  function Alternative(alts: seq<Elt>, typ: int, n: nat): (k: nat)
    requires n <= |alts|
    ensures k <= |alts| && (k < |alts| ==> k < n)
  {
    if n == 0 then |alts|
    else
      var e := alts[n-1];
      if e.code == typ && !e.optional && !e.typeless && !e.context then n - 1
      else
        Alternative(alts, typ, n - 1)
  }

  /** Properties up to the end mark, or up to the end of the input. */
  function ReadObject(b: seq<Byte>, pos: nat, elts: seq<Elt>): (r: Many)
    requires pos <= |b|
    ensures pos <= r.pos <= |b| && |r.elts| == |elts|
    decreases |b| - pos, 1, 0
  {
    if pos + 2 > |b| then Many(Ok, elts, pos)
    else
      var len := U16(b, pos);
      if len == 0 then
        if pos + 3 > |b| || b[pos+2] != END then Many(Err, elts, pos + 2) else Many(Ok, elts, pos + 3)
      else if pos + 2 + len > |b| then Many(Err, elts, pos + 2)
      else
        var n := Find(elts, b[pos+2..pos+2+len]);
        var one := ReadElt(b, pos + 2 + len, if n < |elts| then Some(elts[n]) else None);
        if one.rc != Ok then Many(one.rc, elts, one.pos)
        else ReadObject(b, one.pos, if n < |elts| && one.elt.Some? then elts[n := one.elt.value] else elts)
  }

  /** `n` more values; the first ones go to the elements from `i` on. */
  function ReadArray(b: seq<Byte>, pos: nat, elts: seq<Elt>, i: nat, n: nat): (r: Many)
    requires pos <= |b|
    ensures pos <= r.pos <= |b| && |r.elts| == |elts|
    decreases |b| - pos, 5, n
  {
    if n == 0 then Many(Ok, elts, pos)
    else
      var one := ReadElt(b, pos, if i < |elts| then Some(elts[i]) else None);
      if one.rc != Ok then Many(one.rc, elts, one.pos)
      else ReadArray(b, one.pos, if i < |elts| && one.elt.Some? then elts[i := one.elt.value] else elts, i + 1, n - 1)
  }

  /** The list given to a top-level read. */
  function ReadElts(b: seq<Byte>, pos: nat, elts: seq<Elt>, i: nat): (r: Many)
    requires pos <= |b| && i <= |elts|
    ensures pos <= r.pos <= |b| && |r.elts| == |elts|
    decreases |elts| - i
  {
    if i == |elts| then Many(Ok, elts, pos)
    else
      var one := ReadElt(b, pos, Some(elts[i]));
      var elts' := if one.elt.Some? then elts[i := one.elt.value] else elts;
      if one.rc != Ok || one.stop then Many(one.rc, elts', one.pos) else ReadElts(b, one.pos, elts', i + 1)
  }
}
