/** The parser as it runs, building the tree of items while it reads. */
module JsonParser {
  import opened Json
  import opened JsonTree
  import opened Buffers

  /** How parsing ends: at a position, failed, or outside the block. */
  datatype Out = End(pos: nat) | NoValue | Outside

  predicate Agrees<T>(out: Out, r: Result<T>) {
    match r
    case Ok(_, p) => out == End(p)
    case Failed => out == NoValue
    case Stuck => out == Outside
  }

  // ---------------------------------------------------------------- the size of a string's buffer

  /** What the first pass over a string counts: characters and escapes up to its end; negative outside the block. */
  function Count(m: seq<Char>, i: nat): (r: int)
    decreases |m| - i
  {
    if i >= |m| then -1
    else if m[i] == QUOTE || m[i] <= 31 then 0
    else
      var rest := Count(m, if m[i] == BACKSLASH then i + 2 else i + 1);
      if rest < 0 then -1 else rest + 1
  }

  /** Four hexadecimal digits count four. */
  lemma CountHex(m: seq<Char>, i: nat)
    requires Hex4(m, i) >= 0
    ensures Count(m, i) == (if Count(m, i + 4) < 0 then -1 else Count(m, i + 4) + 4)
  {
    CountDigit(m, i);
    CountDigit(m, i + 1);
    CountDigit(m, i + 2);
    CountDigit(m, i + 3);
  }

  lemma CountDigit(m: seq<Char>, i: nat)
    requires i < |m| && HexDigit(m[i]) >= 0
    ensures Count(m, i) == (if Count(m, i + 1) < 0 then -1 else Count(m, i + 1) + 1)
  {
  }

  lemma {:induction false} CountOutside(m: seq<Char>, i: nat)
    requires Count(m, i) < 0
    ensures ParseChars(m, i).Stuck?
    decreases |m| - i
  {
    if i < |m| {
      if m[i] != BACKSLASH {
        CountOutside(m, i + 1);
      } else if i + 1 < |m| && m[i+1] == 117 && Hex4(m, i + 2) >= 0 {
        CountHex(m, i + 2);
        CountOutside(m, i + 6);
      } else {
        CountOutside(m, i + 2);
      }
    }
  }

  class Parser {
    const m: seq<Char>
    var heap: seq<Item>

    constructor (m: seq<Char>)
      ensures this.m == m && heap == []
    {
      this.m, heap := m, [];
    }

    /** Only item `k` and what comes behind it have changed; its links and name have not. */
    twostate predicate KeptBefore(k: nat)
      reads this
    {
      && k < |old(heap)| <= |heap| && heap[..k] == old(heap)[..k]
      && heap[k].next == old(heap)[k].next && heap[k].prev == old(heap)[k].prev && heap[k].name == old(heap)[k].name
    }

    /** Item `k` is the newest, without text and children. */
    predicate Newest(k: nat)
      reads this
    {
      |heap| == k + 1 && heap[k].child == NONE && heap[k].text == Nil
    }

    method NewItem() returns (k: nat)
      modifies this
      ensures k == |old(heap)| && heap == old(heap) + [NEW_ITEM]
    {
      k := |heap|;
      heap := heap + [NEW_ITEM];
    }

    method SkipBlanks(i: nat) returns (r: nat)
      requires i <= |m|
      ensures r == Skip(m, i)
    {
      r := i;
      while r < |m| && m[r] <= 32
        invariant r <= |m| && Skip(m, r) == Skip(m, i)
      {
        r := r + 1;
      }
    }

    method ParseNumber(k: nat, pos: nat) returns (out: Out)
      requires Block(m) && pos < |m| && (m[pos] == MINUS || IsDigit(m[pos])) && Newest(k)
      modifies this
      ensures KeptBefore(k) && Agrees(out, Json.ParseNumber(m, pos))
      ensures |heap| == k + 1 && Laid(heap, k, Json.ParseNumber(m, pos).value)
    {
      var n, num := 0, pos;
      if m[num] == MINUS { num := num + 1; }
      if m[num] == ZERO { num := num + 1; }
      if IsDigit(m[num]) && m[num] != ZERO {
        ghost var from := num;
        while IsDigit(m[num])
          invariant pos <= num < |m| && Json.ParseDigits(m, num, n) == Json.ParseDigits(m, from, 0)
          decreases |m| - num
        {
          n := Wrap(n * 10 + (m[num] as int - ZERO as int));
          num := num + 1;
        }
      }
      heap := heap[k := heap[k].(num := n, kind := KNumber)];
      out := End(num);
    }

    /** The first pass: how many bytes the string needs, roughly. */
    method CountPass(pos: nat) returns (len: int)
      requires pos <= |m|
      ensures len == Count(m, pos)
    {
      var ptr := pos;
      len := 0;
      while ptr < |m| && m[ptr] != QUOTE && m[ptr] > 31
        invariant len >= 0 && Count(m, pos) == (if Count(m, ptr) < 0 then -1 else len + Count(m, ptr))
        decreases |m| - ptr
      {
        len := len + 1;
        if m[ptr] == BACKSLASH { ptr := ptr + 1; }
        ptr := ptr + 1;
      }
      if ptr >= |m| { len := -1; }
    }

    /** A character or an escape of a string: what it stands for, and where the next one is. */
    method TakeChar(ptr: nat) returns (ok: bool, put: seq<Char>, next: nat)
      requires ptr < |m| && m[ptr] != QUOTE && m[ptr] > 31 && Count(m, ptr) >= 0
      ensures !ok ==> ParseChars(m, ptr).Stuck?
      ensures ok ==> ptr < next && ParseChars(m, ptr) == Prepend(put, ParseChars(m, next))
      ensures ok ==> 0 <= Count(m, next) <= Count(m, ptr) - |put|
    {
      if m[ptr] != BACKSLASH { return true, [m[ptr]], ptr + 1; }
      if ptr + 1 >= |m| { return false, [], ptr; }
      if m[ptr+1] != 117 { return true, [Unescape(m[ptr+1])], ptr + 2; }
      var u := Hex4(m, ptr + 2);
      if u < 0 { return false, [], ptr; }
      CountHex(m, ptr + 2);
      return true, Utf8(u), ptr + 6;
    }

    /** The second pass: the characters go into a buffer of that size, which is enough. */
    method CopyPass(pos: nat, len: nat) returns (out: Out, text: seq<Char>)
      requires Count(m, pos) == len
      ensures Agrees(out, ParseChars(m, pos))
      ensures out.End? ==> text == BeforeNul(ParseChars(m, pos).value)
    {
      hide BeforeNul;
      var buf := new Char[len + 1];
      var ptr: nat, o: nat := pos, 0;
      ghost var chars: seq<Char> := [];
      text := [];
      PrependNone(ParseChars(m, pos));
      CountInside(m, pos);
      while m[ptr] != QUOTE && m[ptr] > 31
        invariant fresh(buf) && buf.Length == len + 1
        invariant ptr < |m| && Count(m, ptr) >= 0 && o + Count(m, ptr) <= len && buf[..o] == chars
        invariant ParseChars(m, pos) == Prepend(chars, ParseChars(m, ptr))
        decreases |m| - ptr
      {
        var ok, put, next := TakeChar(ptr);
        if !ok { return Outside, text; }
        PrependTwice(chars, put, ParseChars(m, next));
        PutChars(buf, o, put);
        CountInside(m, next);
        chars, o, ptr := chars + put, o + |put|, next;
      }
      assert chars + [] == chars;
      text := BeforeNul(buf[..o]);
      buf[o] := 0;
      if m[ptr] == QUOTE { ptr := ptr + 1; }
      out := End(ptr);
    }

    static lemma CountInside(m: seq<Char>, i: nat)
      requires Count(m, i) >= 0
      ensures i < |m|
    {
    }

    method ParseString(k: nat, pos: nat) returns (out: Out)
      requires pos <= |m| && Newest(k)
      modifies this
      ensures KeptBefore(k) && Agrees(out, Json.ParseString(m, pos))
      ensures out.End? ==> heap == old(heap)[k := old(heap)[k].(text := Chars(Json.ParseString(m, pos).value),
               kind := KString)]
    {
      if pos == |m| { return Outside; }
      if m[pos] != QUOTE { return NoValue; }
      var len := CountPass(pos + 1);
      if len < 0 {
        CountOutside(m, pos + 1);
        return Outside;
      }
      var text;
      out, text := CopyPass(pos + 1, len);
      if out.End? { heap := heap[k := heap[k].(text := Chars(text), kind := KString)]; }
    }

    method SetKind(k: nat, kind: Kind, num: int)
      requires k < |heap|
      modifies this
      ensures heap == old(heap)[k := old(heap)[k].(kind := kind, num := num)]
    {
      heap := heap[k := heap[k].(kind := kind, num := num)];
    }

    /** The value at `pos` is read into the new item `k`. */
    method ParseValue(k: nat, pos: nat) returns (out: Out)
      requires Block(m) && pos <= |m| && Newest(k)
      modifies this
      ensures KeptBefore(k) && Agrees(out, Json.ParseValue(m, pos))
      ensures out.End? ==> var v := Json.ParseValue(m, pos).value; |heap| == k + Size(v) && Laid(heap, k, v)
      decreases |m| - pos, 1
    {
      hide ParseItems, ParseMembers;
      if pos == |m| { return Outside; }
      if StartsWith(m, pos, NULL_TEXT) {
        SetKind(k, KNull, heap[k].num);
        return End(pos + 4);
      }
      if StartsWith(m, pos, FALSE_TEXT) {
        SetKind(k, KFalse, heap[k].num);
        return End(pos + 5);
      }
      if StartsWith(m, pos, TRUE_TEXT) {
        SetKind(k, KTrue, 1);
        return End(pos + 4);
      }
      if m[pos] == QUOTE {
        out := ParseString(k, pos);
      } else if m[pos] == MINUS || IsDigit(m[pos]) {
        out := ParseNumber(k, pos);
      } else if m[pos] == LBRACKET {
        out := ParseArray(k, pos);
      } else if m[pos] == LBRACE {
        out := ParseObject(k, pos);
      } else {
        out := NoValue;
      }
    }

    method ParseArray(k: nat, pos: nat) returns (out: Out)
      requires Block(m) && pos < |m| && Newest(k)
      modifies this
      ensures KeptBefore(k) && Agrees(out, Json.ParseArray(m, pos))
      ensures out.End? ==> var v := Json.ParseArray(m, pos).value; |heap| == k + Size(v) && Laid(heap, k, v)
      decreases |m| - pos, 0
    {
      hide Json.ParseValue, ParseItems;
      SetKind(k, KArray, heap[k].num);
      var value := SkipBlanks(pos + 1);
      if value == |m| { return Outside; }
      if m[value] == RBRACKET { return End(value + 1); }
      ghost var all := ParseItems(m, value);
      var child := NewItem();
      heap := heap[k := heap[k].(child := child)];
      ghost var last;
      out, last := ParseItemList(k, child, value);
    }

    /** A value behind blanks, into the new item `c`. */
    method ParseItem(c: nat, pos: nat) returns (out: Out)
      requires Block(m) && pos <= |m| && Newest(c)
      modifies this
      ensures FilledIn(old(heap), heap, c) && Agrees(out, Json.ParseValue(m, Skip(m, pos)))
      ensures out.End? ==> var v := Json.ParseValue(m, Skip(m, pos)).value; |heap| == c + Size(v) && Laid(heap, c, v)
      decreases |m| - pos, 2
    {
      hide Json.ParseValue, Laid;
      var from := SkipBlanks(pos);
      out := ParseValue(c, from);
    }

    /** The value behind a comma, into an item linked behind `child`. */
    method NextItem(child: nat, value: nat) returns (out: Out, c: nat)
      requires Block(m) && value < |m| && child < |heap|
      modifies this
      ensures c == |old(heap)| && FilledIn(Linked(old(heap), child), heap, c)
      ensures Agrees(out, Json.ParseValue(m, Skip(m, value + 1)))
      ensures out.End? ==> var v := Json.ParseValue(m, Skip(m, value + 1)).value;
               |heap| == c + Size(v) && Laid(heap, c, v)
      decreases |m| - value, 0
    {
      hide Json.ParseValue, Laid;
      c := NewItem();
      heap := heap[child := heap[child].(next := c)][c := heap[c].(prev := child)];
      assert heap == Linked(old(heap), child);
      out := ParseItem(c, value + 1);
    }

    /** The first item, into `first`, and the others behind it. */
    method ParseItemList(k: nat, first: nat, pos: nat) returns (out: Out, ghost last: nat)
      requires Block(m) && pos <= |m| && Newest(first) && first == k + 1 && heap[first].next == heap[first].prev == NONE
      modifies this
      ensures |heap| > k && heap[..k+1] == old(heap)[..k+1] && Agrees(out, ParseItems(m, pos))
      ensures out.End? ==> var items := ParseItems(m, pos).value;
              items != [] && ItemRow(heap, first, items, |items|, last)
      decreases |m| - pos, 3
    {
      hide Json.ParseValue, ParseItems, AfterItem, Laid, LinkedItems, Linked, ItemRow;
      ghost var all, v := ParseItems(m, pos), Json.ParseValue(m, Skip(m, pos));
      ItemsStep(m, pos);
      var child := first;
      last := first;
      out := ParseItem(child, pos);
      if !out.End? { return; }
      ghost var done := [v.value];
      if all.Ok? { ItemRowFirst(heap, first, all.value); }
      var value := SkipBlanks(out.pos);
      SkipAgain(m, out.pos);
      while value < |m| && m[value] == COMMA
        invariant pos < value <= |m| && Skip(m, value) == value && all == Prepend(done, AfterItem(m, value))
        invariant first <= child < |heap| && done != [] && heap[..k+1] == old(heap)[..k+1]
        invariant all.Ok? ==> |done| <= |all.value| && ItemRow(heap, first, all.value, |done|, child)
        decreases |m| - value
      {
        ghost var was := heap;
        v := Json.ParseValue(m, Skip(m, value + 1));
        OneMoreItem(m, done, value);
        var c;
        out, c := NextItem(child, value);
        if !out.End? { return; }
        if all.Ok? { ItemRowNext(was, heap, first, all.value, |done|, child); }
        done, child := done + [v.value], c;
        value := SkipBlanks(out.pos);
        SkipAgain(m, out.pos);
      }
      last := child;
      AfterItemAt(m, value);
      out := if value == |m| then Outside else if m[value] == RBRACKET then End(value + 1) else NoValue;
      assert done + [] == done;
    }

    method ParseObject(k: nat, pos: nat) returns (out: Out)
      requires Block(m) && pos < |m| && Newest(k)
      modifies this
      ensures KeptBefore(k) && Agrees(out, Json.ParseObject(m, pos))
      ensures out.End? ==> var v := Json.ParseObject(m, pos).value; |heap| == k + Size(v) && Laid(heap, k, v)
      decreases |m| - pos, 0
    {
      hide ParseMember, ParseMembers;
      SetKind(k, KObject, heap[k].num);
      var value := SkipBlanks(pos + 1);
      if value == |m| { return Outside; }
      if m[value] == RBRACE { return End(value + 1); }
      var child := NewItem();
      heap := heap[k := heap[k].(child := child)];
      ghost var last;
      out, last := ParseMemberList(k, child, value);
    }

    /** A name and a value, into the new item `c`: the string's text becomes the item's name. */
    method ParseNamed(c: nat, pos: nat) returns (out: Out)
      requires Block(m) && pos <= |m| && Newest(c)
      modifies this
      ensures FilledIn(old(heap), heap, c) && Agrees(out, ParseMember(m, pos))
      ensures out.End? ==> var e := ParseMember(m, pos).value;
              |heap| == c + Size(e.value) && Laid(heap, c, e.value) && HasText(heap[c].name, e.name)
      decreases |m| - pos, 2
    {
      hide Json.ParseValue, Json.ParseString, Laid;
      var from := SkipBlanks(pos);
      out := ParseString(c, from);
      if !out.End? { return; }
      heap := heap[c := heap[c].(name := heap[c].text, text := Nil)];
      var value := SkipBlanks(out.pos);
      if value == |m| { return Outside; }
      if m[value] != COLON { return NoValue; }
      value := SkipBlanks(value + 1);
      out := ParseValue(c, value);
    }

    /** The member behind a comma, into an item linked behind `child`. */
    method NextNamed(child: nat, value: nat) returns (out: Out, c: nat)
      requires Block(m) && value < |m| && child < |heap|
      modifies this
      ensures c == |old(heap)| && FilledIn(Linked(old(heap), child), heap, c)
      ensures Agrees(out, ParseMember(m, value + 1))
      ensures out.End? ==> var e := ParseMember(m, value + 1).value;
              |heap| == c + Size(e.value) && Laid(heap, c, e.value) && HasText(heap[c].name, e.name)
      decreases |m| - value, 0
    {
      hide ParseMember, Laid;
      c := NewItem();
      heap := heap[child := heap[child].(next := c)][c := heap[c].(prev := child)];
      assert heap == Linked(old(heap), child);
      out := ParseNamed(c, value + 1);
    }

    /** The first member, into `first`, and the others behind it. */
    method ParseMemberList(k: nat, first: nat, pos: nat) returns (out: Out, ghost last: nat)
      requires Block(m) && pos <= |m| && Newest(first) && first == k + 1 && heap[first].next == heap[first].prev == NONE
      modifies this
      ensures |heap| > k && heap[..k+1] == old(heap)[..k+1] && Agrees(out, ParseMembers(m, pos))
      ensures out.End? ==> var members := ParseMembers(m, pos).value;
              members != [] && MemberRow(heap, first, members, |members|, last)
      decreases |m| - pos, 3
    {
      hide ParseMember, ParseMembers, AfterMember, Laid, LinkedMembers, Linked, MemberRow;
      ghost var all, e := ParseMembers(m, pos), ParseMember(m, pos);
      MembersStep(m, pos);
      var child := first;
      last := first;
      out := ParseNamed(child, pos);
      if !out.End? { return; }
      ghost var done := [e.value];
      if all.Ok? { MemberRowFirst(heap, first, all.value); }
      var value := SkipBlanks(out.pos);
      SkipAgain(m, out.pos);
      while value < |m| && m[value] == COMMA
        invariant pos < value <= |m| && Skip(m, value) == value && all == Prepend(done, AfterMember(m, value))
        invariant first <= child < |heap| && done != [] && heap[..k+1] == old(heap)[..k+1]
        invariant all.Ok? ==> |done| <= |all.value| && MemberRow(heap, first, all.value, |done|, child)
        decreases |m| - value
      {
        ghost var was := heap;
        e := ParseMember(m, value + 1);
        OneMoreMember(m, done, value);
        var c;
        out, c := NextNamed(child, value);
        if !out.End? { return; }
        if all.Ok? { MemberRowNext(was, heap, first, all.value, |done|, child); }
        done, child := done + [e.value], c;
        value := SkipBlanks(out.pos);
        SkipAgain(m, out.pos);
      }
      last := child;
      AfterMemberAt(m, value);
      out := if value == |m| then Outside else if m[value] == RBRACE then End(value + 1) else NoValue;
      assert done + [] == done;
    }

    /** The whole text: on success, its value lies in a tree that takes up all items allocated. */
    method Parse() returns (out: Out)
      requires Block(m) && heap == []
      modifies this
      ensures Agrees(out, Json.Parse(m))
      ensures out.End? ==> var v := Json.Parse(m).value; |heap| == Size(v) && Laid(heap, 0, v)
    {
      hide Json.ParseValue, Laid;
      var c := NewItem();
      var from := SkipBlanks(0);
      out := ParseValue(c, from);
    }
  }
}
