/**
 A recording: bytes go through a buffer into a file, and an index file says which ranges of it hold which
 fragment.
 */
module Recorder {
  import opened Bytes

  /** A range of a file, both ends inside; an empty one ends before it starts. */
  datatype Entry = Entry(start: int, end: int)

  /** Ranges one after the other, without gap or overlap, from `from` up to but not including `to`. */
  predicate Tile(entries: seq<Entry>, from: int, to: int) {
    if entries == [] then from == to
    else
      var last := entries[|entries|-1];
      last.start <= last.end + 1 == to && Tile(entries[..|entries|-1], from, last.start)
  }

  predicate Within(e: Entry, x: int) {
    e.start <= x <= e.end
  }

  /** Every byte of the range is in exactly one entry, and the entries hold no others. */
  lemma {:induction false} TileCovers(entries: seq<Entry>, from: int, to: int, x: int)
    requires Tile(entries, from, to)
    ensures from <= to
    ensures from <= x < to <==> exists i :: 0 <= i < |entries| && Within(entries[i], x)
    ensures forall i, j :: 0 <= i < j < |entries| ==> !(Within(entries[i], x) && Within(entries[j], x))
  {
    if entries != [] {
      var n := |entries| - 1;
      var rest := entries[..n];
      TileCovers(rest, from, entries[n].start, x);
      forall i | 0 <= i < n ensures entries[i] == rest[i] {}
      if from <= x < entries[n].start {
        var i :| 0 <= i < |rest| && Within(rest[i], x);
        assert Within(entries[i], x);
      } else if x < to && from <= x {
        assert Within(entries[n], x);
      }
      forall i | 0 <= i < n && Within(entries[i], x) ensures from <= x < entries[n].start { assert Within(rest[i], x); }
    }
  }

  class Recording {
    /** The file, as far as it has been written. */
    var disk: seq<Byte>
    var fileSize: nat
    const buf: array<Byte>
    var last: nat
    var open: bool
    var startSize: int
    var endSize: int
    /** The index lines written for this file. */
    var index: seq<Entry>

    /** What each write comes to: the number of bytes taken, or an error; complete once there are no more answers. */
    var answers: seq<int>

    /** What the file was when it was first opened, what was given to be written since, how much of it was dropped. */
    ghost var base: seq<Byte>
    ghost var given: seq<Byte>
    ghost var dropped: nat
    /** Since the file had its header, or was found with bytes nobody listed: the first line, and where it starts. */
    ghost var first: nat
    ghost var from: nat

    constructor (disk: seq<Byte>, size: nat, answers: seq<int>)
      requires size > 0
      ensures this.disk == disk && this.answers == answers && buf.Length == size && fresh(buf)
      ensures Valid() && !open && index == [] && base == disk && given == [] && dropped == 0
      ensures startSize == from == |disk| && first == 0
    {
      this.disk, this.answers, base := disk, answers, disk;
      fileSize, last, open, startSize, endSize, index := |disk|, 0, false, |disk|, |disk|, [];
      given, dropped, first, from := [], 0, 0, |disk|;
      buf := new Byte[size];
    }

    ghost predicate Valid()
      reads this, buf
    {
      && 0 < buf.Length && last <= buf.Length && fileSize == |disk| && startSize <= fileSize
      && |disk| + last + dropped == |base| + |given|
      && (dropped == 0 ==> Sent() == base + given)
      && first <= |index| && Tile(index[first..], from, startSize)
    }

    /** The lines are complete: together they list every byte from `from` on, and each once. */
    ghost predicate Complete()
      reads this
    {
      startSize == |disk|
    }

    /** The file's bytes and those in the buffer. */
    ghost function Sent(): seq<Byte>
      reads this, buf
      requires last <= buf.Length
    {
      disk + buf[..last]
    }

    /**
     The buffer is emptied into the file; what the system does not take is dropped, unless it takes nothing at
     all.
     */
    method Flush() returns (rc: int)
      requires Valid()
      modifies this`disk, this`fileSize, this`last, this`answers, this`dropped
      ensures Valid() && rc <= old(last)
      ensures rc < 0 ==> last == old(last) && disk == old(disk) && dropped == old(dropped)
      ensures rc >= 0 ==> last == 0 && disk == old(disk) + buf[..rc] && dropped == old(dropped) + (old(last) - rc)
      ensures old(answers) == [] ==> rc == old(last) && answers == [] && Sent() == old(Sent())
    {
      hide Tile;
      rc := last;
      if answers != [] {
        if answers[0] < last { rc := answers[0]; }
        answers := answers[1..];
      }
      if rc < 0 { return; }
      assert rc == last ==> buf[..rc] == buf[..last];
      disk, fileSize := disk + buf[..rc], fileSize + rc;
      dropped := dropped + (last - rc);
      last := 0;
    }

    /** As many bytes as fit go into the buffer. */
    method Fill(input: seq<Byte>, p: nat) returns (q: nat)
      requires Valid() && p <= |input|
      modifies this`last, this`given, buf
      ensures Valid() && p <= q <= |input| && last == old(last) + (q - p) && given == old(given) + input[p..q]
      ensures q == |input| || last == buf.Length
      ensures Sent() == old(Sent()) + input[p..q]
    {
      hide Tile;
      var len: nat := if buf.Length - last < |input| - p then buf.Length - last else |input| - p;
      ghost var was, piece := buf[..last], input[p..p+len];
      CopyIn(input, p, len);
      assert buf[..last+len] == was + piece;
      Regroup(disk, was, piece);
      Regroup(base, given, piece);
      last, q := last + len, p + len;
      given := given + piece;
    }

    /** `len` bytes are copied behind the last one. */
    method CopyIn(input: seq<Byte>, p: nat, len: nat)
      requires last + len <= buf.Length && p + len <= |input|
      modifies buf
      ensures buf[..last] == old(buf[..last]) && buf[last..last+len] == input[p..p+len]
    {
      var i := 0;
      while i < len
        invariant i <= len && buf[..last] == old(buf[..last]) && buf[last..last+i] == input[p..p+i]
      {
        buf[last+i] := input[p+i];
        i := i + 1;
      }
    }

    /** Everything is written, in order, through the buffer; an error stops it. */
    method Write(input: seq<Byte>) returns (rc: int)
      requires Valid()
      modifies this`disk, this`fileSize, this`last, this`answers, this`given, this`dropped, buf
      ensures Valid() && |disk| >= |old(disk)|
      ensures rc >= 0 ==> rc == |input| && given == old(given) + input
      ensures rc < 0 ==> exists n :: 0 <= n <= |input| && given == old(given) + input[..n]
      ensures old(answers) == [] ==>
               rc >= 0 && answers == [] && dropped == old(dropped) && Sent() == old(Sent()) + input
    {
      hide Tile;
      var p := 0;
      assert Sent() == old(Sent()) + input[..0];
      assert given == old(given) + input[..0];
      while p != |input|
        invariant Valid() && p <= |input| && given == old(given) + input[..p] && |disk| >= |old(disk)|
        invariant old(answers) == [] ==> answers == [] && dropped == old(dropped) && Sent() == old(Sent()) + input[..p]
        decreases |input| - p, if last == buf.Length then 1 else 0
      {
        var q := Fill(input, p);
        Regroup(old(Sent()), input[..p], input[p..q]);
        assert input[..p] + input[p..q] == input[..q];
        p := q;
        if last == buf.Length {
          rc := Flush();
          if rc < 0 { return; }
        }
      }
      assert input[..p] == input;
      return p;
    }

    /**
     The file is opened to append; an empty one gets a header, which belongs to no fragment. If all that it holds is
     listed, the new lines go on where the last one ended; if not, a new listing begins at its end.
     */
    method Open(header: seq<Byte>) returns (ok: bool)
      requires Valid() && !open
      modifies this, buf
      ensures Valid() && index == old(index)
      ensures ok ==> open && startSize == endSize == fileSize
      ensures ok && old(disk) != [] ==> disk == old(disk)
      ensures ok && old(disk) == [] && old(answers) == [] && old(last) == 0 ==> disk == header
      ensures ok && old(disk) != [] && old(Complete()) ==> first == old(first) && from == old(from)
      ensures ok && !(old(disk) != [] && old(Complete())) ==> first == |index| && from == fileSize
      ensures !ok ==> !open && old(disk) == []
    {
      hide Tile;
      fileSize := |disk|;
      ghost var listed := disk != [] && startSize == fileSize;
      if fileSize == 0 {
        var rc := Write(header);
        if rc < 0 { return false; }
        var _ := Flush();
        assert disk + buf[..0] == disk;
      }
      if !listed {
        first, from := |index|, fileSize;
        NoLines(index[first..], from);
      }
      startSize, endSize, open, ok := fileSize, fileSize, true, true;
    }

    /** A line of the index: what came since the last one. */
    method WriteIndex()
      requires Valid() && open
      modifies this`disk, this`fileSize, this`last, this`answers, this`dropped, this`startSize, this`endSize, this`index
      ensures Valid() && Complete() && startSize == fileSize == endSize + 1 && |disk| >= |old(disk)|
      ensures index == old(index) + [Entry(old(startSize), fileSize - 1)] && old(startSize) <= fileSize
      ensures old(answers) == [] ==> answers == [] && last == 0 && dropped == old(dropped)
    {
      var _ := Flush();
      endSize := fileSize - 1;
      OneMoreLine(index, first, from, startSize, fileSize);
      index := index + [Entry(startSize, endSize)];
      startSize := fileSize;
    }

    /** The last line is written and the file closed: every byte behind the header is listed, once. */
    method Close()
      requires Valid()
      modifies this`disk, this`fileSize, this`last, this`answers, this`dropped, this`startSize, this`endSize,
          this`index, this`open
      ensures Valid() && !open
      ensures !old(open) ==> index == old(index) && disk == old(disk) && startSize == old(startSize)
      ensures old(open) ==> Complete() && index == old(index) + [Entry(old(startSize), |disk| - 1)]
      ensures old(open) && old(answers) == [] ==> last == 0 && dropped == old(dropped)
    {
      if !open { return; }
      WriteIndex();
      open := false;
    }
  }

  lemma NoLines(index: seq<Entry>, from: int)
    requires index == []
    ensures Tile(index, from, from)
  {
  }

  lemma OneMoreLine(index: seq<Entry>, first: nat, from: int, start: int, size: int)
    requires first <= |index| && Tile(index[first..], from, start) && start <= size
    ensures Tile((index + [Entry(start, size - 1)])[first..], from, size)
  {
    var line := Entry(start, size - 1);
    assert (index + [line])[first..] == index[first..] + [line];
    assert (index[first..] + [line])[..|index[first..]|] == index[first..];
  }
}
