/** Blocks of characters that hold NUL-terminated strings, and what the C library does with them. */
module Buffers {
  import opened Json

  predicate Avoids(t: seq<Char>, c: Char) {
    forall i :: 0 <= i < |t| ==> t[i] != c
  }

  /** The block holds the string `t` and its NUL. */
  ghost predicate Holds(a: array<Char>, t: seq<Char>)
    reads a
  {
    |t| < a.Length && a[|t|] == 0 && forall i :: 0 <= i < |t| ==> a[i] == t[i] && t[i] != 0
  }

  /** Characters are put into the buffer from `o` on. */
  method PutChars(buf: array<Char>, o: nat, s: seq<Char>)
    requires o + |s| <= buf.Length
    modifies buf
    ensures buf[..o+|s|] == old(buf[..o]) + s
  {
    var j := 0;
    while j < |s|
      invariant j <= |s| && buf[..o+j] == old(buf[..o]) + s[..j]
    {
      buf[o+j] := s[j];
      j := j + 1;
    }
  }

  /** `strlen`. */
  method StrLen(a: array<Char>, ghost t: seq<Char>) returns (n: nat)
    requires Holds(a, t)
    ensures n == |t|
  {
    n := 0;
    while a[n] != 0
      invariant n <= |t|
      decreases |t| - n
    {
      n := n + 1;
    }
  }

  /** `krealloc`: a larger block with the same beginning. */
  method Realloc(a: array<Char>, len: nat) returns (b: array<Char>)
    requires len >= a.Length
    ensures fresh(b) && b.Length == len && b[..a.Length] == a[..]
  {
    b := new Char[len];
    var i := 0;
    while i < a.Length
      invariant i <= a.Length && b[..i] == a[..i]
    {
      b[i] := a[i];
      i := i + 1;
    }
  }

  /**
   `sprintf` with no arguments: a text is copied, if it has no percent sign; what such a sign does is not
   modelled.
   */
  method Sprintf(out: array<Char>, ptr: nat, fmt: array<Char>, ghost t: seq<Char>) returns (ok: bool, n: nat)
    requires Holds(fmt, t) && fmt != out && ptr + |t| < out.Length
    modifies out
    ensures ok <==> Avoids(t, PERCENT)
    ensures ok ==> n == |t| && out[..ptr+n] == old(out[..ptr]) + t && out[ptr+n] == 0
  {
    n := 0;
    while fmt[n] != 0
      invariant n <= |t| && Holds(fmt, t) && Avoids(t[..n], PERCENT)
      invariant out[..ptr+n] == old(out[..ptr]) + t[..n]
      decreases |t| - n
    {
      if fmt[n] == PERCENT { return false, n; }
      out[ptr+n] := fmt[n];
      n := n + 1;
    }
    assert t[..n] == t;
    out[ptr+n] := 0;
    ok := true;
  }
}
