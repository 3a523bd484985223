/** Bytes, and byte strings as C sees them: a buffer read up to its first NUL. */
module Bytes {

  type Byte = b: int | 0 <= b < 256

  predicate NulFree(s: seq<Byte>) {
    forall k :: 0 <= k < |s| ==> s[k] != 0
  }

  /** What strlen and strcmp see of a buffer that holds `s` and then a NUL. */
  function CString(s: seq<Byte>): (r: seq<Byte>)
    ensures |r| <= |s| && r == s[..|r|] && NulFree(r)
    ensures |r| < |s| ==> s[|r|] == 0
  {
    if s == [] || s[0] == 0 then [] else [s[0]] + CString(s[1..])
  }

  /** A stored name compares equal to the name it was copied from exactly when that name has no NUL. */
  lemma CStringKeeps(s: seq<Byte>)
    ensures CString(s) == s <==> NulFree(s)
  {
    if NulFree(s) {
      assert |CString(s)| == |s|;
    }
  }

  // ---------------------------------------------------------------- numbers in bytes, the high ones first

  function BE16(n: int): seq<Byte> {
    [n / 0x100 % 0x100, n % 0x100]
  }

  function BE32(n: int): seq<Byte> {
    BE16(n / 0x1_0000 % 0x1_0000) + BE16(n % 0x1_0000)
  }

  // ---------------------------------------------------------------- chains of buffers

  /** The bytes of a chain of buffers, one after the other. */
  function Flat<T>(chain: seq<seq<T>>): seq<T> {
    if chain == [] then [] else chain[0] + Flat(chain[1..])
  }

  lemma {:induction false} FlatAppend<T>(a: seq<seq<T>>, b: seq<seq<T>>)
    ensures Flat(a + b) == Flat(a) + Flat(b)
  {
    if a == [] {
      assert a + b == b;
    } else {
      FlatAppend(a[1..], b);
      assert (a + b)[0] == a[0] && (a + b)[1..] == a[1..] + b;
      Regroup(a[0], Flat(a[1..]), Flat(b));
    }
  }

  lemma FlatOne<T>(b: seq<T>)
    ensures Flat([b]) == b
  {
    assert Flat([b]) == b + Flat([]);
  }

  lemma FlatSplit<T>(chain: seq<seq<T>>, k: nat)
    requires k < |chain|
    ensures Flat(chain[k..]) == chain[k] + Flat(chain[k+1..])
  {
    assert chain[k..][1..] == chain[k+1..];
  }

  /** Adding bytes to the last buffer. */
  lemma FlatGrow<T>(chain: seq<seq<T>>, more: seq<T>)
    requires chain != []
    ensures Flat(chain[|chain|-1 := chain[|chain|-1] + more]) == Flat(chain) + more
  {
    var k := |chain| - 1;
    var last := chain[k];
    FlatAppend(chain[..k], [last]);
    FlatAppend(chain[..k], [last + more]);
    FlatOne(last);
    FlatOne(last + more);
    assert chain == chain[..k] + [last];
    assert chain[k := last + more] == chain[..k] + [last + more];
  }

  // ---------------------------------------------------------------- sequences without repeats

  predicate Distinct<T(==)>(s: seq<T>) {
    forall i, j :: 0 <= i < j < |s| ==> s[i] != s[j]
  }

  ghost function Elements<T>(s: seq<T>): set<T> {
    set x | x in s
  }

  lemma {:induction false} MembersSize<T>(s: seq<T>)
    requires Distinct(s)
    ensures |Elements(s)| == |s|
  {
    if s != [] {
      var t := s[..|s|-1];
      MembersSize(t);
      assert s == t + [s[|s|-1]];
      assert Elements(s) == Elements(t) + {s[|s|-1]};
    }
  }

  /** `s` without its `k`-th member. */
  function Without<T>(s: seq<T>, k: int): seq<T>
    requires 0 <= k < |s|
  {
    s[..k] + s[k+1..]
  }

  // ---------------------------------------------------------------- places in a sequence

  /** `s` stands at position `i` of `p`. */
  ghost predicate Stands<T>(p: seq<T>, i: nat, s: seq<T>) {
    i + |s| <= |p| && forall x :: 0 <= x < |s| ==> p[i+x] == s[x]
  }

  lemma StandsSplit<T>(p: seq<T>, i: nat, a: seq<T>, b: seq<T>)
    requires Stands(p, i, a + b)
    ensures Stands(p, i, a) && Stands(p, i + |a|, b) && i + |a| + |b| <= |p|
  {
    forall x | 0 <= x < |a| ensures p[i+x] == a[x] { assert (a + b)[x] == a[x]; }
    forall x | 0 <= x < |b| ensures p[i+|a|+x] == b[x] { assert (a + b)[|a|+x] == b[x]; }
  }

  lemma StandsAt<T>(p: seq<T>, i: nat, s: seq<T>, x: nat)
    requires Stands(p, i, s) && x < |s|
    ensures i + x < |p| && p[i+x] == s[x]
  {
  }

  lemma StandsSlice<T>(p: seq<T>, i: nat, s: seq<T>)
    requires Stands(p, i, s)
    ensures p[i..i+|s|] == s
  {
  }

  lemma Regroup<T>(a: seq<T>, b: seq<T>, c: seq<T>)
    ensures a + b + c == a + (b + c)
  {
  }
}
