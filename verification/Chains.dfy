/** Singly linked chains of array indices, ended by -1: the shape of every list in shared memory. */
module Chains {
  import opened Bytes

  /** The `k`-th member of a chain, or the end mark. */
  function At(c: seq<int>, k: int): int {
    if 0 <= k < |c| then c[k] else -1
  }

  /** The sequence `c` is what one meets following `next` from `head`. */
  ghost predicate IsChain(next: seq<int>, head: int, c: seq<int>) {
    && head == At(c, 0)
    && (forall k :: 0 <= k < |c| ==> 0 <= c[k] < |next|)
    && (forall k {:trigger next[c[k]]} :: 0 <= k < |c| ==> next[c[k]] == At(c, k + 1))
  }

  lemma ChainTail(next: seq<int>, head: int, c: seq<int>, k: nat)
    requires IsChain(next, head, c) && k <= |c|
    ensures IsChain(next, At(c, k), c[k..])
  {
    var d := c[k..];
    forall i | 0 <= i < |d| ensures 0 <= d[i] < |next| && next[d[i]] == At(d, i + 1) {
      assert d[i] == c[k+i];
    }
  }

  /** The memory alone determines the chain: two readings of the same links agree. */
  lemma {:induction false} ChainIsUnique(next: seq<int>, head: int, c: seq<int>, d: seq<int>)
    requires IsChain(next, head, c) && IsChain(next, head, d)
    ensures c == d
    decreases |c|
  {
    if c == [] || d == [] {
    } else {
      assert c[0] == d[0];
      ChainTail(next, head, c, 1);
      ChainTail(next, head, d, 1);
      assert next[c[0]] == next[d[0]];
      ChainIsUnique(next, At(c, 1), c[1..], d[1..]);
      assert c == [c[0]] + c[1..] && d == [d[0]] + d[1..];
    }
  }

  /** A terminated chain cannot come back to itself: being acyclic needs no separate argument. */
  lemma {:induction false} ChainIsAcyclic(next: seq<int>, head: int, c: seq<int>)
    requires IsChain(next, head, c)
    ensures Distinct(c)
  {
    forall i, j | 0 <= i < j < |c| ensures c[i] != c[j] {
      ChainTail(next, head, c, i);
      ChainTail(next, head, c, j);
      if c[i] == c[j] {
        ChainIsUnique(next, c[i], c[i..], c[j..]);
        assert false;
      }
    }
  }

  /** Writing a link outside the chain leaves the chain as it was. */
  lemma ChainFrame(next: seq<int>, head: int, c: seq<int>, i: int, v: int)
    requires IsChain(next, head, c) && 0 <= i < |next| && i !in c
    ensures IsChain(next[i := v], head, c)
  {
    assert forall k :: 0 <= k < |c| ==> c[k] in c;
  }

  /** Linking a fresh index in front. */
  lemma ChainPush(next: seq<int>, head: int, c: seq<int>, i: int)
    requires IsChain(next, head, c) && 0 <= i < |next| && next[i] == head
    ensures IsChain(next, i, [i] + c)
  {
    var d := [i] + c;
    forall k | 0 <= k < |d| ensures 0 <= d[k] < |next| && next[d[k]] == At(d, k + 1) {
      assert At(d, k + 1) == At(c, k);
      if k > 0 { assert d[k] == c[k-1]; }
    }
  }

  lemma WithoutAt(c: seq<int>, k: int, i: int)
    requires 0 <= k < |c| && 0 <= i < |c|
    ensures At(Without(c, k), i) == if i < k then c[i] else At(c, i + 1)
  {
  }

  lemma ChainBehead(next: seq<int>, head: int, c: seq<int>)
    requires IsChain(next, head, c) && c != []
    ensures IsChain(next, next[c[0]], Without(c, 0))
  {
    ChainTail(next, head, c, 1);
    assert Without(c, 0) == c[1..];
  }

  lemma ChainPass(next: seq<int>, head: int, c: seq<int>, k: int)
    requires IsChain(next, head, c) && Distinct(c) && 0 < k < |c|
    ensures IsChain(next[c[k-1] := next[c[k]]], head, Without(c, k))
  {
    hide Distinct;
    var d, next' := Without(c, k), next[c[k-1] := next[c[k]]];
    WithoutAt(c, k, 0);
    forall i | 0 <= i < |d| ensures 0 <= d[i] < |next'| && next'[d[i]] == At(d, i + 1) {
      var j := if i < k then i else i + 1;
      WithoutAt(c, k, i);
      WithoutAt(c, k, i + 1);
      assert d[i] == c[j] && next[c[j]] == At(c, j + 1);
      if j != k - 1 { NotTwice(c, j, k - 1); }
    }
  }

  lemma NotTwice(c: seq<int>, i: int, j: int)
    requires Distinct(c) && 0 <= i < |c| && 0 <= j < |c| && i != j
    ensures c[i] != c[j]
  {
  }

  /** Redirecting the link that led to the `k`-th member past it. */
  lemma ChainUnlink(next: seq<int>, head: int, c: seq<int>, k: int)
    requires IsChain(next, head, c) && 0 <= k < |c|
    ensures k == 0 ==> IsChain(next, next[c[0]], Without(c, 0))
    ensures k > 0 ==> IsChain(next[c[k-1] := next[c[k]]], head, Without(c, k))
  {
    hide Distinct, At, Without;
    ChainIsAcyclic(next, head, c);
    if k == 0 { ChainBehead(next, head, c); } else { ChainPass(next, head, c, k); }
  }

  lemma WithoutMembers(c: seq<int>, k: int)
    requires Distinct(c) && 0 <= k < |c|
    ensures forall x :: x in Without(c, k) <==> x in c && x != c[k]
  {
    var d := Without(c, k);
    forall x | x in c && x != c[k] ensures x in d {
      var i :| 0 <= i < |c| && c[i] == x;
      assert d[if i < k then i else i - 1] == x;
    }
    forall i | 0 <= i < |d| ensures d[i] in c && d[i] != c[k] {
      assert d[i] == c[if i < k then i else i + 1];
    }
  }
}
