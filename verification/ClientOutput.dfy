/** The output of a client: buffers queue up until the connection takes them. */
module ClientOutput {
  import opened Bytes

  /** A buffer of bytes; `stored` tells whether it has a place in memory or in a file, even for none. */
  datatype Buf = Buf(bytes: seq<Byte>, stored: bool, flush: bool, sync: bool, last: bool)

  /** A mark with no place for bytes: it alone may be empty. */
  predicate Special(b: Buf) {
    (b.flush || b.sync || b.last) && !b.stored
  }

  /** A chain's bytes, in order. */
  function Payload(chain: seq<Buf>): seq<Byte> {
    if chain == [] then [] else chain[0].bytes + Payload(chain[1..])
  }

  lemma {:induction false} BytesAppend(a: seq<Buf>, b: seq<Buf>)
    ensures Payload(a + b) == Payload(a) + Payload(b)
  {
    if a == [] {
      assert a + b == b;
    } else {
      BytesAppend(a[1..], b);
      assert (a + b)[1..] == a[1..] + b && (a + b)[0] == a[0];
      Regroup(a[0].bytes, Payload(a[1..]), Payload(b));
    }
  }

  /**
   A chain of which `n` bytes have been taken: buffers that are used up leave it, the one that is begun stays,
   shortened.
   */
  function Taken(chain: seq<Buf>, n: nat): seq<Buf> {
    if chain == [] then []
    else if n >= |chain[0].bytes| then Taken(chain[1..], n - |chain[0].bytes|)
    else [chain[0].(bytes := chain[0].bytes[n..])] + chain[1..]
  }

  lemma {:induction false} TakenBytes(chain: seq<Buf>, n: nat)
    requires n <= |Payload(chain)|
    ensures Payload(chain)[..n] + Payload(Taken(chain, n)) == Payload(chain)
  {
    if chain != [] {
      var b := chain[0].bytes;
      if n >= |b| {
        TakenBytes(chain[1..], n - |b|);
        assert Payload(chain)[..n] == b + Payload(chain[1..])[..n-|b|];
        Regroup(b, Payload(chain[1..])[..n-|b|], Payload(Taken(chain[1..], n - |b|)));
      } else {
        var t := [chain[0].(bytes := b[n..])] + chain[1..];
        assert t[1..] == chain[1..];
        assert Payload(chain)[..n] == b[..n];
        assert b[..n] + (b[n..] + Payload(chain[1..])) == b + Payload(chain[1..]);
      }
    }
  }

  /** `n` bytes use up the first `k` buffers; of the next, if there is one, they take some, and of those behind none. */
  ghost predicate UsesUp(chain: seq<Buf>, n: nat, k: nat, left: seq<Buf>) {
    && k <= |chain| && |Payload(chain[..k])| <= n
    && (k == |chain| ==> left == [])
    && (k < |chain| ==>
          var b, m := chain[k], n - |Payload(chain[..k])|;
          m < |b.bytes| && left == [Buf(b.bytes[m..], b.stored, b.flush, b.sync, b.last)] + chain[k+1..])
  }

  /** What `n` bytes leave of a chain: the marks are those of the buffers not used up. */
  ghost predicate LeftBy(chain: seq<Buf>, n: nat, left: seq<Buf>) {
    exists k: nat :: UsesUp(chain, n, k, left)
  }

  lemma {:induction false} TakenIsLeft(chain: seq<Buf>, n: nat)
    ensures LeftBy(chain, n, Taken(chain, n))
  {
    hide UsesUp;
    var k := TakenUsesUp(chain, n);
  }

  lemma {:induction false} TakenUsesUp(chain: seq<Buf>, n: nat) returns (k: nat)
    ensures UsesUp(chain, n, k, Taken(chain, n))
    decreases |chain|
  {
    if chain == [] || n < |chain[0].bytes| {
      k := 0;
    } else {
      k := TakenUsesUp(chain[1..], n - |chain[0].bytes|);
      k := k + 1;
      assert chain[..k][1..] == chain[1..][..k-1] && chain[..k][0] == chain[0];
      if k < |chain| { assert chain[1..][k-1] == chain[k] && chain[1..][k..] == chain[k+1..]; }
    }
  }

  /** No buffer is empty unless it is special. */
  predicate NoneEmpty(chain: seq<Buf>) {
    forall i :: 0 <= i < |chain| ==> chain[i].bytes != [] || Special(chain[i])
  }

  lemma {:induction false} TakenNoneEmpty(chain: seq<Buf>, n: nat)
    requires NoneEmpty(chain)
    ensures NoneEmpty(Taken(chain, n))
  {
    if chain != [] && n >= |chain[0].bytes| {
      var rest := chain[1..];
      assert forall i :: 0 <= i < |rest| ==> rest[i] == chain[i+1];
      TakenNoneEmpty(rest, n - |chain[0].bytes|);
    }
  }

  /** A mark by which all that is queued is to go out. */
  predicate Ends(chain: seq<Buf>) {
    exists i :: 0 <= i < |chain| && (chain[i].last || chain[i].flush)
  }

  predicate HasLast(chain: seq<Buf>) {
    exists i :: 0 <= i < |chain| && chain[i].last
  }

  predicate Syncs(chain: seq<Buf>) {
    exists i :: 0 <= i < |chain| && chain[i].sync
  }

  function Min(a: nat, b: nat): nat {
    if a < b then a else b
  }

  datatype Result = Ok | Again | Error

  class Client {
    /** The saved chain. */
    var queue: seq<Buf>
    var error: bool
    const postpone: nat
    /** Whether the connection wants to hear of the last buffer even without bytes. */
    const needLast: bool

    /** What has gone out, and what was given to be sent. */
    ghost var sent: seq<Byte>
    ghost var given: seq<Byte>

    constructor (postpone: nat, needLast: bool)
      ensures Valid() && queue == [] && sent == [] && given == [] && !error
    {
      this.postpone, this.needLast := postpone, needLast;
      queue, error, sent, given := [], false, [], [];
    }

    /** Nothing is lost, repeated or out of order. */
    ghost predicate Valid()
      reads this
    {
      sent + Payload(queue) == given && NoneEmpty(queue)
    }

    /** The size and the marks of a chain. */
    static method Measure(chain: seq<Buf>) returns (size: nat, flush: bool, sync: bool, last: bool)
      ensures size == |Payload(chain)|
      ensures (last || flush <==> Ends(chain)) && (last <==> HasLast(chain)) && (sync <==> Syncs(chain))
    {
      size, flush, sync, last := 0, false, false, false;
      var k := 0;
      assert chain[0..] == chain;
      while k < |chain|
        invariant k <= |chain| && size + |Payload(chain[k..])| == |Payload(chain)|
        invariant flush <==> exists i :: 0 <= i < k && chain[i].flush
        invariant sync <==> exists i :: 0 <= i < k && chain[i].sync
        invariant last <==> exists i :: 0 <= i < k && chain[i].last
      {
        assert chain[k..][1..] == chain[k+1..];
        size := size + |chain[k].bytes|;
        if chain[k].flush { flush := true; }
        if chain[k].sync { sync := true; }
        if chain[k].last { last := true; }
        k := k + 1;
      }
    }

    /** Output too short to be worth a write, with no mark in it, waits for more. */
    predicate Postponed(out: seq<Buf>)
      reads this
    {
      !Ends(queue + out) && out != [] && |Payload(queue + out)| < postpone
    }

    /** There are marks only, or nothing at all, and the connection does not ask for them. */
    predicate NothingToSend(out: seq<Buf>)
      reads this
    {
      Payload(queue + out) == [] && !(HasLast(queue + out) && needLast)
    }

    /**
     More output. The connection takes `take` bytes of what is queued, or as many as there are; or it breaks.
     An empty buffer is refused unless it is but a mark.
     */
    method Write(out: seq<Buf>, take: nat, broken: bool) returns (r: Result)
      requires Valid()
      modifies this
      ensures old(error) ==> r == Error && queue == old(queue) && sent == old(sent)
      ensures !old(error) && NoneEmpty(out) ==> Valid() && given == old(given) + Payload(out) && old(sent) <= sent
      ensures !old(error) && !NoneEmpty(out) ==> r == Error
      ensures !old(error) && NoneEmpty(out) && old(Postponed(out)) ==>
                r == Ok && !error && queue == old(queue) + out && sent == old(sent)
      ensures !old(error) && NoneEmpty(out) && !old(Postponed(out)) && old(NothingToSend(out)) ==>
                !error && sent == old(sent) && var all := old(queue) + out;
                if Ends(all) || Syncs(all) then r == Ok && queue == [] else r == Error && queue == all
      ensures !old(error) && NoneEmpty(out) && !old(Postponed(out)) && !old(NothingToSend(out)) ==>
                if broken then r == Error && error && queue == old(queue) + out && sent == old(sent)
                else !error && |sent| == |old(sent)| + Min(take, |Payload(old(queue) + out)|)
                     && r == (if queue == [] then Ok else Again)
                     && LeftBy(old(queue) + out, Min(take, |Payload(old(queue) + out)|), queue)
    {
      hide LeftBy, Taken;
      if error { return Error; }
      if !NoneEmpty(out) { return Error; }
      ghost var was := queue;
      queue := queue + out;
      given := given + Payload(out);
      BytesAppend(was, out);
      Regroup(sent, Payload(was), Payload(out));
      var size, flush, sync, last := Measure(queue);
      if !last && !flush && out != [] && size < postpone { return Ok; }
      if size == 0 && !(last && needLast) {
        if last || flush || sync {
          queue := [];
          assert Payload(was + out) == [];
          return Ok;
        }
        return Error;
      }
      if broken {
        error := true;
        return Error;
      }
      var n := Min(take, size);
      TakenBytes(queue, n);
      TakenIsLeft(queue, n);
      TakenNoneEmpty(queue, n);
      assert |Payload(queue)[..n]| == n;
      Regroup(sent, Payload(queue)[..n], Payload(Taken(queue, n)));
      sent := sent + Payload(queue)[..n];
      queue := Taken(queue, n);
      r := if queue != [] then Again else Ok;
    }
  }
}
