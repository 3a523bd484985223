/**
 Reconnecting a relay: the addresses are tried in turn at once, then a delay that doubles. Each try belongs to a session
 of its own; the next session takes over from the failed one.
 */
module RelayBackoff {

  /** The number of addresses, the first delay, and the greatest one (which also limits a connection attempt). */
  datatype Config = Config(urls: nat, first: nat, greatest: nat)

  /** A session's relay context. `idx` is the address after the one being tried. */
  datatype Ctx = Ctx(idx: nat, reconnect: nat, delayed: bool, timer: bool, success: bool)

  const NEW_CTX := Ctx(0, 0, false, false, false)

  /** How the next try is set off: at once, or after a delay. */
  datatype Wait = Now | After(ms: nat)

  function Min(a: nat, b: nat): nat {
    if a < b then a else b
  }

  // ---------------------------------------------------------------- what one event does

  /** The try itself: the address used, and the context while connecting, with its timer running. */
  function Try(c: Config, x: Ctx): (r: (nat, Ctx))
    requires c.urls > 0
    ensures r.0 < c.urls
  {
    var i := if x.idx >= c.urls then 0 else x.idx;
    (i, x.(idx := i + 1, delayed := false, timer := true))
  }

  /** What the next session starts with after `p` has gone. */
  function Next(c: Config, p: Ctx): (Ctx, Wait) {
    if p.success then (NEW_CTX, Now)
    else
      var x := NEW_CTX.(idx := p.idx, reconnect := p.reconnect);
      if x.idx < c.urls then (x, Now)
      else if !p.timer then (x.(reconnect := Min(p.reconnect * 2, c.greatest)), Now)
      else
        var d := if p.reconnect > 0 then Min(p.reconnect * 2, c.greatest) else c.first;
        (x.(reconnect := d, delayed := true, timer := true), After(d))
  }

  /** Connecting has worked. */
  function Connected(x: Ctx): Ctx {
    x.(timer := false, success := true, reconnect := 0, idx := 0)
  }

  /** The same, done to a session's fields. */
  class Relay {
    const c: Config
    var idx: nat
    var reconnect: nat
    var delayed: bool
    var timer: bool
    var success: bool

    constructor (c: Config)
      ensures this.c == c && Context() == NEW_CTX
    {
      this.c := c;
      idx, reconnect, delayed, timer, success := 0, 0, false, false, false;
    }

    function Context(): Ctx
      reads this
    {
      Ctx(idx, reconnect, delayed, timer, success)
    }

    /** The reconnect event: a timeout of a connection attempt, nothing when nobody wants the stream, or a try. */
    method Handler(timedout: bool, wanted: bool) returns (url: nat, gaveUp: bool)
      requires c.urls > 0
      modifies this
      ensures gaveUp <==> !old(delayed) && timedout
      ensures gaveUp || !wanted ==> Context() == old(Context()).(timer := old(timer) && !timedout)
      ensures !gaveUp && wanted ==> (url, Context()) == Try(c, old(Context()))
    {
      if timedout { timer := false; }
      if !delayed && timedout { return 0, true; }
      if !wanted { return 0, false; }
      timer := true;
      if idx >= c.urls { idx := 0; }
      delayed := false;
      url, gaveUp := idx, false;
      idx := idx + 1;
    }

    /** This session's context, set up after that of the session before. */
    method TakeOver(p: Relay) returns (wait: Wait)
      requires p != this && p.c == c && Context() == NEW_CTX
      modifies this
      ensures (Context(), wait) == Next(c, p.Context())
    {
      if p.success { return Now; }
      idx, reconnect := p.idx, p.reconnect;
      if idx < c.urls { return Now; }
      if !p.timer {
        reconnect := Min(p.reconnect * 2, c.greatest);
        return Now;
      }
      if p.reconnect > 0 {
        reconnect := Min(p.reconnect * 2, c.greatest);
      } else {
        reconnect := c.first;
      }
      delayed, timer := true, true;
      return After(reconnect);
    }

    method Published()
      modifies this
      ensures Context() == Connected(old(Context()))
    {
      timer, success, reconnect, idx := false, true, 0, 0;
    }
  }

  // ---------------------------------------------------------------- runs of failures

  /** What happens in `n` failures in a row from a context on: the addresses tried, and the wait after each. */
  function Failures(c: Config, x: Ctx, n: nat): (seq<nat>, seq<Wait>, Ctx)
    requires c.urls > 0
    decreases n
  {
    if n == 0 then ([], [], x)
    else
      var (url, y) := Try(c, x);
      var (z, wait) := Next(c, y);
      var rest := Failures(c, z, n - 1);
      ([url] + rest.0, [wait] + rest.1, rest.2)
  }

  /** At the start of a round: the first address is next. */
  predicate RoundStarts(c: Config, x: Ctx) {
    !x.success && (x.idx == 0 || x.idx >= c.urls)
  }

  /** The delay at the end of a round. */
  function Delay(c: Config, reconnect: nat): nat {
    if reconnect > 0 then Min(reconnect * 2, c.greatest) else c.first
  }

  /** In the middle of a round. */
  lemma {:induction false} RestOfRound(c: Config, x: Ctx, i: nat)
    requires i < c.urls && !x.success && (x.idx == i || (i == 0 && x.idx >= c.urls))
    ensures var (urls, waits, y) := Failures(c, x, c.urls - i);
            && |urls| == |waits| == c.urls - i
            && (forall k :: 0 <= k < |urls| ==> urls[k] == i + k)
            && (forall k :: 0 <= k < |urls| - 1 ==> waits[k] == Now)
            && waits[|urls|-1] == After(Delay(c, x.reconnect))
            && y == Ctx(c.urls, Delay(c, x.reconnect), true, true, false)
    decreases c.urls - i
  {
    var (url, y) := Try(c, x);
    var (z, wait) := Next(c, y);
    if i + 1 < c.urls {
      RestOfRound(c, z, i + 1);
      var r, r' := Failures(c, x, c.urls - i), Failures(c, z, c.urls - i - 1);
      forall k | 0 <= k < |r.0| ensures r.0[k] == i + k { if k > 0 { assert r.0[k] == r'.0[k-1]; } }
      forall k | 0 <= k < |r.0| - 1 ensures r.1[k] == Now { if k > 0 { assert r.1[k] == r'.1[k-1]; } }
    } else {
      assert Failures(c, z, 0) == ([], [], z);
    }
  }

  /** Whole rounds of failures: the delays between them. */
  function Delays(c: Config, x: Ctx, rounds: nat): seq<nat>
    requires c.urls > 0
    decreases rounds
  {
    if rounds == 0 then [] else
      var y := Failures(c, x, c.urls).2;
      [y.reconnect] + Delays(c, y, rounds - 1)
  }

  function Doubled(d: nat, times: nat): nat {
    if times == 0 then d else 2 * Doubled(d, times - 1)
  }

  /** From the start of a round on, every round tries each address once, in order, and ends in a delay. */
  lemma RoundOfFailures(c: Config, x: Ctx)
    requires c.urls > 0 && RoundStarts(c, x)
    ensures var (urls, waits, y) := Failures(c, x, c.urls);
            && urls == seq(c.urls, i => i)
            && waits == seq(c.urls - 1, i => Now) + [After(Delay(c, x.reconnect))]
            && RoundStarts(c, y) && y.reconnect == Delay(c, x.reconnect)
  {
    RestOfRound(c, x, 0);
  }

  /** Twice a delay that is cut is cut as well. */
  lemma {:induction false} DoubledMin(d: nat, g: nat, k: nat)
    ensures Min(2 * Min(Doubled(d, k), g), g) == Min(Doubled(d, k + 1), g)
  {
  }

  lemma {:induction false} Positive(d: nat, k: nat)
    ensures Doubled(d, k) > 0 <==> d > 0
  {
    if k > 0 { Positive(d, k - 1); }
  }

  lemma {:induction false} LaterDelays(c: Config, x: Ctx, rounds: nat, k: nat, i: nat)
    requires c.urls > 0 && RoundStarts(c, x) && (c.first == 0 || c.greatest > 0) && i < rounds
    requires x.reconnect == (if k == 0 then c.first else Min(Doubled(c.first, k), c.greatest))
    ensures |Delays(c, x, rounds)| == rounds
    ensures Delays(c, x, rounds)[i] == Min(Doubled(c.first, k + i + 1), c.greatest)
    decreases rounds
  {
    RoundOfFailures(c, x);
    var y := Failures(c, x, c.urls).2;
    DoubledMin(c.first, c.greatest, k);
    Positive(c.first, k);
    Positive(c.first, k + 1);
    if i > 0 {
      LaterDelays(c, y, rounds - 1, k + 1, i - 1);
    } else if rounds > 1 {
      LaterDelays(c, y, rounds - 1, k + 1, 0);
    }
  }

  /**
   From a new context: the first delay is the configured one, each later one twice the one before, up to the
   greatest.
   */
  lemma DelaysDouble(c: Config, rounds: nat, i: nat)
    requires c.urls > 0 && (c.first == 0 || c.greatest > 0) && i < rounds
    ensures |Delays(c, NEW_CTX, rounds)| == rounds
    ensures Delays(c, NEW_CTX, rounds)[i] == if i == 0 then c.first else Min(Doubled(c.first, i), c.greatest)
  {
    RoundOfFailures(c, NEW_CTX);
    var y := Failures(c, NEW_CTX, c.urls).2;
    if i > 0 {
      LaterDelays(c, y, rounds - 1, 0, i - 1);
    } else if rounds > 1 {
      LaterDelays(c, y, rounds - 1, 0, 0);
    }
  }

  /** With a greatest delay of 0 it is otherwise: a delay of 0 passes for none yet, and the first one comes again. */
  lemma NoCeiling(c: Config)
    requires c.urls > 0 && c.first > 0 && c.greatest == 0
    ensures Delays(c, NEW_CTX, 3) == [c.first, 0, c.first]
  {
    RoundOfFailures(c, NEW_CTX);
    var y := Failures(c, NEW_CTX, c.urls).2;
    RoundOfFailures(c, y);
    var z := Failures(c, y, c.urls).2;
    RoundOfFailures(c, z);
    assert Delays(c, z, 1) == [c.first] + Delays(c, Failures(c, z, c.urls).2, 0);
    assert Delays(c, y, 2) == [0] + Delays(c, z, 1);
  }

  /** So the delays double up to the greatest one if and only if there is a greatest one, or nothing to double. */
  lemma DelaysDoubleExactly(c: Config)
    requires c.urls > 0
    ensures (forall rounds: nat :: DoubleUp(c, Delays(c, NEW_CTX, rounds))) <==> c.first == 0 || c.greatest > 0
  {
    if c.first == 0 || c.greatest > 0 {
      forall rounds: nat ensures DoubleUp(c, Delays(c, NEW_CTX, rounds)) {
        var ds := Delays(c, NEW_CTX, rounds);
        if rounds > 0 { DelaysDouble(c, rounds, 0); }
        forall i | 0 <= i < |ds| ensures ds[i] == if i == 0 then c.first else Min(Doubled(c.first, i), c.greatest) {
          DelaysDouble(c, rounds, i);
        }
      }
    } else {
      NoCeiling(c);
      assert Delays(c, NEW_CTX, 3)[2] == c.first;
      assert !DoubleUp(c, Delays(c, NEW_CTX, 3));
    }
  }

  ghost predicate DoubleUp(c: Config, ds: seq<nat>) {
    forall i :: 0 <= i < |ds| ==> ds[i] == if i == 0 then c.first else Min(Doubled(c.first, i), c.greatest)
  }

  // ---------------------------------------------------------------- failures and timeouts

  /** A session that has tried; the limit of an attempt ends its timer. */
  function Tried(c: Config, x: Ctx, timedout: bool): Ctx
    requires c.urls > 0
  {
    if timedout then Try(c, x).1.(timer := false) else Try(c, x).1
  }

  /** The same for tries that break or, where `outs` says so, run into that limit. */
  function Tries(c: Config, x: Ctx, outs: seq<bool>): (seq<nat>, seq<Wait>, Ctx)
    requires c.urls > 0
    decreases |outs|
  {
    if outs == [] then ([], [], x)
    else
      var (z, wait) := Next(c, Tried(c, x, outs[0]));
      var rest := Tries(c, z, outs[1..]);
      ([Try(c, x).0] + rest.0, [wait] + rest.1, rest.2)
  }

  /** The delay after `n` tries, the first of address `i`: it grows with each try of the last address. */
  function Held(c: Config, d: nat, i: nat, outs: seq<bool>, n: nat): nat
    requires n <= |outs|
    decreases n
  {
    if n == 0 then d
    else if i + 1 < c.urls then Held(c, d, i + 1, outs[1..], n - 1)
    else Held(c, if outs[0] then Min(2 * d, c.greatest) else Delay(c, d), 0, outs[1..], n - 1)
  }

  lemma ModNext(i: nat, k: nat, u: nat)
    requires i < u && k > 0
    ensures (i + k) % u == ((if i + 1 < u then i + 1 else 0) + (k - 1)) % u
  {
    if i + 1 == u { ModPlus(k - 1, u); }
  }

  lemma ModPlus(m: nat, u: nat)
    requires u > 0
    ensures (u + m) % u == m % u
  {
    var q, r := m / u, m % u;
    assert u + m == (q + 1) * u + r;
    ModIs(u + m, q + 1, r, u);
  }

  lemma ModIs(m: int, q: int, r: int, u: int)
    requires u > 0 && m == q * u + r && 0 <= r < u
    ensures m % u == r
  {
    var p := m / u;
    assert m == p * u + m % u;
    if p > q { Times(p - q, u); } else if p < q { Times(q - p, u); }
    assert (p - q) * u == r - m % u;
  }

  lemma Times(d: int, u: int)
    requires d >= 1 && u > 0
    ensures d * u >= u
  {
  }

  /** A try of address `i`. */
  lemma OneTry(c: Config, x: Ctx, i: nat, timedout: bool)
    requires i < c.urls && !x.success && (x.idx == i || (i == 0 && x.idx >= c.urls))
    ensures Try(c, x).0 == i
    ensures var (z, wait) := Next(c, Tried(c, x, timedout));
            var d := if i + 1 < c.urls then x.reconnect else if timedout then Min(2 * x.reconnect, c.greatest)
                     else Delay(c, x.reconnect);
            && !z.success && z.idx == i + 1 && z.reconnect == d
            && wait == if i + 1 == c.urls && !timedout then After(d) else Now
  {
  }

  lemma {:induction false} TriesFrom(c: Config, x: Ctx, i: nat, outs: seq<bool>, k: nat)
    requires i < c.urls && !x.success && (x.idx == i || (i == 0 && x.idx >= c.urls)) && k < |outs|
    ensures var (urls, waits, y) := Tries(c, x, outs);
            && |urls| == |waits| == |outs| && urls[k] == (i + k) % c.urls
            && waits[k] == if (i + k + 1) % c.urls == 0 && !outs[k] then After(Held(c, x.reconnect, i, outs, k + 1))
                           else Now
    decreases |outs|
  {
    hide Held, Next, Try, Tried, Tries;
    OneTry(c, x, i, outs[0]);
    var (z, wait) := Next(c, Tried(c, x, outs[0]));
    var next := if i + 1 < c.urls then i + 1 else 0;
    HeldNext(c, x.reconnect, i, outs, k + 1);
    if |outs| > 1 { TriesFrom(c, z, next, outs[1..], if k > 0 then k - 1 else 0); }
    TriesFirst(c, x, outs);
    if k > 0 {
      ModNext(i, k, c.urls);
      ModNext(i, k + 1, c.urls);
    } else {
      Small(i, c.urls);
      HeldNothing(c, z.reconnect, next, outs[1..]);
    }
  }

  lemma TriesFirst(c: Config, x: Ctx, outs: seq<bool>)
    requires c.urls > 0 && outs != []
    ensures var (z, wait) := Next(c, Tried(c, x, outs[0]));
            var r, rest := Tries(c, x, outs), Tries(c, z, outs[1..]);
            r.0 == [Try(c, x).0] + rest.0 && r.1 == [wait] + rest.1
            && (|outs| == 1 ==> rest.0 == [] && rest.1 == [])
  {
  }

  lemma Small(i: nat, u: nat)
    requires i < u
    ensures i % u == i && ((i + 1) % u == 0 <==> i + 1 == u)
  {
    ModIs(i, 0, i, u);
    if i + 1 < u { ModIs(i + 1, 0, i + 1, u); } else { ModIs(i + 1, 1, 0, u); }
  }

  lemma HeldNothing(c: Config, d: nat, i: nat, outs: seq<bool>)
    ensures Held(c, d, i, outs, 0) == d
  {
  }

  lemma HeldNext(c: Config, d: nat, i: nat, outs: seq<bool>, n: nat)
    requires 0 < n <= |outs|
    ensures Held(c, d, i, outs, n)
            == if i + 1 < c.urls then Held(c, d, i + 1, outs[1..], n - 1)
               else Held(c, if outs[0] then Min(2 * d, c.greatest) else Delay(c, d), 0, outs[1..], n - 1)
  {
  }

  /**
   Whatever way the tries end: the addresses go round in order, and only a try of the last one that breaks is followed
   by a delay; after one that times out the next round begins at once, and its delay is doubled all the same.
   */
  lemma TriesGoRound(c: Config, x: Ctx, outs: seq<bool>, k: nat)
    requires c.urls > 0 && RoundStarts(c, x) && k < |outs|
    ensures var (urls, waits, y) := Tries(c, x, outs);
            && |urls| == |waits| == |outs| && urls[k] == k % c.urls
            && waits[k] == if (k + 1) % c.urls == 0 && !outs[k] then After(Held(c, x.reconnect, 0, outs, k + 1))
                           else Now
  {
    TriesFrom(c, x, 0, outs, k);
  }

  /** A relay that has worked begins anew: at once, with the first address and no delay. */
  lemma AnewAfterSuccess(c: Config, x: Ctx, outs: seq<bool>)
    requires c.urls > 0
    ensures var (z, wait) := Next(c, Connected(x));
            wait == Now && RoundStarts(c, z) && z.reconnect == 0 && Tries(c, z, outs) == Tries(c, NEW_CTX, outs)
  {
  }
}
