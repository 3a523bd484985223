/** Machines that take one input at a time: what a state and an output are is left open. */
module Machines {

  function Run<S, B>(next: (S, B) -> S, f: S, s: seq<B>): S
    decreases |s|
  {
    if s == [] then f else Run(next, next(f, s[0]), s[1..])
  }

  function Outputs<S, B, M>(next: (S, B) -> S, emit: (S, B) -> seq<M>, f: S, s: seq<B>): seq<M>
    decreases |s|
  {
    if s == [] then [] else emit(f, s[0]) + Outputs(next, emit, next(f, s[0]), s[1..])
  }

  lemma {:induction false} RunAppend<S, B, M>(next: (S, B) -> S, emit: (S, B) -> seq<M>, f: S, a: seq<B>, b: seq<B>)
    ensures Run(next, f, a + b) == Run(next, Run(next, f, a), b)
    ensures Outputs(next, emit, f, a + b) == Outputs(next, emit, f, a) + Outputs(next, emit, Run(next, f, a), b)
    decreases |a|
  {
    if a == [] {
      assert a + b == b;
    } else {
      RunAppend(next, emit, next(f, a[0]), a[1..], b);
      assert (a + b)[1..] == a[1..] + b;
    }
  }

  lemma RunOne<S, B, M>(next: (S, B) -> S, emit: (S, B) -> seq<M>, f: S, x: B, s: seq<B>)
    ensures Run(next, f, [x] + s) == Run(next, next(f, x), s)
    ensures Outputs(next, emit, f, [x] + s) == emit(f, x) + Outputs(next, emit, next(f, x), s)
  {
    assert ([x] + s)[1..] == s;
  }
}
