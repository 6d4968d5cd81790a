/** The `FnMut` closures the grid and table constructors take. A closure that may update
    what it captures is modelled as a function from its captured state and an argument to
    the next state and a result; the calls of one construction thread that state through
    the arguments in the order the constructor visits them. */
module Generators {

  /** The calls of a closure on the arguments `xs`, in order, from captured state `s0`:
      the state after the last call, and the results of all the calls. */
  function Run<S, A, B>(s0: S, xs: seq<A>, g: (S, A) -> (S, B)): (r: (S, seq<B>))
    ensures |r.1| == |xs|
    decreases |xs|
  {
    if |xs| == 0 then (s0, [])
    else
      var prev := Run(s0, xs[..|xs| - 1], g);
      var next := g(prev.0, xs[|xs| - 1]);
      (next.0, prev.1 + [next.1])
  }

  /** One more call: the closure sees the state the earlier calls left, and its result is
      appended. */
  lemma RunStep<S, A, B>(s0: S, xs: seq<A>, x: A, g: (S, A) -> (S, B))
    ensures var prev := Run(s0, xs, g);
            Run(s0, xs + [x], g) == (g(prev.0, x).0, prev.1 + [g(prev.0, x).1])
  {
    assert (xs + [x])[..|xs|] == xs;
  }

  /** The result of call `i` is the closure applied to argument `i` in the state that the
      first `i` calls left; the results of the first `k` calls do not depend on later
      arguments. */
  lemma {:induction false} RunAt<S, A, B>(s0: S, xs: seq<A>, g: (S, A) -> (S, B), k: nat)
    requires k <= |xs|
    ensures Run(s0, xs, g).1[..k] == Run(s0, xs[..k], g).1
    ensures k < |xs| ==> Run(s0, xs, g).1[k] == g(Run(s0, xs[..k], g).0, xs[k]).1
  {
    if k < |xs| {
      var ys := xs[..|xs| - 1];
      assert xs[..|xs| - 1] == ys;
      if k < |ys| {
        RunAt(s0, ys, g, k);
        assert ys[..k] == xs[..k];
      } else {
        assert ys == xs[..k];
      }
    } else {
      assert xs[..k] == xs;
    }
  }

  /** A closure that ignores and keeps its state is a plain function: the state is never
      changed, and call `i` yields `f` of argument `i`. */
  lemma {:induction false} RunStateless<S, A, B>(s0: S, xs: seq<A>, g: (S, A) -> (S, B), f: A -> B)
    requires forall s, a :: g(s, a) == (s, f(a))
    ensures Run(s0, xs, g).0 == s0
    ensures forall i :: 0 <= i < |xs| ==> Run(s0, xs, g).1[i] == f(xs[i])
    decreases |xs|
  {
    if |xs| > 0 {
      RunStateless(s0, xs[..|xs| - 1], g, f);
    }
  }

  /** A closure counting its calls: each call returns the count so far and increments it. */
  function Counter<A>(): (int, A) -> (int, int)
  {
    (k: int, a: A) => (k + 1, k)
  }

  /** Counting the calls numbers them in the order they are made: from `c`, call `i`
      returns `c + i`, and `|xs|` calls leave `c + |xs|`. */
  lemma {:induction false} CounterNumbersCalls<A>(c: int, xs: seq<A>)
    ensures Run(c, xs, Counter()).0 == c + |xs|
    ensures forall i :: 0 <= i < |xs| ==> Run(c, xs, Counter()).1[i] == c + i
    decreases |xs|
  {
    if |xs| > 0 {
      CounterNumbersCalls(c, xs[..|xs| - 1]);
    }
  }
}
