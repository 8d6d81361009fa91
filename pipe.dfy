/** `pipeFromArray`: a list of unary functions composed into one,
    the first of the list applied first. */
module Pipe {

  /** `fns.reduce((prev, fn) => fn(prev), input)`: the empty list leaves
      the input as it is, and the last function is applied last, to what
      the others produced. */
  function Reduce<X>(fns: seq<X -> X>, input: X): (r: X)
    ensures fns == [] ==> r == input
    ensures fns != [] ==> r == fns[|fns| - 1](Reduce(fns[..|fns| - 1], input))
    decreases |fns|
  {
    if fns == [] then input
    else
      var r := Reduce(fns[1..], fns[0](input));
      assert |fns| > 1 ==> fns[1..][..|fns| - 2] == fns[..|fns| - 1][1..];
      r
  }

  /** A one-element list is returned as it is; any other list becomes the
      function that reduces over it. Either way the result is the reduce. */
  function PipeFromArray<X(!new)>(fns: seq<X -> X>): (piped: X -> X)
    ensures |fns| == 1 ==> piped == fns[0]
    ensures forall x :: piped(x) == Reduce(fns, x)
  {
    if |fns| == 1 then fns[0] else (x: X) => Reduce(fns, x)
  }

  /** Reducing over a concatenation is reducing over the second list,
      starting from what the first list produced. */
  lemma {:induction false} ReduceAppend<X>(a: seq<X -> X>, b: seq<X -> X>, x: X)
    ensures Reduce(a + b, x) == Reduce(b, Reduce(a, x))
    decreases |a|
  {
    if a == [] {
      assert a + b == b;
    } else {
      assert (a + b)[0] == a[0] && (a + b)[1..] == a[1..] + b;
      ReduceAppend(a[1..], b, a[0](x));
    }
  }

  /** The empty list is the identity. */
  lemma PipeEmpty<X(!new)>(x: X)
    ensures PipeFromArray<X>([])(x) == x
  {
  }

  /** The function appended last is applied last. */
  lemma PipeAppliesLastOneLast<X(!new)>(fns: seq<X -> X>, g: X -> X, x: X)
    ensures PipeFromArray(fns + [g])(x) == g(PipeFromArray(fns)(x))
  {
    ReduceAppend(fns, [g], x);
  }

  /** The function listed first is applied first. */
  lemma PipeAppliesFirstOneFirst<X(!new)>(f: X -> X, fns: seq<X -> X>, x: X)
    ensures PipeFromArray([f] + fns)(x) == PipeFromArray(fns)(f(x))
  {
    ReduceAppend([f], fns, x);
  }

  /** Piping the concatenation of two lists is piping one after the other. */
  lemma PipeComposes<X(!new)>(a: seq<X -> X>, b: seq<X -> X>, x: X)
    ensures PipeFromArray(a + b)(x) == PipeFromArray(b)(PipeFromArray(a)(x))
  {
    ReduceAppend(a, b, x);
  }
}
