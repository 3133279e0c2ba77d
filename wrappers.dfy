/** Optional values (Java's nullable references) and results with an error kind. */
module Wrappers {

  /** A value that may be absent: Java's `null` is `None`. */
  datatype Option<+T> = None | Some(value: T)

  /** The outcome of an operation that can fail with an error of kind `E`. */
  datatype Result<+T, +E> = Ok(value: T) | Err(error: E)

  /** The elements an optional value holds: none or one. */
  function AsSeq<T>(o: Option<T>): (r: seq<T>)
    ensures |r| <= 1
    ensures o.None? <==> r == []
    ensures o.Some? ==> r == [o.value]
  {
    match o
    case None => []
    case Some(v) => [v]
  }

  /** Concatenation is associative. */
  lemma ConcatAssoc<T>(a: seq<T>, b: seq<T>, c: seq<T>)
    ensures a + (b + c) == (a + b) + c
  {
  }

  /** The results `f` gives for the elements of `xs`, in order, leaving out
      the elements it gives nothing for. */
  function Collect<A, B>(f: A -> Option<B>, xs: seq<A>): (r: seq<B>)
    ensures |r| <= |xs|
    decreases |xs|
  {
    if xs == [] then [] else Collect(f, xs[..|xs| - 1]) + AsSeq(f(xs[|xs| - 1]))
  }

  /** One more element adds its result, if any, at the end. */
  lemma CollectSnoc<A, B>(f: A -> Option<B>, xs: seq<A>, x: A)
    ensures Collect(f, xs + [x]) == Collect(f, xs) + AsSeq(f(x))
  {
    assert (xs + [x])[..|xs|] == xs;
  }

  /** Collecting over two runs one after the other. */
  lemma {:induction false} CollectAppend<A, B>(f: A -> Option<B>, a: seq<A>, b: seq<A>)
    ensures Collect(f, a + b) == Collect(f, a) + Collect(f, b)
    decreases |b|
  {
    if b == [] {
      assert a + b == a;
    } else {
      CollectAppend(f, a, b[..|b| - 1]);
      assert (a + b)[..|a + b| - 1] == a + b[..|b| - 1];
      ConcatAssoc(Collect(f, a), Collect(f, b[..|b| - 1]), AsSeq(f(b[|b| - 1])));
    }
  }

  /** The positions of the elements that gave a result. */
  ghost function Origins<A, B>(f: A -> Option<B>, xs: seq<A>): seq<nat>
    decreases |xs|
  {
    if xs == [] then []
    else Origins(f, xs[..|xs| - 1]) + (if f(xs[|xs| - 1]).Some? then [|xs| - 1] else [])
  }

  /** What `f` gives for each element of `xs`, in order. */
  function Results<A, B>(f: A -> Option<B>, xs: seq<A>): (r: seq<Option<B>>)
    ensures |r| == |xs|
  {
    seq(|xs|, i requires 0 <= i < |xs| => f(xs[i]))
  }

  /** `origins` names, for every element of `r`, the position in `results`
      it was taken from, and these positions strictly increase. */
  ghost predicate Traces<B>(results: seq<Option<B>>, r: seq<B>, origins: seq<nat>) {
    |origins| == |r|
    && (forall k | 0 <= k < |r| :: origins[k] < |results| && results[origins[k]] == Some(r[k]))
    && (forall k, m | 0 <= k < m < |r| :: origins[k] < origins[m])
  }

  /** The k-th result comes from the element at the k-th origin, and origins
      strictly increase: collecting keeps the order of the elements. */
  lemma {:induction false} CollectOrigins<A, B>(f: A -> Option<B>, xs: seq<A>)
    ensures Traces(Results(f, xs), Collect(f, xs), Origins(f, xs))
    decreases |xs|
  {
    if xs != [] {
      var init, last := xs[..|xs| - 1], xs[|xs| - 1];
      CollectOrigins(f, init);
      assert Results(f, xs) == Results(f, init) + [f(last)];
      TracesSnoc(Results(f, init), Collect(f, init), Origins(f, init), f(last));
    }
  }

  /** A possible result at the end: a result it gives comes from the new
      last position. */
  lemma TracesSnoc<B>(results: seq<Option<B>>, r: seq<B>, origins: seq<nat>, last: Option<B>)
    requires Traces(results, r, origins)
    ensures Traces(results + [last], r + AsSeq(last), origins + (if last.Some? then [|results|] else []))
  {
  }

  /** A possible result in front: the origins of the others move one
      position on. */
  lemma TracesCons<B>(first: Option<B>, results: seq<Option<B>>, r: seq<B>, origins: seq<nat>)
    returns (shifted: seq<nat>)
    requires Traces(results, r, origins)
    ensures Traces([first] + results, AsSeq(first) + r, shifted)
  {
    var tail := TracesShift(first, results, r, origins);
    if first.Some? {
      shifted := [0] + tail;
      assert AsSeq(first) + r == [first.value] + r;
    } else {
      shifted := tail;
      assert AsSeq(first) + r == r;
    }
  }

  /** Prepending one result moves every origin one place on. */
  lemma TracesShift<B>(x: Option<B>, results: seq<Option<B>>, r: seq<B>, origins: seq<nat>)
    returns (tail: seq<nat>)
    requires Traces(results, r, origins)
    ensures Traces([x] + results, r, tail)
    ensures forall k | 0 <= k < |tail| :: tail[k] > 0
  {
    tail := seq(|origins|, k requires 0 <= k < |origins| => origins[k] + 1);
  }
}
