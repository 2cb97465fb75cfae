/** Lists of encoded items, one after the other, and reading them back one by one. */
module Codecs {
  import opened Outcomes
  import opened ByteStrings
  import opened MerkleTree

  /** An item that was read up to an offset, seen as the item and the bytes that are left. */
  function Left<T>(b: seq<byte>, item: Result<(T, nat)>): Result<(T, seq<byte>)>
    requires item.Ok? ==> item.value.1 <= |b|
  {
    if item.Ok? then Ok((item.value.0, b[item.value.1..])) else Err(item.error)
  }

  function Concat<T>(f: T -> seq<byte>, xs: seq<T>): seq<byte> {
    if xs == [] then [] else f(xs[0]) + Concat(f, xs[1..])
  }

  /** `n` items from the front of the bytes, and the bytes that are left. */
  function ParseMany<T>(p: seq<byte> -> Result<(T, seq<byte>)>, b: seq<byte>, n: nat)
    : (r: Result<(seq<T>, seq<byte>)>)
    ensures r.Ok? ==> |r.value.0| == n
    decreases n
  {
    if n == 0 then Ok(([], b))
    else
      var item := p(b);
      if item.Err? then Err(item.error)
      else Prepend([item.value.0], ParseMany(p, item.value.1, n - 1))
  }

  function Prepend<T>(xs: seq<T>, others: Result<(seq<T>, seq<byte>)>): (r: Result<(seq<T>, seq<byte>)>)
    ensures others.Ok? ==> r.Ok? && |r.value.0| == |xs| + |others.value.0|
  {
    if others.Ok? then Ok((xs + others.value.0, others.value.1)) else others
  }

  lemma PrependNone<T>(others: Result<(seq<T>, seq<byte>)>)
    ensures Prepend([], others) == others
  {
    if others.Ok? {
      assert [] + others.value.0 == others.value.0;
    }
  }

  lemma PrependTwice<T>(xs: seq<T>, ys: seq<T>, others: Result<(seq<T>, seq<byte>)>)
    ensures Prepend(xs, Prepend(ys, others)) == Prepend(xs + ys, others)
  {
    if others.Ok? {
      assert xs + ys + others.value.0 == xs + (ys + others.value.0);
    }
  }

  lemma {:induction false} ConcatAppend<T>(f: T -> seq<byte>, xs: seq<T>, ys: seq<T>)
    ensures Concat(f, xs + ys) == Concat(f, xs) + Concat(f, ys)
  {
    if xs == [] {
      assert xs + ys == ys;
    } else {
      assert (xs + ys)[1..] == xs[1..] + ys;
      ConcatAppend(f, xs[1..], ys);
    }
  }

  lemma ConcatOne<T>(f: T -> seq<byte>, x: T)
    ensures Concat(f, [x]) == f(x)
  {
    assert Concat(f, [x]) == f(x) + [];
  }

  /** If every item reads back as g of itself, whatever follows it, then so does the list. */
  lemma {:induction false} ParseConcat<T, U>(
    f: T -> seq<byte>, p: seq<byte> -> Result<(U, seq<byte>)>, g: T -> U, xs: seq<T>, rest: seq<byte>)
    requires forall x, tail {:trigger p(f(x) + tail)} :: x in xs ==> p(f(x) + tail) == Ok((g(x), tail))
    ensures ParseMany(p, Concat(f, xs) + rest, |xs|) == Ok((Map(g, xs), rest))
  {
    if xs == [] {
      assert Concat(f, xs) + rest == rest;
      assert Map(g, xs) == [];
    } else {
      var tail := Concat(f, xs[1..]) + rest;
      assert Concat(f, xs) + rest == f(xs[0]) + tail;
      assert p(f(xs[0]) + tail) == Ok((g(xs[0]), tail));
      ParseConcat(f, p, g, xs[1..], rest);
      assert Map(g, xs) == [g(xs[0])] + Map(g, xs[1..]);
    }
  }

  /** If an item is refused, whatever follows it, and those before it read back, the list is refused. */
  lemma {:induction false} ParseConcatFails<T, U>(
    f: T -> seq<byte>, p: seq<byte> -> Result<(U, seq<byte>)>, xs: seq<T>, at: nat, e: Error, rest: seq<byte>)
    requires at < |xs|
    requires forall n, tail {:trigger p(f(xs[n]) + tail)} :: 0 <= n < at ==>
      p(f(xs[n]) + tail).Ok? && p(f(xs[n]) + tail).value.1 == tail
    requires forall tail {:trigger p(f(xs[at]) + tail)} :: p(f(xs[at]) + tail) == Err(e)
    ensures ParseMany(p, Concat(f, xs) + rest, |xs|) == Err(e)
  {
    var tail := Concat(f, xs[1..]) + rest;
    assert Concat(f, xs) + rest == f(xs[0]) + tail;
    if at > 0 {
      assert p(f(xs[0]) + tail).Ok?;
      forall n, t {:trigger p(f(xs[1..][n]) + t)} | 0 <= n < at - 1
        ensures p(f(xs[1..][n]) + t).Ok? && p(f(xs[1..][n]) + t).value.1 == t
      {
        assert xs[1..][n] == xs[n + 1];
      }
      ParseConcatFails(f, p, xs[1..], at - 1, e, rest);
    }
  }

  lemma {:induction false} ConcatLength<T>(f: T -> seq<byte>, xs: seq<T>, n: nat)
    requires n < |xs|
    ensures |Concat(f, xs)| >= |f(xs[n])|
  {
    if n > 0 {
      ConcatLength(f, xs[1..], n - 1);
    }
  }
}
