/**
 * Pairing helpers: `zip` and `enumerate`.
 *
 * Both are loops that grow a fresh vector of pairs with `push_back`; here a
 * vector is a `seq` and each method is proved against the reference function
 * `Zipped`, whose own contract states what a zip is.
 */
module Pairing {

  /** A `std::pair`: two values, named as the standard library names them. */
  datatype Pair<A, B> = Pair(first: A, second: B)

  function Min(x: int, y: int): int
  {
    if x <= y then x else y
  }

  /** The first components of a sequence of pairs, in order. */
  function Firsts<T, U>(ps: seq<Pair<T, U>>): (r: seq<T>)
    ensures |r| == |ps|
    ensures forall k :: 0 <= k < |ps| ==> r[k] == ps[k].first
  {
    if ps == [] then [] else [ps[0].first] + Firsts(ps[1..])
  }

  /** The second components of a sequence of pairs, in order. */
  function Seconds<T, U>(ps: seq<Pair<T, U>>): (r: seq<U>)
    ensures |r| == |ps|
    ensures forall k :: 0 <= k < |ps| ==> r[k] == ps[k].second
  {
    if ps == [] then [] else [ps[0].second] + Seconds(ps[1..])
  }

  /** The indices 0, 1, ..., n - 1 in increasing order. */
  function Indices(n: nat): (r: seq<nat>)
    ensures |r| == n
    ensures forall i :: 0 <= i < n ==> r[i] == i
  {
    if n == 0 then [] else Indices(n - 1) + [n - 1]
  }

  /**
   * Reference zip: pair the heads while neither sequence is exhausted.
   * The result is as long as the shorter input and its k-th pair holds
   * the k-th element of each input.
   */
  function Zipped<T, U>(a: seq<T>, b: seq<U>): (r: seq<Pair<T, U>>)
    ensures |r| == Min(|a|, |b|)
    ensures forall k :: 0 <= k < |r| ==> r[k] == Pair(a[k], b[k])
  {
    if a == [] || b == [] then [] else [Pair(a[0], b[0])] + Zipped(a[1..], b[1..])
  }

  /** Unzipping a zip gives back the common-length prefixes of both inputs. */
  lemma UnzipZipped<T, U>(a: seq<T>, b: seq<U>)
    ensures Firsts(Zipped(a, b)) == a[..Min(|a|, |b|)]
    ensures Seconds(Zipped(a, b)) == b[..Min(|a|, |b|)]
  {
  }

  /** Zipping the two halves of a sequence of pairs rebuilds it. */
  lemma ZippedUnzip<T, U>(ps: seq<Pair<T, U>>)
    ensures Zipped(Firsts(ps), Seconds(ps)) == ps
  {
  }

  /**
   * zip: the loop advances both iterators together and stops as soon as
   * either reaches its end. Its third guard, `i < last_idx` with `last_idx`
   * the larger of the two sizes, is kept although it never decides the exit.
   * The iterators are the index `i` into each sequence.
   */
  method Zip<T, U>(first: seq<T>, second: seq<U>) returns (zips: seq<Pair<T, U>>)
    ensures |zips| == Min(|first|, |second|)
    ensures forall k :: 0 <= k < |zips| ==> zips[k] == Pair(first[k], second[k])
  {
    zips := [];
    var lastIdx := if |first| > |second| then |first| else |second|;
    var i := 0;
    while i < |first| && i < |second| && i < lastIdx
      invariant 0 <= i <= Min(|first|, |second|)
      invariant |zips| == i
      invariant forall k :: 0 <= k < i ==> zips[k] == Pair(first[k], second[k])
    {
      zips := zips + [Pair(first[i], second[i])];
      i := i + 1;
    }
  }

  /**
   * enumerate: walk the container once, pairing each element with a counter
   * that starts at 0 and is incremented after every element.
   */
  method Enumerate<T>(c: seq<T>) returns (enumerated: seq<Pair<nat, T>>)
    ensures |enumerated| == |c|
    ensures forall i :: 0 <= i < |c| ==> enumerated[i] == Pair(i, c[i])
    ensures enumerated == Zipped(Indices(|c|), c)
  {
    var i: nat := 0;
    enumerated := [];
    while i < |c|
      invariant i <= |c|
      invariant |enumerated| == i
      invariant forall k :: 0 <= k < i ==> enumerated[k] == Pair(k, c[k])
    {
      enumerated := enumerated + [Pair(i, c[i])];
      i := i + 1;
    }
  }
}
