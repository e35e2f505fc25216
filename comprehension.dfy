/**
 * `list_comprehension` and `set_comprehension`, each with and without a
 * predicate. Every one is a range-for over the container that copies the
 * elements it keeps into a fresh vector (`push_back`) or set (`insert`).
 * A predicate is a total function `T -> bool`.
 */
module Comprehension {

  /**
   * Reference filter: the elements of `c` satisfying `pred`, in their
   * original order. It peels the last element so that it lines up with a
   * loop that has consumed a prefix of `c`.
   */
  function Filter<T>(c: seq<T>, pred: T -> bool): (r: seq<T>)
    ensures |r| <= |c|
  {
    if c == [] then []
    else Filter(c[..|c| - 1], pred) + (if pred(c[|c| - 1]) then [c[|c| - 1]] else [])
  }

  /** The filtered sequence holds exactly the elements of `c` that satisfy `pred`. */
  lemma {:induction false} FilterMembers<T>(c: seq<T>, pred: T -> bool)
    ensures forall x :: x in Filter(c, pred) ==> x in c && pred(x)
    ensures forall i :: 0 <= i < |c| && pred(c[i]) ==> c[i] in Filter(c, pred)
  {
    if c != [] {
      var c' := c[..|c| - 1];
      FilterMembers(c', pred);
      assert c == c' + [c[|c| - 1]];
      assert forall i :: 0 <= i < |c'| ==> c'[i] == c[i];
    }
  }

  /** Filtering one more element appends it exactly when it passes. */
  lemma FilterSnoc<T>(c: seq<T>, x: T, pred: T -> bool)
    ensures Filter(c + [x], pred) == Filter(c, pred) + (if pred(x) then [x] else [])
  {
    assert (c + [x])[..|c|] == c;
  }

  /** Filtering distributes over concatenation: the order of `c` is kept. */
  lemma {:induction false} FilterAppend<T>(a: seq<T>, b: seq<T>, pred: T -> bool)
    ensures Filter(a + b, pred) == Filter(a, pred) + Filter(b, pred)
    decreases |b|
  {
    if b == [] {
      assert a + b == a;
    } else {
      var b' := b[..|b| - 1];
      var x := b[|b| - 1];
      assert b == b' + [x];
      assert a + b == (a + b') + [x];
      FilterAppend(a, b', pred);
      FilterSnoc(a + b', x, pred);
      FilterSnoc(b', x, pred);
    }
  }

  /**
   * Each value occurs in the filtered sequence as often as in `c` when it
   * passes, and not at all when it fails: exactly the passing elements.
   */
  lemma {:induction false} FilterMultiplicity<T>(c: seq<T>, pred: T -> bool, x: T)
    ensures multiset(Filter(c, pred))[x] == if pred(x) then multiset(c)[x] else 0
  {
    if c != [] {
      var c' := c[..|c| - 1];
      var y := c[|c| - 1];
      assert c == c' + [y];
      FilterMultiplicity(c', pred, x);
      FilterSnoc(c', y, pred);
    }
  }

  /** A predicate that every element passes leaves the sequence unchanged. */
  lemma {:induction false} FilterKeepAll<T>(c: seq<T>, pred: T -> bool)
    requires forall i :: 0 <= i < |c| ==> pred(c[i])
    ensures Filter(c, pred) == c
  {
    if c != [] {
      var c' := c[..|c| - 1];
      FilterKeepAll(c', pred);
      assert c == c' + [c[|c| - 1]];
    }
  }

  /** The elements of `c`, duplicates collapsed. */
  function Elements<T(==)>(c: seq<T>): (r: set<T>)
    ensures forall x :: x in r ==> x in c
    ensures forall i :: 0 <= i < |c| ==> c[i] in r
    ensures |r| <= |c|
  {
    if c == [] then {}
    else
      assert c == c[..|c| - 1] + [c[|c| - 1]];
      Elements(c[..|c| - 1]) + {c[|c| - 1]}
  }

  /** The unfiltered `list_comprehension`: an element-by-element copy. */
  method ListComprehension<T>(c: seq<T>) returns (vec: seq<T>)
    ensures vec == c
  {
    vec := [];
    var i := 0;
    while i < |c|
      invariant i <= |c|
      invariant vec == c[..i]
    {
      vec := vec + [c[i]];
      i := i + 1;
    }
  }

  /** `list_comprehension` with a predicate: keep the passing elements in order. */
  method ListComprehensionWhere<T(==)>(c: seq<T>, pred: T -> bool) returns (vec: seq<T>)
    ensures vec == Filter(c, pred)
  {
    vec := [];
    var i := 0;
    while i < |c|
      invariant i <= |c|
      invariant vec == Filter(c[..i], pred)
    {
      FilterSnoc(c[..i], c[i], pred);
      assert c[..i + 1] == c[..i] + [c[i]];
      if pred(c[i]) {
        vec := vec + [c[i]];
      }
      i := i + 1;
    }
    assert c[..i] == c;
  }

  /**
   * The unfiltered `set_comprehension`: insert every element into a set, so
   * the set holds exactly the elements of `c` and never more than |c| of them.
   */
  method SetComprehension<T(==)>(c: seq<T>) returns (s: set<T>)
    ensures forall x :: x in s <==> x in c
    ensures |s| <= |c|
  {
    s := {};
    var i := 0;
    while i < |c|
      invariant i <= |c|
      invariant s == Elements(c[..i])
    {
      assert c[..i + 1] == c[..i] + [c[i]];
      s := s + {c[i]};
      i := i + 1;
    }
    assert c[..i] == c;
  }

  /**
   * `set_comprehension` with a predicate: insert the passing elements, so the
   * set holds exactly the elements of `c` that satisfy `pred`.
   */
  method SetComprehensionWhere<T(==)>(c: seq<T>, pred: T -> bool) returns (s: set<T>)
    ensures forall x :: x in s <==> x in c && pred(x)
  {
    s := {};
    var i := 0;
    while i < |c|
      invariant i <= |c|
      invariant forall x :: x in s ==> x in c[..i] && pred(x)
      invariant forall k :: 0 <= k < i && pred(c[k]) ==> c[k] in s
    {
      assert c[..i + 1] == c[..i] + [c[i]];
      if pred(c[i]) {
        s := s + {c[i]};
      }
      i := i + 1;
    }
    assert c[..i] == c;
  }

  function NotX(ch: char): bool
  {
    ch != 'x'
  }

  /**
   * The demonstration program's call: the characters other than 'x' of its
   * sample sentence, collected into a set.
   */
  method Sample() returns (x: set<char>)
    ensures x == {'H', 'i', 'm', 'y', 'n', 'a', 'e', 's', 'J', 'h'}
  {
    var s := "HixmyxnamexisxJamesxhixxxxxx";
    x := SetComprehensionWhere(s, NotX);
    assert s[0] == 'H' && s[1] == 'i' && s[3] == 'm' && s[4] == 'y' && s[6] == 'n';
    assert s[7] == 'a' && s[9] == 'e' && s[12] == 's' && s[14] == 'J' && s[20] == 'h';
  }
}
