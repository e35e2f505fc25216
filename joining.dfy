/**
 * `join`: concatenate the strings of a container, with the delimiter between
 * consecutive elements and not after the last. The loop runs over
 * `enumerate(c)` and adds the delimiter after element `idx` only when
 * `idx < c.size() - 1`. Elements are taken to be strings already.
 */
module Joining {
  import opened Pairing

  /**
   * Reference join: c[0] + d + c[1] + ... + d + c[n-1]. It peels the last
   * element so that it lines up with a loop that has consumed a prefix of `c`.
   */
  function Intercalate(c: seq<string>, d: string): string
  {
    if |c| == 0 then []
    else if |c| == 1 then c[0]
    else Intercalate(c[..|c| - 1], d) + d + c[|c| - 1]
  }

  /** The sum of the lengths of the strings in `c`. */
  function TotalLength(c: seq<string>): nat
  {
    if c == [] then 0 else TotalLength(c[..|c| - 1]) + |c[|c| - 1]|
  }

  /** Read from the front: the first element, the delimiter, then the join of the rest. */
  lemma {:induction false} IntercalateFront(c: seq<string>, d: string)
    requires |c| >= 2
    ensures Intercalate(c, d) == c[0] + d + Intercalate(c[1..], d)
    decreases |c|
  {
    var init := c[..|c| - 1];
    if |c| == 2 {
      assert c[1..] == [c[1]];
    } else {
      IntercalateFront(init, d);
      assert init[1..] == c[1..][..|c[1..]| - 1];
      assert init[0] == c[0];
    }
  }

  /** A join of n >= 1 strings is as long as the strings plus n - 1 delimiters. */
  lemma {:induction false} IntercalateLength(c: seq<string>, d: string)
    requires |c| >= 1
    ensures |Intercalate(c, d)| == TotalLength(c) + (|c| - 1) * |d|
    decreases |c|
  {
    if |c| == 1 {
      assert c[..0] == [];
    } else {
      IntercalateLength(c[..|c| - 1], d);
    }
  }

  /** The join of one more element of `c`. */
  lemma IntercalateStep(c: seq<string>, d: string, k: nat)
    requires k < |c|
    ensures Intercalate(c[..k + 1], d) == if k == 0 then c[0] else Intercalate(c[..k], d) + d + c[k]
  {
    assert c[..k + 1][..k] == c[..k];
  }

  /**
   * The join loop over `enumerate(c)`. After element `idx` the string holds
   * the join of c[..idx + 1], followed by the delimiter unless `idx` is the
   * last index.
   */
  method Join(c: seq<string>, d: string) returns (joined: string)
    ensures joined == Intercalate(c, d)
    ensures |c| == 0 ==> joined == []
    ensures |c| == 1 ==> joined == c[0]
  {
    joined := [];
    var enumerated := Enumerate(c);
    var k := 0;
    while k < |enumerated|
      invariant k <= |c|
      invariant joined == if k == 0 then [] else Intercalate(c[..k], d) + (if k < |c| then d else [])
    {
      var Pair(idx, chunk) := enumerated[k];
      assert idx == k && chunk == c[k];
      IntercalateStep(c, d, k);
      joined := joined + chunk;
      if idx < |c| - 1 {
        joined := joined + d;
      }
      k := k + 1;
    }
    assert c[..k] == c;
  }
}
