/**
 * `split(s, delimiter)` with a single-character delimiter.
 *
 * The loop appends each non-delimiter character to the current token; at a
 * delimiter it pushes the token if it is non-empty and resets it; at the last
 * character, if that is not a delimiter, it pushes the (then non-empty)
 * token. Its reference is `Tokens`: cut `s` at every delimiter (`Pieces`,
 * empty pieces included) and keep the non-empty pieces.
 */
module Tokenize {
  import Comprehension
  import Joining

  /** The number of occurrences of `d` in `s`. */
  function Count(s: string, d: char): nat
  {
    if s == [] then 0
    else Count(s[..|s| - 1], d) + (if s[|s| - 1] == d then 1 else 0)
  }

  /** `s` with every occurrence of `d` removed. */
  function Remove(s: string, d: char): (r: string)
    ensures d !in r
    ensures |r| + Count(s, d) == |s|
  {
    if s == [] then []
    else Remove(s[..|s| - 1], d) + (if s[|s| - 1] == d then [] else [s[|s| - 1]])
  }

  /** The concatenation of a sequence of strings, in order. */
  function Concat(ts: seq<string>): string
  {
    if ts == [] then [] else Concat(ts[..|ts| - 1]) + ts[|ts| - 1]
  }

  /**
   * `s` cut at every occurrence of `d`: the text before the first delimiter,
   * between consecutive delimiters and after the last one, empty pieces
   * included. There is one piece more than there are delimiters, and no
   * piece contains the delimiter.
   */
  function Pieces(s: string, d: char): (r: seq<string>)
    ensures |r| == Count(s, d) + 1
  {
    if s == [] then [[]]
    else
      var p := Pieces(s[..|s| - 1], d);
      if s[|s| - 1] == d then p + [[]]
      else p[..|p| - 1] + [p[|p| - 1] + [s[|s| - 1]]]
  }

  /** No piece contains the delimiter. */
  lemma {:induction false} PiecesDelimiterFree(s: string, d: char)
    ensures forall t :: t in Pieces(s, d) ==> d !in t
  {
    if s != [] {
      var s' := s[..|s| - 1];
      PiecesDelimiterFree(s', d);
      var p := Pieces(s', d);
      if s[|s| - 1] != d {
        assert Last(p) in p;
        assert forall t :: t in Init(p) ==> t in p;
      }
    }
  }

  /** A token is a non-empty piece. */
  function IsToken(t: string): bool
  {
    t != []
  }

  /**
   * What `split` returns: the non-empty pieces in left-to-right order. No
   * token is empty, none contains the delimiter, and there are at most one
   * more tokens than delimiters.
   */
  function Tokens(s: string, d: char): (r: seq<string>)
    ensures forall t :: t in r ==> t != [] && d !in t
    ensures |r| <= Count(s, d) + 1
  {
    PiecesDelimiterFree(s, d);
    Comprehension.FilterMembers(Pieces(s, d), IsToken);
    Comprehension.Filter(Pieces(s, d), IsToken)
  }

  function Last<T>(xs: seq<T>): T
    requires xs != []
  {
    xs[|xs| - 1]
  }

  function Init<T>(xs: seq<T>): seq<T>
    requires xs != []
  {
    xs[..|xs| - 1]
  }

  /** Closing the last piece `curr` of `p` pushes it onto the tokens exactly when it is non-empty. */
  lemma FilterLastPiece(p: seq<string>, curr: string, splits: seq<string>)
    requires p != [] && curr == Last(p)
    requires splits == Comprehension.Filter(Init(p), IsToken)
    ensures Comprehension.Filter(p, IsToken) == splits + (if curr != [] then [curr] else [])
  {
    Comprehension.FilterSnoc(Init(p), curr, IsToken);
    assert p == Init(p) + [curr];
  }

  /** How the pieces of s[..i + 1] arise from those of s[..i]. */
  lemma PiecesStep(s: string, d: char, i: nat)
    requires i < |s|
    ensures s[i] == d ==> Pieces(s[..i + 1], d) == Pieces(s[..i], d) + [[]]
    ensures s[i] != d ==>
      var p := Pieces(s[..i], d);
      Pieces(s[..i + 1], d) == Init(p) + [Last(p) + [s[i]]]
  {
    assert s[..i + 1][..i] == s[..i];
  }

  /**
   * The `split` loop. `curr` is the token being accumulated; the loop index
   * is a `nat`, where the source compares an `int` against the string's size.
   */
  method Split(s: string, delimiter: char) returns (splits: seq<string>)
    ensures splits == Tokens(s, delimiter)
  {
    splits := [];
    var curr: string := [];
    for i := 0 to |s|
      invariant curr == Last(Pieces(s[..i], delimiter))
      invariant i < |s| ==> splits == Comprehension.Filter(Init(Pieces(s[..i], delimiter)), IsToken)
      invariant i == |s| ==> splits == Comprehension.Filter(Pieces(s[..i], delimiter), IsToken)
    {
      ghost var p := Pieces(s[..i], delimiter);
      PiecesStep(s, delimiter, i);
      if s[i] == delimiter {
        FilterLastPiece(p, curr, splits);
        if curr != [] {
          splits := splits + [curr];
        }
        curr := [];
        Comprehension.FilterSnoc(p, [], IsToken);
        assert Init(p + [[]]) == p;
        continue;
      }
      curr := curr + [s[i]];
      assert Init(Init(p) + [curr]) == Init(p);
      if i == |s| - 1 && curr != [] {
        Comprehension.FilterSnoc(Init(p), curr, IsToken);
        splits := splits + [curr];
      }
    }
    assert s[..|s|] == s;
  }

  /** Gluing the pieces back together gives `s` without its delimiters. */
  lemma {:induction false} PiecesConcat(s: string, d: char)
    ensures Concat(Pieces(s, d)) == Remove(s, d)
  {
    if s != [] {
      var s' := s[..|s| - 1];
      var p := Pieces(s', d);
      PiecesConcat(s', d);
      if s[|s| - 1] == d {
        assert (p + [[]])[..|p|] == p;
      } else {
        var q := Init(p) + [Last(p) + [s[|s| - 1]]];
        assert q[..|q| - 1] == Init(p);
        assert p == Init(p) + [Last(p)];
      }
    }
  }

  /** Dropping empty strings does not change a concatenation. */
  lemma {:induction false} ConcatTokens(ts: seq<string>)
    ensures Concat(Comprehension.Filter(ts, IsToken)) == Concat(ts)
  {
    if ts != [] {
      var ts' := Init(ts);
      ConcatTokens(ts');
      Comprehension.FilterSnoc(ts', Last(ts), IsToken);
      assert ts == ts' + [Last(ts)];
      var f := Comprehension.Filter(ts', IsToken);
      assert Concat(ts) == Concat(ts') + Last(ts);
      if IsToken(Last(ts)) {
        assert (f + [Last(ts)])[..|f|] == f;
      } else {
        assert Concat(ts') + Last(ts) == Concat(ts');
        assert f + [] == f;
      }
    }
  }

  /** The tokens, concatenated in order, are `s` with every delimiter removed. */
  lemma TokensConcat(s: string, d: char)
    ensures Concat(Tokens(s, d)) == Remove(s, d)
  {
    PiecesConcat(s, d);
    ConcatTokens(Pieces(s, d));
  }

  /** Nothing is left after removing `d` exactly when every character is `d`. */
  lemma {:induction false} RemoveEmpty(s: string, d: char)
    ensures Remove(s, d) == [] <==> forall i :: 0 <= i < |s| ==> s[i] == d
  {
    if s != [] {
      var s' := s[..|s| - 1];
      RemoveEmpty(s', d);
      if Remove(s, d) == [] {
        forall i | 0 <= i < |s| ensures s[i] == d {
          if i < |s| - 1 { assert s[i] == s'[i]; }
        }
      }
      if forall i :: 0 <= i < |s| ==> s[i] == d {
        assert forall i :: 0 <= i < |s'| ==> s'[i] == s[i];
      }
    }
  }

  /** A concatenation of non-empty strings is empty only when there are none. */
  lemma {:induction false} ConcatOfTokensEmpty(ts: seq<string>)
    requires forall t :: t in ts ==> t != []
    ensures Concat(ts) == [] <==> ts == []
  {
    if ts != [] {
      assert Last(ts) in ts;
    }
  }

  /**
   * `split` returns no token exactly when `s` is empty or consists of
   * delimiters only.
   */
  lemma TokensEmpty(s: string, d: char)
    ensures Tokens(s, d) == [] <==> forall i :: 0 <= i < |s| ==> s[i] == d
  {
    TokensConcat(s, d);
    RemoveEmpty(s, d);
    ConcatOfTokensEmpty(Tokens(s, d));
  }

  /** A string without the delimiter is a single piece. */
  lemma {:induction false} PiecesPlain(t: string, d: char)
    requires d !in t
    ensures Pieces(t, d) == [t]
  {
    if t != [] {
      var t' := t[..|t| - 1];
      assert d !in t' by {
        forall i | 0 <= i < |t'| ensures t'[i] != d { assert t'[i] == t[i]; }
      }
      PiecesPlain(t', d);
      assert t == t' + [t[|t| - 1]];
    }
  }

  /** A non-empty `s` without the delimiter is returned as the only token. */
  lemma TokensWhole(s: string, d: char)
    requires s != [] && d !in s
    ensures Tokens(s, d) == [s]
  {
    PiecesPlain(s, d);
    Comprehension.FilterSnoc([], s, IsToken);
  }

  /** Joining the pieces with the delimiter rebuilds `s`: cutting loses nothing. */
  lemma {:induction false} JoinPieces(s: string, d: char)
    ensures Joining.Intercalate(Pieces(s, d), [d]) == s
  {
    if s != [] {
      var s' := s[..|s| - 1];
      var p := Pieces(s', d);
      JoinPieces(s', d);
      assert s == s' + [s[|s| - 1]];
      if s[|s| - 1] == d {
        assert (p + [[]])[..|p|] == p;
      } else {
        var q := Init(p) + [Last(p) + [s[|s| - 1]]];
        assert q[..|q| - 1] == Init(p);
        if |p| > 1 {
          assert p == Init(p) + [Last(p)];
        }
      }
    }
  }

  /** Appending a delimiter and a delimiter-free string appends one piece. */
  lemma {:induction false} PiecesAppend(x: string, d: char, t: string)
    requires d !in t
    ensures Pieces(x + [d] + t, d) == Pieces(x, d) + [t]
    decreases |t|
  {
    var w := x + [d] + t;
    if t == [] {
      assert w[..|w| - 1] == x;
    } else {
      var t' := t[..|t| - 1];
      assert d !in t' by {
        forall i | 0 <= i < |t'| ensures t'[i] != d { assert t'[i] == t[i]; }
      }
      PiecesAppend(x, d, t');
      assert w[..|w| - 1] == x + [d] + t';
      assert t == t' + [t[|t| - 1]];
      var p := Pieces(x, d) + [t'];
      assert Init(p) == Pieces(x, d);
    }
  }

  /** Cutting a join of delimiter-free strings at the delimiter gives them back. */
  lemma {:induction false} PiecesOfJoin(ts: seq<string>, d: char)
    requires |ts| >= 1
    requires forall t :: t in ts ==> d !in t
    ensures Pieces(Joining.Intercalate(ts, [d]), d) == ts
  {
    if |ts| == 1 {
      PiecesPlain(ts[0], d);
    } else {
      var ts' := Init(ts);
      assert forall t :: t in ts' ==> t in ts;
      PiecesOfJoin(ts', d);
      assert Last(ts) in ts;
      PiecesAppend(Joining.Intercalate(ts', [d]), d, Last(ts));
      assert ts == ts' + [Last(ts)];
    }
  }

  /**
   * Round trip from tokens: splitting the join of non-empty, delimiter-free
   * strings returns exactly those strings.
   */
  lemma SplitJoin(ts: seq<string>, d: char)
    requires forall t :: t in ts ==> t != [] && d !in t
    ensures Tokens(Joining.Intercalate(ts, [d]), d) == ts
  {
    if ts != [] {
      PiecesOfJoin(ts, d);
    }
    assert forall i :: 0 <= i < |ts| ==> ts[i] in ts;
    Comprehension.FilterKeepAll(ts, IsToken);
  }

  /**
   * `s` is non-empty and has no leading, trailing or doubled delimiter, so
   * that no piece of it is empty.
   */
  predicate Separated(s: string, d: char)
  {
    s != [] && s[0] != d && s[|s| - 1] != d &&
    forall i :: 0 < i < |s| && s[i] == d ==> s[i - 1] != d
  }

  /**
   * Without a leading or doubled delimiter, every piece but the last is
   * non-empty, and the last is empty exactly when `s` is empty or ends with
   * the delimiter.
   */
  lemma {:induction false} PiecesNonEmpty(s: string, d: char)
    requires |s| > 0 ==> s[0] != d
    requires forall i :: 0 < i < |s| && s[i] == d ==> s[i - 1] != d
    ensures forall k :: 0 <= k < |Pieces(s, d)| - 1 ==> Pieces(s, d)[k] != []
    ensures Last(Pieces(s, d)) == [] <==> s == [] || s[|s| - 1] == d
  {
    if s != [] {
      var s' := s[..|s| - 1];
      assert forall i :: 0 <= i < |s'| ==> s'[i] == s[i];
      PiecesNonEmpty(s', d);
    }
  }

  /**
   * Round trip from the string: when no piece of `s` is empty, joining the
   * tokens with the delimiter rebuilds `s`.
   */
  lemma JoinSplit(s: string, d: char)
    requires Separated(s, d)
    ensures Joining.Intercalate(Tokens(s, d), [d]) == s
  {
    PiecesNonEmpty(s, d);
    var p := Pieces(s, d);
    assert forall k :: 0 <= k < |p| ==> IsToken(p[k]);
    Comprehension.FilterKeepAll(p, IsToken);
    JoinPieces(s, d);
  }
}
