/** Shared vocabulary: bytes, optional values, substring search, and the
    sequence folds the engine's loops are specified with. */
module Base {

  /** An octet, as Python's `bytes` holds them. */
  newtype Byte = b: int | 0 <= b < 256

  datatype Option<T> = None | Some(value: T)

  datatype Result<T, E> = Ok(value: T) | Err(error: E)

  function Min(a: int, b: int): int { if a <= b then a else b }

  /** `pat` occurs in `hay` starting at index `i`. */
  predicate MatchAt<T(==)>(hay: seq<T>, pat: seq<T>, i: int)
  {
    0 <= i && i + |pat| <= |hay| && hay[i..i + |pat|] == pat
  }

  /** Python's `pat in hay` for `str` and `bytes`: some window of `hay` equals `pat`.
      The empty pattern is found in every sequence. */
  function Contains<T(==)>(hay: seq<T>, pat: seq<T>): (r: bool)
    ensures r <==> exists i :: MatchAt(hay, pat, i)
    decreases |hay|
  {
    if |pat| > |hay| then false
    else if hay[..|pat|] == pat then assert MatchAt(hay, pat, 0); true
    else
      var r := Contains(hay[1..], pat);
      assert r ==> exists i :: MatchAt(hay, pat, i) by {
        if r {
          var j :| MatchAt(hay[1..], pat, j);
          assert hay[j + 1..j + 1 + |pat|] == hay[1..][j..j + |pat|];
          assert MatchAt(hay, pat, j + 1);
        }
      }
      assert (exists i :: MatchAt(hay, pat, i)) ==> r by {
        if exists i :: MatchAt(hay, pat, i) {
          var i :| MatchAt(hay, pat, i);
          assert i != 0;
          assert hay[1..][i - 1..i - 1 + |pat|] == hay[i..i + |pat|];
          assert MatchAt(hay[1..], pat, i - 1);
        }
      }
      r
  }

  /** Python's `any(p in s for p in patterns)`. */
  predicate AnyContains(patterns: seq<string>, s: string)
  {
    exists k :: 0 <= k < |patterns| && Contains(s, patterns[k])
  }

  /** Python's `s.startswith(prefix)`. */
  predicate StartsWith<T(==)>(s: seq<T>, prefix: seq<T>)
  {
    |prefix| <= |s| && s[..|prefix|] == prefix
  }

  /** The bytes of successive chunks, written out one after the other. */
  function Flatten<T>(chunks: seq<seq<T>>): seq<T>
  {
    if chunks == [] then [] else Flatten(chunks[..|chunks| - 1]) + chunks[|chunks| - 1]
  }

  /** Appending a chunk to an append-only sink appends its bytes. */
  lemma FlattenSnoc<T>(chunks: seq<seq<T>>, c: seq<T>)
    ensures Flatten(chunks + [c]) == Flatten(chunks) + c
  {
    assert (chunks + [c])[..|chunks|] == chunks;
  }

  /** The order-preserving sub-sequence of `s` whose elements satisfy `keep`. */
  function Filter<T>(s: seq<T>, keep: T -> bool): (r: seq<T>)
    ensures |r| <= |s|
  {
    if s == [] then []
    else Filter(s[..|s| - 1], keep) + (if keep(s[|s| - 1]) then [s[|s| - 1]] else [])
  }

  /** One step of a left-to-right loop over `s` extends the filtered prefix. */
  lemma FilterSnoc<T>(s: seq<T>, x: T, keep: T -> bool)
    ensures Filter(s + [x], keep) == Filter(s, keep) + (if keep(x) then [x] else [])
  {
    assert (s + [x])[..|s|] == s;
  }

  /** An element is kept exactly when it occurs in `s` and satisfies `keep`. */
  lemma {:induction false} FilterMembership<T>(s: seq<T>, keep: T -> bool, x: T)
    ensures x in Filter(s, keep) <==> x in s && keep(x)
    decreases |s|
  {
    if s != [] {
      var init := s[..|s| - 1];
      FilterMembership(init, keep, x);
      assert s == init + [s[|s| - 1]];
    }
  }

  /** A filter whose test every element passes keeps the whole sequence. */
  lemma {:induction false} FilterAll<T>(s: seq<T>, keep: T -> bool)
    requires forall k :: 0 <= k < |s| ==> keep(s[k])
    ensures Filter(s, keep) == s
    decreases |s|
  {
    if s != [] {
      FilterAll(s[..|s| - 1], keep);
      assert s == s[..|s| - 1] + [s[|s| - 1]];
    }
  }
}
