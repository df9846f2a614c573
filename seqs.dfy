/**
 * Binary-safe searching and splitting of sequences, as Python's `in`
 * operator and `split` method do them on `bytes` and `str` values.
 */
module Seqs {
  import opened Wrappers

  /** `pat` occurs in `s` starting at index `i`. */
  predicate OccursAt<T(==)>(s: seq<T>, pat: seq<T>, i: int)
  {
    0 <= i && i + |pat| <= |s| && s[i..i + |pat|] == pat
  }

  /** Scans `s` from the cursor `from` for the first occurrence of `pat`. */
  function IndexFrom<T(==)>(s: seq<T>, pat: seq<T>, from: nat): (r: Option<nat>)
    ensures r.Some? ==> from <= r.value && OccursAt(s, pat, r.value)
    ensures r.Some? ==> forall j :: from <= j < r.value ==> !OccursAt(s, pat, j)
    ensures r.None? ==> forall j :: from <= j ==> !OccursAt(s, pat, j)
    decreases |s| - from
  {
    if |s| < from + |pat| then None
    else if OccursAt(s, pat, from) then Some(from)
    else IndexFrom(s, pat, from + 1)
  }

  /** Python's `pat in s`. */
  function Contains<T(==)>(s: seq<T>, pat: seq<T>): (b: bool)
    ensures b <==> exists i :: OccursAt(s, pat, i)
  {
    IndexFrom(s, pat, 0).Some?
  }

  /** Occurrences in a prefix are occurrences in the whole sequence. */
  lemma OccursInPrefix<T>(s: seq<T>, pat: seq<T>, n: nat, j: int)
    requires n <= |s| && OccursAt(s[..n], pat, j)
    ensures OccursAt(s, pat, j)
  {
    assert s[..n][j..j + |pat|] == s[j..j + |pat|];
  }

  /** Occurrences in a suffix are the occurrences of the whole sequence shifted by its offset. */
  lemma OccursInSuffix<T>(s: seq<T>, pat: seq<T>, n: nat, j: int)
    requires n <= |s|
    ensures OccursAt(s[n..], pat, j) <==> 0 <= j && OccursAt(s, pat, j + n)
  {
    if 0 <= j && j + |pat| <= |s| - n {
      assert s[n..][j..j + |pat|] == s[j + n..j + n + |pat|];
    }
  }

  /**
   * Python's `s.split(sep)` for a non-empty separator: the pieces between
   * the non-overlapping occurrences of `sep`, found left to right.
   */
  function Split<T(==)>(s: seq<T>, sep: seq<T>): (parts: seq<seq<T>>)
    requires |sep| > 0
    ensures |parts| >= 1
    ensures forall k :: 0 <= k < |parts| ==> !Contains(parts[k], sep)
    decreases |s|
  {
    match IndexFrom(s, sep, 0)
    case None => [s]
    case Some(i) =>
      var rest := Split(s[i + |sep|..], sep);
      assert !Contains(s[..i], sep) by {
        forall j | OccursAt(s[..i], sep, j) ensures false {
          OccursInPrefix(s, sep, i, j);
        }
      }
      [s[..i]] + rest
  }

  /** Python's `sep.join(parts)`. */
  function Join<T>(parts: seq<seq<T>>, sep: seq<T>): seq<T>
  {
    if parts == [] then []
    else if |parts| == 1 then parts[0]
    else parts[0] + sep + Join(parts[1..], sep)
  }

  /** Splitting loses nothing: joining the pieces with the separator gives back the input. */
  lemma {:induction false} JoinSplit<T>(s: seq<T>, sep: seq<T>)
    requires |sep| > 0
    ensures Join(Split(s, sep), sep) == s
    decreases |s|
  {
    match IndexFrom(s, sep, 0)
    case None =>
    case Some(i) =>
      var rest := s[i + |sep|..];
      var pieces := Split(rest, sep);
      JoinSplit(rest, sep);
      assert Split(s, sep) == [s[..i]] + pieces;
      assert ([s[..i]] + pieces)[1..] == pieces;
      assert Join([s[..i]] + pieces, sep) == s[..i] + sep + Join(pieces, sep);
      assert s[i..i + |sep|] == sep;
      assert s == s[..i] + s[i..i + |sep|] + rest;
  }

  /**
   * Every cut is at the leftmost occurrence: each piece but the last,
   * followed by the separator, first contains the separator right at its
   * end. With `Split`'s own contract (the last piece holds no separator) this
   * fixes the pieces Python's `split` returns, even for a separator that
   * overlaps itself.
   */
  lemma {:induction false} SplitCutsAtFirstOccurrence<T>(s: seq<T>, sep: seq<T>)
    requires |sep| > 0
    ensures forall k :: 0 <= k < |Split(s, sep)| - 1 ==>
              IndexFrom(Split(s, sep)[k] + sep, sep, 0) == Some(|Split(s, sep)[k]|)
    decreases |s|
  {
    match IndexFrom(s, sep, 0)
    case None =>
    case Some(i) =>
      var rest := s[i + |sep|..];
      assert Split(s, sep) == [s[..i]] + Split(rest, sep);
      SplitCutsAtFirstOccurrence(rest, sep);
      FirstCut(s, sep, i);
      FirstOccurrence(s[..i] + sep, sep, i);
  }

  /** The first occurrence is the one with no occurrence before it. */
  lemma FirstOccurrence<T>(s: seq<T>, pat: seq<T>, v: nat)
    requires OccursAt(s, pat, v) && forall j :: 0 <= j < v ==> !OccursAt(s, pat, j)
    ensures IndexFrom(s, pat, 0) == Some(v)
  {
    match IndexFrom(s, pat, 0)
    case None =>
    case Some(j) =>
  }

  /** The first piece, followed by the separator, holds its first occurrence at its end. */
  lemma FirstCut<T>(s: seq<T>, sep: seq<T>, i: nat)
    requires OccursAt(s, sep, i) && forall j :: 0 <= j < i ==> !OccursAt(s, sep, j)
    ensures OccursAt(s[..i] + sep, sep, i)
    ensures forall j :: 0 <= j < i ==> !OccursAt(s[..i] + sep, sep, j)
  {
    var head := s[..i] + sep;
    assert head[i..i + |sep|] == sep;
    assert s[..i + |sep|] == head[..i + |sep|] by {
      assert s[i..i + |sep|] == sep;
    }
    forall j | 0 <= j < i ensures !OccursAt(head, sep, j) {
      SamePrefixOccurrence(s, head, sep, i + |sep|, j);
    }
  }

  /** Two sequences that agree below `n` have the same occurrences ending by `n`. */
  lemma SamePrefixOccurrence<T>(s: seq<T>, t: seq<T>, pat: seq<T>, n: nat, j: nat)
    requires n <= |s| && n <= |t| && s[..n] == t[..n] && j + |pat| <= n
    ensures OccursAt(s, pat, j) <==> OccursAt(t, pat, j)
  {
    assert s[j..j + |pat|] == s[..n][j..j + |pat|];
    assert t[j..j + |pat|] == t[..n][j..j + |pat|];
  }

  /** An occurrence of a separator whose first element appears nowhere else in it excludes another one nearby. */
  lemma NoOverlap<T>(s: seq<T>, sep: seq<T>, i: int, k: int)
    requires |sep| > 0
    requires forall d :: 0 < d < |sep| ==> sep[d] != sep[0]
    requires OccursAt(s, sep, i) && OccursAt(s, sep, k) && i <= k
    ensures k == i || i + |sep| <= k
  {
    assert s[k] == sep[0] by {
      assert s[k..k + |sep|][0] == s[k];
    }
    assert k <= i || i + |sep| <= k || s[k] == sep[k - i] by {
      if i < k < i + |sep| {
        assert s[i..i + |sep|][k - i] == s[k];
      }
    }
  }

  /** The last piece of a split of `s`, the text `s.split(sep)[-1]`. */
  function LastPiece<T(==)>(s: seq<T>, sep: seq<T>): seq<T>
    requires |sep| > 0
  {
    Split(s, sep)[|Split(s, sep)| - 1]
  }

  /** The last piece of a split is the last piece of the split of what follows the first separator. */
  lemma LastPieceOfRest<T>(s: seq<T>, sep: seq<T>, i: nat)
    requires |sep| > 0 && IndexFrom(s, sep, 0) == Some(i)
    ensures LastPiece(s, sep) == LastPiece(s[i + |sep|..], sep)
  {
    var rest := Split(s[i + |sep|..], sep);
    assert Split(s, sep) == [s[..i]] + rest;
  }

  /** Without the separator, the last piece is the whole input. */
  lemma LastPieceWithoutSeparator<T>(s: seq<T>, sep: seq<T>)
    requires |sep| > 0 && forall i :: !OccursAt(s, sep, i)
    ensures LastPiece(s, sep) == s
  {
    assert IndexFrom(s, sep, 0).None?;
  }

  /** A join ends with its last part. */
  lemma {:induction false} JoinEndsWithLast<T>(parts: seq<seq<T>>, sep: seq<T>)
    requires |parts| >= 1
    ensures var last := parts[|parts| - 1];
            |last| <= |Join(parts, sep)| && Join(parts, sep)[|Join(parts, sep)| - |last|..] == last
  {
    if |parts| > 1 {
      var last := parts[|parts| - 1];
      var tail := Join(parts[1..], sep);
      JoinEndsWithLast(parts[1..], sep);
      assert parts[1..][|parts[1..]| - 1] == last;
      var head := parts[0] + sep;
      assert Join(parts, sep) == head + tail;
      assert (head + tail)[|head + tail| - |last|..] == tail[|tail| - |last|..];
    }
  }

  /** The last piece is a suffix of the input. */
  lemma LastPieceIsSuffix<T>(s: seq<T>, sep: seq<T>)
    requires |sep| > 0
    ensures |LastPiece(s, sep)| <= |s| && LastPiece(s, sep) == s[|s| - |LastPiece(s, sep)|..]
  {
    JoinSplit(s, sep);
    JoinEndsWithLast(Split(s, sep), sep);
  }

  /** The last piece holds no separator. */
  lemma LastPieceHasNoSeparator<T>(s: seq<T>, sep: seq<T>)
    requires |sep| > 0
    ensures !Contains(LastPiece(s, sep), sep)
  {
  }

  /** With a separator that cannot overlap itself, the last piece is what follows its last occurrence `k`. */
  lemma {:induction false} LastPieceAfterLastOccurrence<T>(s: seq<T>, sep: seq<T>, k: int)
    requires |sep| > 0
    requires forall d :: 0 < d < |sep| ==> sep[d] != sep[0]
    requires OccursAt(s, sep, k) && forall j :: k < j ==> !OccursAt(s, sep, j)
    ensures LastPiece(s, sep) == s[k + |sep|..]
    decreases |s|
  {
    var i := IndexFrom(s, sep, 0).value;
    var n := i + |sep|;
    var rest := s[n..];
    LastPieceOfRest(s, sep, i);
    NoOverlap(s, sep, i, k);
    if k == i {
      forall j ensures !OccursAt(rest, sep, j) {
        OccursInSuffix(s, sep, n, j);
      }
      LastPieceWithoutSeparator(rest, sep);
    } else {
      OccursInSuffix(s, sep, n, k - n);
      forall j | k - n < j ensures !OccursAt(rest, sep, j) {
        OccursInSuffix(s, sep, n, j);
      }
      LastPieceAfterLastOccurrence(rest, sep, k - n);
      assert rest[k - n + |sep|..] == s[k + |sep|..];
    }
  }
}
