/**
  The pixels the workers compute, the comparator that puts them in drawing
  order, and the sort that the compositor applies before the image is written.
 */
module Pixels {

  /** One computed pixel: column `x`, row `y` and the three colour channels. */
  datatype DrawPixel = DrawPixel(x: int, y: int, red: int, green: int, blue: int)

  /** The comparator given to the sort: by row, and within a row by column. */
  predicate CustomSort(a: DrawPixel, b: DrawPixel)
  {
    if a.y == b.y then a.x < b.x else a.y < b.y
  }

  /** Two pixels stand at the same place of the grid. */
  predicate SamePlace(a: DrawPixel, b: DrawPixel)
  {
    a.x == b.x && a.y == b.y
  }

  /**
    CustomSort is a strict weak order (what the sort demands of its
    comparator): irreflexive, asymmetric, transitive, and two pixels are
    incomparable exactly when they stand at the same place. It is the
    lexicographic order on (y, x).
   */
  lemma CustomSortIsStrictWeakOrder(a: DrawPixel, b: DrawPixel, c: DrawPixel)
    ensures !CustomSort(a, a)
    ensures CustomSort(a, b) ==> !CustomSort(b, a)
    ensures CustomSort(a, b) && CustomSort(b, c) ==> CustomSort(a, c)
    ensures (!CustomSort(a, b) && !CustomSort(b, a)) <==> SamePlace(a, b)
    ensures CustomSort(a, b) <==> a.y < b.y || (a.y == b.y && a.x < b.x)
  {
  }

  /** No pixel is preceded by one that CustomSort puts after it: what the sort guarantees. */
  predicate RowMajor(s: seq<DrawPixel>)
  {
    forall i, j :: 0 <= i < j < |s| ==> !CustomSort(s[j], s[i])
  }

  /** Every pixel comes strictly before each later one. */
  predicate StrictlyRowMajor(s: seq<DrawPixel>)
  {
    forall i, j :: 0 <= i < j < |s| ==> CustomSort(s[i], s[j])
  }

  /** A strictly ordered sequence holds each place of the grid at most once. */
  lemma StrictlyRowMajorPlacesAreDistinct(s: seq<DrawPixel>)
    requires StrictlyRowMajor(s)
    ensures RowMajor(s)
    ensures forall i, j :: 0 <= i < |s| && 0 <= j < |s| && i != j ==> !SamePlace(s[i], s[j])
  {
    forall i, j | 0 <= i < |s| && 0 <= j < |s| && i != j
      ensures !SamePlace(s[i], s[j])
    {
      if i < j {
        CustomSortIsStrictWeakOrder(s[i], s[j], s[j]);
      } else {
        CustomSortIsStrictWeakOrder(s[j], s[i], s[i]);
      }
    }
  }

  /** Putting in front of an ordered sequence a pixel that none of it comes before keeps it ordered. */
  lemma PrependKeepsOrder(x: DrawPixel, rest: seq<DrawPixel>)
    requires RowMajor(rest)
    requires forall k :: 0 <= k < |rest| ==> !CustomSort(rest[k], x)
    ensures RowMajor([x] + rest)
  {
    var r := [x] + rest;
    forall i, j | 0 <= i < j < |r|
      ensures !CustomSort(r[j], r[i])
    {
      assert r[j] == rest[j - 1];
      if i > 0 {
        assert r[i] == rest[i - 1];
      }
    }
  }

  /** No pixel of `s` after the first, and not `p` either, comes before the first pixel of `s`. */
  lemma NoneBeforeFirst(p: DrawPixel, s: seq<DrawPixel>, rest: seq<DrawPixel>)
    requires RowMajor(s) && s != [] && CustomSort(s[0], p)
    requires multiset(rest) == multiset(s[1..]) + multiset{p}
    ensures forall k :: 0 <= k < |rest| ==> !CustomSort(rest[k], s[0])
  {
    forall k | 0 <= k < |rest|
      ensures !CustomSort(rest[k], s[0])
    {
      assert rest[k] in multiset(rest);
      if rest[k] == p {
        CustomSortIsStrictWeakOrder(s[0], p, p);
      } else {
        assert rest[k] in multiset(s[1..]);
        var m :| 0 <= m < |s[1..]| && s[1..][m] == rest[k];
        assert s[m + 1] == rest[k];
      }
    }
  }

  /** Inserts `p` into the ordered `s` before the first pixel that does not come strictly before it. */
  function Insert(p: DrawPixel, s: seq<DrawPixel>): (r: seq<DrawPixel>)
    requires RowMajor(s)
    ensures RowMajor(r)
    ensures multiset(r) == multiset(s) + multiset{p}
  {
    if s == [] then [p]
    else if CustomSort(s[0], p) then
      var rest := Insert(p, s[1..]);
      assert s == [s[0]] + s[1..];
      NoneBeforeFirst(p, s, rest);
      PrependKeepsOrder(s[0], rest);
      [s[0]] + rest
    else
      assert forall k :: 0 <= k < |s| ==> !CustomSort(s[k], p) by {
        forall k | 0 <= k < |s|
          ensures !CustomSort(s[k], p)
        {
          if k > 0 {
            CustomSortIsStrictWeakOrder(s[k], p, s[0]);
          }
        }
      }
      PrependKeepsOrder(p, s);
      [p] + s
  }

  /**
    The sort of the collected pixels with CustomSort, by insertion. Only its
    result matters: an ordered permutation of its input.
   */
  function SortPixels(s: seq<DrawPixel>): (r: seq<DrawPixel>)
    ensures RowMajor(r)
    ensures multiset(r) == multiset(s)
    ensures |r| == |s|
  {
    if s == [] then []
    else
      assert s == [s[0]] + s[1..];
      Insert(s[0], SortPixels(s[1..]))
  }

  /** The first pixel of an ordered permutation of a strictly ordered sequence is its first pixel. */
  lemma FirstOfOrderedPermutation(s: seq<DrawPixel>, r: seq<DrawPixel>)
    requires StrictlyRowMajor(s) && s != []
    requires RowMajor(r)
    requires multiset(r) == multiset(s)
    ensures r != [] && r[0] == s[0]
  {
    assert r[0] in multiset(s) by {
      assert |multiset(r)| == |multiset(s)|;
    }
    var k :| 0 <= k < |s| && s[k] == r[0];
    assert s[0] in multiset(r);
    var m :| 0 <= m < |r| && r[m] == s[0];
    if k != 0 {
      // s[0] == r[m] would come strictly before r[0] == s[k]
      assert false;
    }
  }

  /**
    An ordered permutation of a strictly ordered sequence is that sequence:
    when no two pixels share a place, the sort has only one possible result,
    whatever order the pixels were collected in.
   */
  lemma {:induction false} OrderedPermutationIsUnique(s: seq<DrawPixel>, r: seq<DrawPixel>)
    requires StrictlyRowMajor(s)
    requires RowMajor(r)
    requires multiset(r) == multiset(s)
    ensures r == s
  {
    if s != [] {
      FirstOfOrderedPermutation(s, r);
      assert r == [r[0]] + r[1..];
      assert s == [s[0]] + s[1..];
      calc {
        multiset(r[1..]);
        multiset(r) - multiset{r[0]};
        multiset(s) - multiset{s[0]};
        multiset(s[1..]);
      }
      OrderedPermutationIsUnique(s[1..], r[1..]);
    }
  }
}
