/** The answer of a round (`GetMostCommonOccurrence`): the colour that covers
    the most cells, ties going to the lowest colour. */
module Majority {
  import opened Grid
  import opened Generator

  /** `r` is a most common colour of `g`, and the first in colour order
      among the most common ones. */
  ghost predicate IsMostCommon(g: seq<int>, r: int) {
    && 0 <= r < Colours
    && (forall d :: 0 <= d < Colours ==> Count(g, d) <= Count(g, r))
    && (forall d :: 0 <= d < r ==> Count(g, d) < Count(g, r))
  }

  /** `GetMostCommonOccurrence`: one counter per colour, filled in one pass
      over the grid, then the first index of the largest counter. */
  method GetMostCommonOccurrence(grid: seq<int>) returns (r: int)
    requires Labelled(grid)
    ensures IsMostCommon(grid, r)
  {
    var arr := new int[Colours](_ => 0);
    for i := 0 to |grid|
      invariant forall c :: 0 <= c < Colours ==> arr[c] == Count(grid[..i], c)
    {
      assert grid[..i + 1][..i] == grid[..i];
      arr[grid[i]] := arr[grid[i]] + 1;
    }
    assert grid[..|grid|] == grid;
    // arr.Max()
    var max := arr[0];
    for c := 1 to Colours
      invariant forall d :: 0 <= d < c ==> arr[d] <= max
      invariant exists d :: 0 <= d < c && arr[d] == max
    {
      if arr[c] > max {
        max := arr[c];
      }
    }
    // Array.IndexOf(arr, max)
    r := 0;
    while arr[r] != max
      invariant 0 <= r < Colours
      invariant forall d :: 0 <= d < r ==> arr[d] != max
      invariant exists d :: r <= d < Colours && arr[d] == max
      decreases Colours - r
    {
      r := r + 1;
    }
  }

  /** The answer is determined by the grid: two colours that both satisfy the
      specification are the same colour. */
  lemma MostCommonUnique(g: seq<int>, r: int, r': int)
    requires IsMostCommon(g, r) && IsMostCommon(g, r')
    ensures r == r'
  {
    assert Count(g, r') <= Count(g, r) && Count(g, r) <= Count(g, r');
  }

  /** On a non-empty grid the most common colour occurs: the cube that
      selects it exists. */
  lemma MostCommonPresent(g: seq<int>, r: int)
    requires Labelled(g) && |g| > 0 && IsMostCommon(g, r)
    ensures r in g
  {
    CountsSum(g);
  }

  /** On a grid `GenerateGrid` accepts, the most common colour is strictly
      more common than every other colour, so the tie-break never applies. */
  lemma ValidMostCommonStrict(g: seq<int>, r: int)
    requires ValidGrid(g) && IsMostCommon(g, r)
    ensures forall d :: 0 <= d < Colours && d != r ==> Count(g, d) < Count(g, r)
  {
    var counts := Counts(g);
    forall d | 0 <= d < Colours && d != r ensures Count(g, d) < Count(g, r) {
      if d < r {
        assert counts[d] != counts[r];
      } else {
        assert counts[r] != counts[d];
      }
    }
  }
}
