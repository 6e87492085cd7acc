/** The needy module itself (`AreaSplitScript`): on activation it shows a
    new grid and fixes the answer; pressing a cube selects that cube's
    colour; when the timer runs out a missing or wrong selection is a
    strike, and the module deactivates. */
module Needy {
  import opened Grid
  import opened Generator
  import opened Majority

  /** What the timer's expiry found. */
  datatype Outcome = NoSelection | Correct | Incorrect(colour: int)

  /** `Array.IndexOf`: the first position holding `x`, or -1. */
  function IndexOf(g: seq<int>, x: int): (r: int)
    ensures -1 <= r < |g|
    ensures r >= 0 ==> g[r] == x && forall k :: 0 <= k < r ==> g[k] != x
    ensures r == -1 <==> x !in g
  {
    if g == [] then -1
    else if g[0] == x then 0
    else
      var k := IndexOf(g[1..], x);
      assert forall j :: 1 <= j < |g| ==> g[j] == g[1..][j - 1];
      if k == -1 then -1 else k + 1
  }

  /** The cube the automatic solver presses for the answer exists and shows
      the answer's colour. */
  lemma AnswerCubeExists(g: seq<int>, c: int)
    requires |g| == Size && Labelled(g) && IsMostCommon(g, c)
    ensures 0 <= IndexOf(g, c) < Size && g[IndexOf(g, c)] == c
  {
    MostCommonPresent(g, c);
  }

  class AreaSplit {
    /** The colours of the 40 cubes, row by row. */
    var grid: seq<int>
    /** The colour the defuser must select in this round. */
    var correctColour: int
    /** The colour of the last cube pressed since activation, if any. */
    var selected: Option<int>
    /** Strikes and passes reported to the bomb. */
    var strikes: nat
    var passes: nat
    /** Whether the grid is on display. */
    var shown: bool

    ghost predicate Valid()
      reads this
    {
      |grid| == Size && Labelled(grid) && IsMostCommon(grid, correctColour)
    }

    /** A new module: an all-zero grid, answer 0, nothing selected, and the
        grid hidden once `Init` has run. */
    constructor ()
      ensures Valid()
      ensures selected == None && strikes == 0 && passes == 0 && !shown
      ensures grid == seq(Size, _ => 0) && correctColour == 0
    {
      grid := seq(Size, _ => 0);
      correctColour := 0;
      selected := None;
      strikes := 0;
      passes := 0;
      shown := false;
    }

    /** Pressing cube `btn` selects its colour; a later press replaces an
        earlier one. */
    method CubePress(btn: int)
      requires Valid() && 0 <= btn < Size
      modifies this
      ensures Valid()
      ensures selected == Some(grid[btn])
      ensures grid == old(grid) && correctColour == old(correctColour)
      ensures strikes == old(strikes) && passes == old(passes) && shown == old(shown)
    {
      selected := Some(grid[btn]);
    }

    /** Activation clears the selection, shows a newly generated grid and
        makes its most common colour the answer. With the retry budget
        spent, only the selection is cleared, and `rejected` holds the
        `attempts` grids that were grown and turned down. */
    method NeedyActivate(attempts: nat) returns (generated: bool, ghost rejected: seq<seq<Cell>>)
      requires Valid()
      modifies this
      ensures Valid()
      ensures selected == None
      ensures generated ==> shown && ValidGrid(grid)
      ensures generated ==> forall d :: 0 <= d < Colours && d != correctColour ==>
                              Count(grid, d) < Count(grid, correctColour)
      ensures !generated ==> |rejected| == attempts && AllRejected(rejected)
      ensures !generated ==> grid == old(grid) && correctColour == old(correctColour) && shown == old(shown)
      ensures strikes == old(strikes) && passes == old(passes)
    {
      selected := None;
      var r;
      r, rejected := GenerateGrid(attempts);
      if r.Some? {
        ShowGrid(r.value);
        generated := true;
      } else {
        generated := false;
      }
    }

    /** The rest of activation once a grid is generated: it becomes the
        shown grid and its most common colour the answer. */
    method ShowGrid(g: seq<int>)
      requires ValidGrid(g)
      modifies this
      ensures Valid()
      ensures grid == g && shown
      ensures forall d :: 0 <= d < Colours && d != correctColour ==>
                Count(grid, d) < Count(grid, correctColour)
      ensures selected == old(selected) && strikes == old(strikes) && passes == old(passes)
    {
      grid := g;
      shown := true;
      correctColour := GetMostCommonOccurrence(grid);
      ValidMostCommonStrict(grid, correctColour);
    }

    /** Deactivation reports a pass and hides the grid. */
    method NeedyDeactivate()
      requires Valid()
      modifies this
      ensures Valid()
      ensures passes == old(passes) + 1 && !shown
      ensures grid == old(grid) && correctColour == old(correctColour)
      ensures selected == old(selected) && strikes == old(strikes)
    {
      passes := passes + 1;
      shown := false;
    }

    /** At expiry a strike is given unless the selected colour is the
        answer; the module then deactivates either way. */
    method TimerExpire() returns (outcome: Outcome)
      requires Valid()
      modifies this
      ensures Valid()
      ensures outcome == NoSelection <==> old(selected) == None
      ensures outcome == Correct <==> old(selected) == Some(old(correctColour))
      ensures outcome.Incorrect? ==> old(selected) == Some(outcome.colour) && outcome.colour != old(correctColour)
      ensures strikes == old(strikes) + (if outcome == Correct then 0 else 1)
      ensures passes == old(passes) + 1 && !shown
      ensures grid == old(grid) && correctColour == old(correctColour) && selected == old(selected)
    {
      if selected == None {
        strikes := strikes + 1;
        outcome := NoSelection;
      } else if selected == Some(correctColour) {
        outcome := Correct;
      } else {
        strikes := strikes + 1;
        outcome := Incorrect(selected.value);
      }
      NeedyDeactivate();
    }

    /** One step of the automatic solver: while the grid is shown and
        nothing is selected, it presses the first cube of the answer's
        colour, which selects the answer. */
    method AutosolveStep()
      requires Valid()
      modifies this
      ensures Valid()
      ensures old(shown) && old(selected) == None ==> selected == Some(correctColour)
      ensures !(old(shown) && old(selected) == None) ==> selected == old(selected)
      ensures grid == old(grid) && correctColour == old(correctColour)
      ensures strikes == old(strikes) && passes == old(passes) && shown == old(shown)
    {
      if selected == None && shown {
        AnswerCubeExists(grid, correctColour);
        CubePress(IndexOf(grid, correctColour));
      }
    }
  }
}
