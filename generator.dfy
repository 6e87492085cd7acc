/** Grid generation (`GenerateGrid`): four border seeds, random growth into
    unassigned neighbours until the board is full, then the acceptance test
    on colour counts and clumps, retried until a grid passes. */
module Generator {
  import opened Grid
  import opened Clumps

  /** Each colour must cover between 7 and 14 cells. */
  const MinCount: int := 7
  const MaxCount: int := 14

  // ---------------------------------------------------------------------
  // Cells, colour classes and counts
  // ---------------------------------------------------------------------

  /** A cell on the outer ring of the board: first or last column, top or
      bottom row. */
  predicate Border(n: int) {
    InGrid(n) && (Col(n) == 0 || Col(n) == Width - 1 || Row(n) == 0 || Row(n) == Height - 1)
  }

  /** The cells of `g` that carry label `x`. */
  ghost function Class<T>(g: seq<T>, x: T): set<int> {
    set n | 0 <= n < |g| && g[n] == x
  }

  /** The cells still unassigned. */
  function Unassigned(s: seq<Cell>): set<int> {
    set n | 0 <= n < |s| && s[n] == None
  }

  /** `Where(i => tempGrid[i] == null)` over a list of cells, keeping order. */
  function WhereUnassigned(s: seq<Cell>, xs: seq<int>): (r: seq<int>)
    ensures |r| <= |xs|
    ensures forall x :: x in r <==> x in xs && 0 <= x < |s| && s[x] == None
  {
    if xs == [] then []
    else
      var keep := if 0 <= xs[0] < |s| && s[xs[0]] == None then [xs[0]] else [];
      keep + WhereUnassigned(s, xs[1..])
  }

  /** The conversion `Select(i => (int)i)` of a grid with no unassigned cell. */
  function Unwrap(s: seq<Cell>): (g: seq<int>)
    requires None !in s
    ensures |g| == |s| && forall n :: 0 <= n < |s| ==> s[n] == Some(g[n])
  {
    assert forall n :: 0 <= n < |s| ==> s[n] in s && s[n].Some?;
    seq(|s|, n requires 0 <= n < |s| => s[n].value)
  }

  /** Counting a colour before and after unwrapping gives the same number. */
  lemma {:induction false} CountUnwrap(s: seq<Cell>, c: int)
    requires None !in s
    ensures Count(s, Some(c)) == Count(Unwrap(s), c)
    decreases |s|
  {
    if s != [] {
      var u := s[..|s| - 1];
      assert None !in u;
      assert Unwrap(s)[..|s| - 1] == Unwrap(u);
      CountUnwrap(u, c);
    }
  }

  /** Every cell carries one of the four colours. */
  predicate Labelled(g: seq<int>) {
    forall n :: 0 <= n < |g| ==> 0 <= g[n] < Colours
  }

  /** The four colour counts of a coloured grid add up to its size. */
  lemma {:induction false} CountsSum(g: seq<int>)
    requires Labelled(g)
    ensures Count(g, 0) + Count(g, 1) + Count(g, 2) + Count(g, 3) == |g|
    decreases |g|
  {
    if g != [] {
      var u := g[..|g| - 1];
      assert Labelled(u) by {
        forall n | 0 <= n < |u| ensures 0 <= u[n] < Colours {
          assert u[n] == g[n];
        }
      }
      CountsSum(u);
    }
  }

  /** The four colour counts of a finished grid, in colour order; on a grid
      coloured 0..3 they account for every cell. */
  function Counts(g: seq<int>): (r: seq<nat>)
    ensures |r| == Colours && forall c :: 0 <= c < Colours ==> r[c] == Count(g, c)
    ensures Labelled(g) ==> r[0] + r[1] + r[2] + r[3] == |g|
  {
    assert Labelled(g) ==> Count(g, 0) + Count(g, 1) + Count(g, 2) + Count(g, 3) == |g| by {
      if Labelled(g) {
        CountsSum(g);
      }
    }
    seq(Colours, c requires 0 <= c < Colours => Count(g, c))
  }

  /** The same counts taken on the grid under construction, as the rejection
      test does; once no cell is unassigned they are the counts of the grid
      that is returned. */
  function CellCounts(s: seq<Cell>): (r: seq<nat>)
    ensures |r| == Colours && forall c :: 0 <= c < Colours ==> r[c] == Count(s, Some(c))
    ensures None !in s ==> r == Counts(Unwrap(s))
  {
    assert None !in s ==> forall c :: 0 <= c < Colours ==> Count(s, Some(c)) == Count(Unwrap(s), c) by {
      if None !in s {
        forall c | 0 <= c < Colours ensures Count(s, Some(c)) == Count(Unwrap(s), c) {
          CountUnwrap(s, c);
        }
      }
    }
    seq(Colours, c requires 0 <= c < Colours => Count(s, Some(c)))
  }

  // ---------------------------------------------------------------------
  // Acceptance
  // ---------------------------------------------------------------------

  /** The number of distinct values of `s` (`Distinct().Count()`) equals its
      length exactly when no value repeats. */
  lemma {:induction false} DistinctCount(s: seq<int>)
    ensures |s| == |set x | x in s| <==> forall k, l :: 0 <= k < l < |s| ==> s[k] != s[l]
    decreases |s|
  {
    if s != [] {
      var u := s[..|s| - 1];
      ValuesOfPrefix(s, u);
      DistinctCount(u);
      DistinctBound(u);
      if s[|s| - 1] in u {
        var k :| 0 <= k < |u| && u[k] == s[|s| - 1];
        assert s[k] == s[|s| - 1];
      }
    }
  }

  lemma ValuesOfPrefix(s: seq<int>, u: seq<int>)
    requires s != [] && u == s[..|s| - 1]
    ensures forall k :: 0 <= k < |u| ==> u[k] == s[k]
    ensures (set x | x in s) == (set x | x in u) + {s[|s| - 1]}
  {
    assert s == u + [s[|s| - 1]];
  }

  lemma {:induction false} DistinctBound(s: seq<int>)
    ensures |set x | x in s| <= |s|
    decreases |s|
  {
    if s != [] {
      ValuesOfPrefix(s, s[..|s| - 1]);
      DistinctBound(s[..|s| - 1]);
    }
  }

  /** Reference condition on the colour counts of an accepted grid: each
      within 7..14, and no two equal. */
  predicate Balanced(counts: seq<int>) {
    && |counts| == Colours
    && (forall c :: 0 <= c < Colours ==> MinCount <= counts[c] <= MaxCount)
    && (forall c, d :: 0 <= c < d < Colours ==> counts[c] != counts[d])
  }

  /** The rejection test of `GenerateGrid` on the colour counts and the
      clump count, in the source's four disjuncts. */
  predicate Rejected(counts: seq<int>, clumps: int)
    requires |counts| == Colours
  {
    || (exists c :: 0 <= c < Colours && counts[c] < MinCount)
    || (exists c :: 0 <= c < Colours && counts[c] > MaxCount)
    || clumps != Colours
    || |set x | x in counts| != Colours
  }

  /** A grid passes the test exactly when its counts are balanced and it has
      four clumps. */
  lemma RejectedIff(counts: seq<int>, clumps: int)
    requires |counts| == Colours
    ensures !Rejected(counts, clumps) <==> Balanced(counts) && clumps == Colours
  {
    DistinctCount(counts);
  }

  /** What `GenerateGrid` promises of the grid it returns: 40 cells coloured
      0..3, balanced colour counts, and exactly four clumps. */
  ghost predicate ValidGrid(g: seq<int>) {
    && |g| == Size
    && (forall n :: 0 <= n < Size ==> 0 <= g[n] < Colours)
    && Balanced(Counts(g))
    && HasComponents(g, Colours)
  }

  // ---------------------------------------------------------------------
  // Seeding and growth
  // ---------------------------------------------------------------------

  /** The grid right after seeding: four distinct border cells carry the
      colours 0..3 in order, every other cell is unassigned. */
  ghost predicate Seeded(s: seq<Cell>, starts: seq<int>) {
    && |s| == Size && |starts| == Colours
    && (forall c :: 0 <= c < Colours ==> Border(starts[c]) && s[starts[c]] == Some(c))
    && (forall n :: 0 <= n < Size && n !in starts ==> s[n] == None)
  }

  /** The growth invariant: the seeds keep their colours, every label is a
      colour, and each colour's cells form one connected region. */
  ghost predicate Growing(s: seq<Cell>, starts: seq<int>) {
    && |s| == Size && |starts| == Colours
    && (forall c :: 0 <= c < Colours ==> InGrid(starts[c]) && s[starts[c]] == Some(c))
    && (forall n :: 0 <= n < Size && s[n].Some? ==> 0 <= s[n].value < Colours)
    && (forall c :: 0 <= c < Colours ==> Connected(Class(s, Some(c))))
  }

  /** A fully grown grid: every cell holds a colour, and each colour forms
      one non-empty connected region. */
  ghost predicate Grown(s: seq<Cell>) {
    && |s| == Size
    && (forall n :: 0 <= n < Size ==> s[n].Some? && 0 <= s[n].value < Colours)
    && (forall c :: 0 <= c < Colours ==> InSomeCell(s, c) && Connected(Class(s, Some(c))))
  }

  ghost predicate InSomeCell(s: seq<Cell>, c: int) {
    exists n :: 0 <= n < |s| && s[n] == Some(c)
  }

  /** `t` is `s` with some unassigned cells filled in: every cell assigned
      in `s` keeps its label in `t`. */
  ghost predicate KeepsAssigned(s: seq<Cell>, t: seq<Cell>) {
    |s| == |t| && forall n :: 0 <= n < |s| && s[n].Some? ==> t[n] == s[n]
  }

  /** Filling one more unassigned cell keeps every assigned label. */
  lemma FillKeepsAssigned(s0: seq<Cell>, s: seq<Cell>, v: int, x: Cell)
    requires KeepsAssigned(s0, s) && 0 <= v < |s| && s[v] == None
    ensures KeepsAssigned(s0, s[v := x])
  {
  }

  /** Filling an unassigned cell removes exactly that cell from the
      unassigned ones. */
  lemma FillShrinksUnassigned(s: seq<Cell>, v: int, x: Cell)
    requires 0 <= v < |s| && s[v] == None && x.Some?
    ensures Unassigned(s[v := x]) == Unassigned(s) - {v}
  {
  }

  /** An assigned cell with at least one unassigned neighbour. */
  predicate Growable(s: seq<Cell>, n: int) {
    InGrid(n) && n < |s| && s[n].Some? && WhereUnassigned(s, Adjacents(n)) != []
  }

  lemma SeededGrowing(s: seq<Cell>, starts: seq<int>)
    requires Seeded(s, starts)
    ensures Growing(s, starts)
  {
    forall c | 0 <= c < Colours ensures Connected(Class(s, Some(c))) {
      forall n | n in Class(s, Some(c)) ensures n == starts[c] {
        assert n in starts;
      }
      assert Class(s, Some(c)) == {starts[c]};
      ConnectedSingleton(starts[c]);
    }
  }

  /** Colouring an unassigned neighbour of an assigned cell with that cell's
      colour keeps the growth invariant. */
  lemma GrowStep(s: seq<Cell>, starts: seq<int>, src: int, v: int)
    requires Growing(s, starts)
    requires 0 <= src < Size && s[src].Some? && Adjacent(src, v) && s[v] == None
    ensures Growing(s[v := Some(s[src].value)], starts)
  {
    var c := s[src].value;
    var s' := s[v := Some(c)];
    forall d | 0 <= d < Colours ensures Connected(Class(s', Some(d))) {
      if d == c {
        assert Class(s', Some(d)) == Class(s, Some(d)) + {v};
        ConnectedSingleton(v);
        ConnectedUnion(Class(s, Some(d)), {v}, src, v);
      } else {
        assert Class(s', Some(d)) == Class(s, Some(d));
      }
    }
  }

  /** A walk from an assigned cell to an unassigned one crosses from one to
      the other somewhere. */
  lemma {:induction false} Crossing(s: seq<Cell>, p: seq<int>)
    requires |s| == Size && PathIn(AllCells(), p)
    requires s[p[0]].Some? && s[p[|p| - 1]] == None
    ensures exists k :: 0 <= k < |p| - 1 && s[p[k]].Some? && s[p[k + 1]] == None
  {
    if s[p[1]] == None {
      assert 0 < |p| - 1;
    } else {
      var q := p[1..];
      assert PathIn(AllCells(), q) by {
        forall k | 0 <= k < |q| - 1 ensures Adjacent(q[k], q[k + 1]) {
          assert q[k] == p[k + 1] && q[k + 1] == p[k + 2];
        }
      }
      Crossing(s, q);
      var k :| 0 <= k < |q| - 1 && s[q[k]].Some? && s[q[k + 1]] == None;
      assert p[k + 1] == q[k] && p[k + 2] == q[k + 1];
    }
  }

  /** While an unassigned cell remains, some assigned cell can grow: the
      board is connected, so a walk from a seed reaches the unassigned cell. */
  lemma FrontierExists(s: seq<Cell>, a: int, b: int)
    requires |s| == Size && 0 <= a < Size && s[a].Some? && 0 <= b < Size && s[b] == None
    ensures exists n :: 0 <= n < Size && Growable(s, n)
  {
    var p := Route(a, b);
    Crossing(s, p);
    var k :| 0 <= k < |p| - 1 && s[p[k]].Some? && s[p[k + 1]] == None;
    assert p[k] in AllCells() && p[k + 1] in AllCells();
    assert p[k + 1] in WhereUnassigned(s, Adjacents(p[k]));
    assert Growable(s, p[k]);
  }

  /** Growth never stops short: when no unassigned cell is left, the
      invariant makes the grid fully grown. */
  lemma GrowingGrown(s: seq<Cell>, starts: seq<int>)
    requires Growing(s, starts) && None !in s
    ensures Grown(s)
  {
    forall c | 0 <= c < Colours ensures InSomeCell(s, c) {
      assert s[starts[c]] == Some(c);
    }
  }

  // ---------------------------------------------------------------------
  // Clumps of a grown grid
  // ---------------------------------------------------------------------

  /** One colour class, non-empty and connected, is a clump of the grid. */
  lemma ClassIsClump<T>(g: seq<T>, x: T, w: int)
    requires |g| == Size && 0 <= w < Size && g[w] == x
    requires Connected(Class(g, x))
    ensures Clump(g, Class(g, x), Size)
  {
    assert w in Class(g, x);
  }

  /** When every cell carries one of `labels`, no label repeats, and each
      label's cells are non-empty and connected, the classes are the grid's
      components: the grid has exactly `|labels|` clumps. */
  lemma ClassesPartition<T>(g: seq<T>, labels: seq<T>, witnesses: seq<int>)
    requires |g| == Size && |witnesses| == |labels|
    requires forall n :: 0 <= n < Size ==> g[n] in labels
    requires forall k, l :: 0 <= k < l < |labels| ==> labels[k] != labels[l]
    requires forall k :: 0 <= k < |labels| ==> 0 <= witnesses[k] < Size && g[witnesses[k]] == labels[k]
    requires forall k :: 0 <= k < |labels| ==> Connected(Class(g, labels[k]))
    ensures HasComponents(g, |labels|)
  {
    var P := seq(|labels|, k requires 0 <= k < |labels| => Class(g, labels[k]));
    forall k | 0 <= k < |P| ensures Clump(g, P[k], Size) {
      ClassIsClump(g, labels[k], witnesses[k]);
    }
    forall x | 0 <= x < Size ensures InSome(P, x) {
      var k :| 0 <= k < |labels| && labels[k] == g[x];
      assert x in P[k];
    }
    assert IsComponentPartition(g, P);
  }

  lemma ClassUnwrap(s: seq<Cell>, c: int)
    requires None !in s
    ensures Class(s, Some(c)) == Class(Unwrap(s), c)
  {
  }

  /** A grown grid, and the same grid unwrapped, have exactly four clumps:
      the clump test of `GenerateGrid` never rejects a grown grid. */
  lemma GrownHasFourClumps(s: seq<Cell>)
    requires Grown(s)
    ensures None !in s
    ensures HasComponents(s, Colours) && HasComponents(Unwrap(s), Colours)
  {
    var labels := [Some(0), Some(1), Some(2), Some(3)];
    var ws := seq(Colours, c requires 0 <= c < Colours => WitnessOf(s, c));
    forall n | 0 <= n < Size ensures s[n] in labels {
      assert s[n] == Some(s[n].value);
    }
    ClassesPartition(s, labels, ws);
    var g := Unwrap(s);
    forall c | 0 <= c < Colours ensures Connected(Class(g, c)) {
      ClassUnwrap(s, c);
    }
    ClassesPartition(g, [0, 1, 2, 3], ws);
  }

  ghost function WitnessOf(s: seq<Cell>, c: int): (n: int)
    requires InSomeCell(s, c)
    ensures 0 <= n < |s| && s[n] == Some(c)
  {
    var n :| 0 <= n < |s| && s[n] == Some(c); n
  }

  // ---------------------------------------------------------------------
  // The generator
  // ---------------------------------------------------------------------

  /** The seeding of `GenerateGrid`: an empty grid with four distinct border cells chosen at
      random (the shuffle-and-take), the i-th of them coloured `i % 4`. */
  method Seed() returns (a: array<Cell>, ghost starts: seq<int>)
    ensures fresh(a) && a.Length == Size && Seeded(a[..], starts)
  {
    a := new Cell[Size](_ => None);
    assert Border(0) && Border(1) && Border(2) && Border(3);
    var s0 :| 0 <= s0 < Size && Border(s0);
    var s1 :| 0 <= s1 < Size && Border(s1) && s1 != s0;
    var s2 :| 0 <= s2 < Size && Border(s2) && s2 != s0 && s2 != s1;
    var s3 :| 0 <= s3 < Size && Border(s3) && s3 != s0 && s3 != s1 && s3 != s2;
    var randomStarts := [s0, s1, s2, s3];
    for i := 0 to |randomStarts|
      invariant forall c :: 0 <= c < i ==> a[randomStarts[c]] == Some(c)
      invariant forall n :: 0 <= n < Size && n !in randomStarts[..i] ==> a[n] == None
    {
      a[randomStarts[i]] := Some(i % Colours);
    }
    starts := randomStarts;
  }

  /** The growth loop of `GenerateGrid`: while an unassigned cell remains, an assigned cell with
      an unassigned neighbour is picked at random and one such neighbour, at
      random, takes its colour. */
  method Grow(a: array<Cell>, ghost starts: seq<int>)
    requires a.Length == Size && Growing(a[..], starts)
    modifies a
    ensures Grown(a[..]) && Growing(a[..], starts)
    ensures KeepsAssigned(old(a[..]), a[..])
  {
    ghost var s0 := a[..];
    while None in a[..]
      invariant Growing(a[..], starts)
      invariant KeepsAssigned(s0, a[..])
      decreases Unassigned(a[..])
    {
      ghost var s := a[..];
      ghost var b :| 0 <= b < Size && s[b] == None;
      FrontierExists(s, starts[0], b);
      var rndIx :| 0 <= rndIx < Size && Growable(a[..], rndIx);
      var adjs := WhereUnassigned(a[..], Adjacents(rndIx));
      var k :| 0 <= k < |adjs|;
      var v := adjs[k];
      assert v in adjs;
      GrowStep(s, starts, rndIx, v);
      FillKeepsAssigned(s0, s, v, Some(s[rndIx].value));
      a[v] := Some(a[rndIx].value);
      assert a[..] == s[v := Some(s[rndIx].value)];
      FillShrinksUnassigned(s, v, Some(s[rndIx].value));
    }
    GrowingGrown(a[..], starts);
  }

  /** One pass of `GenerateGrid` up to its rejection test: seed, grow, and apply the acceptance test.
      `grown` is the grid the pass produced; the result is that grid when it
      passes the test and `None` when the source would start over. */
  method GenerateAttempt() returns (r: Option<seq<int>>, ghost grown: seq<Cell>)
    ensures r.Some? ==> ValidGrid(r.value)
    ensures Grown(grown)
    ensures r.Some? <==> Balanced(Counts(Unwrap(grown)))
    ensures r.Some? ==> r.value == Unwrap(grown)
  {
    var a, starts := Seed();
    SeededGrowing(a[..], starts);
    Grow(a, starts);
    var tempGrid := a[..];
    grown := tempGrid;
    GrownHasFourClumps(tempGrid);
    var counts := CellCounts(tempGrid);
    ghost var partition;
    var clumps;
    clumps, partition := FindClumps(tempGrid);
    ComponentsCountedOnce(tempGrid, clumps, Colours);
    RejectedIff(counts, clumps);
    if Rejected(counts, clumps) {
      r := None;
    } else {
      r := Some(Unwrap(tempGrid));
    }
  }

  /** Every grid of `ts` was fully grown and then rejected for its counts. */
  ghost predicate AllRejected(ts: seq<seq<Cell>>) {
    forall t :: t in ts ==> Grown(t) && None !in t && !Balanced(Counts(Unwrap(t)))
  }

  /** `GenerateGrid`: passes are repeated until one is accepted, here for at
      most `attempts` passes. Whatever it returns is a valid grid, and it
      returns nothing only after `attempts` grown grids were all rejected
      (`rejected` lists them). */
  method GenerateGrid(attempts: nat) returns (r: Option<seq<int>>, ghost rejected: seq<seq<Cell>>)
    ensures r.Some? ==> ValidGrid(r.value)
    ensures r.None? ==> |rejected| == attempts
    ensures AllRejected(rejected)
  {
    r := None;
    rejected := [];
    var n := 0;
    while n < attempts && r == None
      invariant n <= attempts
      invariant r.Some? ==> ValidGrid(r.value)
      invariant r.None? ==> |rejected| == n
      invariant AllRejected(rejected)
    {
      ghost var grown;
      r, grown := GenerateAttempt();
      if r.None? {
        GrownHasFourClumps(grown);
        rejected := rejected + [grown];
      }
      n := n + 1;
    }
  }
}
