/** Clump counting (`FindClumps`): the number of maximal single-label,
    4-connected regions of a grid. The specification is a partition of the
    board into connected components; `FindClumps` is the source's incremental
    merge over a list of clumps, proved to produce such a partition. */
module Clumps {
  import opened Grid

  // ---------------------------------------------------------------------
  // Paths and connectivity
  // ---------------------------------------------------------------------

  /** `p` is a walk of 4-adjacent steps that stays inside `S`. */
  ghost predicate PathIn(S: set<int>, p: seq<int>) {
    && |p| > 0
    && (forall k :: 0 <= k < |p| ==> p[k] in S)
    && (forall k :: 0 <= k < |p| - 1 ==> Adjacent(p[k], p[k + 1]))
  }

  ghost predicate Linked(S: set<int>, x: int, y: int) {
    exists p :: PathIn(S, p) && p[0] == x && p[|p| - 1] == y
  }

  /** Every two cells of `S` are joined by a walk inside `S`. */
  ghost predicate Connected(S: set<int>) {
    forall x, y :: x in S && y in S ==> Linked(S, x, y)
  }

  lemma PathConcat(S: set<int>, p: seq<int>, q: seq<int>)
    requires PathIn(S, p) && PathIn(S, q) && Adjacent(p[|p| - 1], q[0])
    ensures PathIn(S, p + q)
  {
    var r := p + q;
    forall k | 0 <= k < |r| - 1
      ensures Adjacent(r[k], r[k + 1])
    {
      if k < |p| - 1 {
        assert r[k] == p[k] && r[k + 1] == p[k + 1];
      } else if k == |p| - 1 {
        assert r[k] == p[|p| - 1] && r[k + 1] == q[0];
      } else {
        assert r[k] == q[k - |p|] && r[k + 1] == q[k - |p| + 1];
      }
    }
  }

  lemma PathWiden(S: set<int>, T: set<int>, p: seq<int>)
    requires PathIn(S, p) && S <= T
    ensures PathIn(T, p)
  {
  }

  lemma ConnectedSingleton(x: int)
    ensures Connected({x})
  {
    assert PathIn({x}, [x]);
  }

  /** Two connected regions joined by one adjacent pair form a connected region. */
  lemma {:induction false} ConnectedUnion(A: set<int>, B: set<int>, a: int, b: int)
    requires Connected(A) && Connected(B)
    requires a in A && b in B && Adjacent(a, b)
    ensures Connected(A + B)
  {
    var U := A + B;
    forall x, y | x in U && y in U
      ensures Linked(U, x, y)
    {
      if x in A && y in A {
        var p :| PathIn(A, p) && p[0] == x && p[|p| - 1] == y;
        PathWiden(A, U, p);
      } else if x in B && y in B {
        var p :| PathIn(B, p) && p[0] == x && p[|p| - 1] == y;
        PathWiden(B, U, p);
      } else if x in A {
        var p :| PathIn(A, p) && p[0] == x && p[|p| - 1] == a;
        var q :| PathIn(B, q) && q[0] == b && q[|q| - 1] == y;
        PathWiden(A, U, p);
        PathWiden(B, U, q);
        PathConcat(U, p, q);
        assert (p + q)[0] == x && (p + q)[|p + q| - 1] == y;
      } else {
        var p :| PathIn(B, p) && p[0] == x && p[|p| - 1] == b;
        var q :| PathIn(A, q) && q[0] == a && q[|q| - 1] == y;
        PathWiden(B, U, p);
        PathWiden(A, U, q);
        PathConcat(U, p, q);
        assert (p + q)[0] == x && (p + q)[|p + q| - 1] == y;
      }
    }
  }

  ghost function AllCells(): set<int> {
    set n | 0 <= n < Size && InGrid(n)
  }

  function Distance(a: int, b: int): nat {
    (if Col(a) < Col(b) then Col(b) - Col(a) else Col(a) - Col(b))
    + (if Row(a) < Row(b) then Row(b) - Row(a) else Row(a) - Row(b))
  }

  /** The next cell on the way from `a` to `b`: along the row first, then
      along the column. */
  function Toward(a: int, b: int): (next: int)
    requires InGrid(a) && InGrid(b) && a != b
    ensures InGrid(next) && Adjacent(a, next) && Distance(next, b) < Distance(a, b)
  {
    Moves(a);
    if Col(a) < Col(b) then a + 1
    else if Col(a) > Col(b) then a - 1
    else if Row(a) < Row(b) then a + Width
    else if Row(a) > Row(b) then a - Width
    else SameCell(a, b); assert false; a
  }

  /** A walk across the whole board from `a` to `b`. */
  ghost function Route(a: int, b: int): (p: seq<int>)
    requires InGrid(a) && InGrid(b)
    ensures PathIn(AllCells(), p) && p[0] == a && p[|p| - 1] == b
    decreases Distance(a, b)
  {
    if a == b then
      assert PathIn(AllCells(), [a]);
      [a]
    else
      var rest := Route(Toward(a, b), b);
      assert PathIn(AllCells(), [a]);
      PathConcat(AllCells(), [a], rest);
      [a] + rest
  }

  lemma BoardConnected()
    ensures Connected(AllCells())
  {
    forall x, y | x in AllCells() && y in AllCells()
      ensures Linked(AllCells(), x, y)
    {
      var p := Route(x, y);
    }
  }

  // ---------------------------------------------------------------------
  // Clumps and component partitions
  // ---------------------------------------------------------------------

  /** All cells of `C` are cells of `g` and carry one label. */
  ghost predicate Monochrome<T>(g: seq<T>, C: set<int>) {
    && (forall x :: x in C ==> 0 <= x < |g|)
    && (forall x, y :: x in C && y in C ==> g[x] == g[y])
  }

  /** `C` contains every same-label neighbour (below `n`) of each of its cells. */
  ghost predicate Closed<T>(g: seq<T>, C: set<int>, n: int) {
    && |g| == Size
    && (forall x, y :: x in C && Adjacent(x, y) && y < n && g[x] == g[y] ==> y in C)
  }

  /** A clump among the cells `0..n-1`: non-empty, single-label, connected,
      and closed under same-label adjacency among those cells. */
  ghost predicate Clump<T>(g: seq<T>, C: set<int>, n: int) {
    && (exists x :: x in C)
    && (forall x :: x in C ==> 0 <= x < n)
    && Monochrome(g, C)
    && Closed(g, C, n)
    && Connected(C)
  }

  ghost predicate Disjoint(cs: seq<set<int>>) {
    forall k, l :: 0 <= k < l < |cs| ==> cs[k] !! cs[l]
  }

  /** Some clump of `cs` holds `x`. */
  ghost predicate InSome(cs: seq<set<int>>, x: int) {
    exists k :: 0 <= k < |cs| && x in cs[k]
  }

  ghost predicate Covers(cs: seq<set<int>>, n: int) {
    forall x :: 0 <= x < n ==> InSome(cs, x)
  }

  /** `cs` splits the cells `0..n-1` into their clumps. */
  ghost predicate ClumpsUpTo<T>(g: seq<T>, cs: seq<set<int>>, n: int) {
    && |g| == Size && 0 <= n <= Size
    && (forall k :: 0 <= k < |cs| ==> Clump(g, cs[k], n))
    && Disjoint(cs)
    && Covers(cs, n)
  }

  /** `P` lists the monochromatic connected components of the whole grid `g`. */
  ghost predicate IsComponentPartition<T>(g: seq<T>, P: seq<set<int>>) {
    ClumpsUpTo(g, P, Size)
  }

  /** `g` has exactly `n` monochromatic connected components. */
  ghost predicate HasComponents<T>(g: seq<T>, n: int) {
    exists P :: IsComponentPartition(g, P) && |P| == n
  }

  /** A walk inside a single-label set that starts in a closed set stays in it. */
  lemma {:induction false} WalkStaysInClosed<T>(g: seq<T>, C: set<int>, D: set<int>, p: seq<int>)
    requires Monochrome(g, C) && Closed(g, D, Size)
    requires PathIn(C, p) && p[0] in D
    ensures p[|p| - 1] in D
    decreases |p|
  {
    if |p| > 1 {
      assert Adjacent(p[0], p[1]) && p[0] in C && p[1] in C;
      assert p[1] in D;
      var q := p[1..];
      assert PathIn(C, q) by {
        forall k | 0 <= k < |q| - 1 ensures Adjacent(q[k], q[k + 1]) {
          assert q[k] == p[k + 1] && q[k + 1] == p[k + 2];
        }
      }
      WalkStaysInClosed(g, C, D, q);
    }
  }

  /** Two components that share a cell are the same component. */
  lemma ComponentsMeet<T>(g: seq<T>, C: set<int>, D: set<int>, x: int)
    requires Clump(g, C, Size) && Clump(g, D, Size)
    requires x in C && x in D
    ensures C == D
  {
    forall y | y in C ensures y in D {
      var p :| PathIn(C, p) && p[0] == x && p[|p| - 1] == y;
      WalkStaysInClosed(g, C, D, p);
    }
    forall y | y in D ensures y in C {
      var p :| PathIn(D, p) && p[0] == x && p[|p| - 1] == y;
      WalkStaysInClosed(g, D, C, p);
    }
  }

  ghost function Elements(cs: seq<set<int>>): set<set<int>> {
    set k | 0 <= k < |cs| :: cs[k]
  }

  lemma {:induction false} DistinctElements(cs: seq<set<int>>)
    requires forall k, l :: 0 <= k < l < |cs| ==> cs[k] != cs[l]
    ensures |Elements(cs)| == |cs|
  {
    if cs != [] {
      var front := cs[..|cs| - 1];
      DistinctElements(front);
      assert Elements(cs) == Elements(front) + {cs[|cs| - 1]};
      assert cs[|cs| - 1] !in Elements(front);
    }
  }

  lemma PartitionElements<T>(g: seq<T>, P: seq<set<int>>)
    requires IsComponentPartition(g, P)
    ensures |Elements(P)| == |P|
  {
    forall k, l | 0 <= k < l < |P| ensures P[k] != P[l] {
      assert Clump(g, P[k], Size) && P[k] !! P[l];
      var x :| x in P[k];
    }
    DistinctElements(P);
  }

  /** The components of a grid are determined by the grid: any two component
      partitions list the same regions, so they have the same length. */
  lemma ComponentCountUnique<T>(g: seq<T>, P: seq<set<int>>, Q: seq<set<int>>)
    requires IsComponentPartition(g, P) && IsComponentPartition(g, Q)
    ensures |P| == |Q|
  {
    forall C | C in Elements(P) ensures C in Elements(Q) {
      var k :| 0 <= k < |P| && P[k] == C;
      assert Clump(g, C, Size);
      var x :| x in C;
      assert InSome(Q, x);
      var l :| 0 <= l < |Q| && x in Q[l];
      ComponentsMeet(g, C, Q[l], x);
    }
    forall D | D in Elements(Q) ensures D in Elements(P) {
      var l :| 0 <= l < |Q| && Q[l] == D;
      assert Clump(g, D, Size);
      var x :| x in D;
      assert InSome(P, x);
      var k :| 0 <= k < |P| && x in P[k];
      ComponentsMeet(g, D, P[k], x);
    }
    assert Elements(P) == Elements(Q);
    PartitionElements(g, P);
    PartitionElements(g, Q);
  }

  lemma ComponentsCountedOnce<T>(g: seq<T>, m: int, n: int)
    requires HasComponents(g, m) && HasComponents(g, n)
    ensures m == n
  {
    var P :| IsComponentPartition(g, P) && |P| == m;
    var Q :| IsComponentPartition(g, Q) && |Q| == n;
    ComponentCountUnique(g, P, Q);
  }

  /** A grid whose cells all carry one label is a single clump. */
  lemma UniformGridOneComponent<T>(g: seq<T>)
    requires |g| == Size
    requires forall k :: 0 <= k < Size ==> g[k] == g[0]
    ensures HasComponents(g, 1)
  {
    BoardConnected();
    var P := [AllCells()];
    assert 0 in AllCells();
    assert Clump(g, AllCells(), Size);
    assert Covers(P, Size) by {
      forall x | 0 <= x < Size ensures InSome(P, x) {
        assert x in P[0];
      }
    }
    assert IsComponentPartition(g, P);
  }

  // ---------------------------------------------------------------------
  // The source's algorithm
  // ---------------------------------------------------------------------

  /** `clumps.FirstOrDefault(clump => clump.Contains(x))`: the index of the
      first clump holding `x`, or -1 for none. */
  function Find(cs: seq<set<int>>, x: int): (r: int)
    ensures -1 <= r < |cs|
    ensures r >= 0 ==> x in cs[r] && forall k :: 0 <= k < r ==> x !in cs[k]
    ensures r == -1 <==> forall k :: 0 <= k < |cs| ==> x !in cs[k]
  {
    if cs == [] then -1
    else if x in cs[0] then 0
    else
      var r := Find(cs[1..], x);
      assert forall k :: 1 <= k < |cs| ==> cs[k] == cs[1..][k - 1];
      if r == -1 then -1 else r + 1
  }

  /** Removing the `j`-th clump leaves the others, in order. */
  lemma RemoveAt(cs: seq<set<int>>, j: int)
    requires 0 <= j < |cs|
    ensures var rest := cs[..j] + cs[j + 1..];
      && |rest| == |cs| - 1
      && (forall k :: 0 <= k < j ==> rest[k] == cs[k])
      && (forall k :: j < k < |cs| ==> rest[k - 1] == cs[k])
  {
  }

  /** Midway through cell `i`: the clumps still listed are clumps of the
      cells `0..i-1`, and `merged` (plus `i`) collects the ones taken out. */
  ghost predicate Merging<T>(g: seq<T>, i: int, cs: seq<set<int>>, merged: set<int>) {
    && |g| == Size && 0 <= i < Size
    && (forall k :: 0 <= k < |cs| ==> Clump(g, cs[k], i))
    && Disjoint(cs)
    && (forall k :: 0 <= k < |cs| ==> merged !! cs[k])
    && (forall x :: 0 <= x < i ==> x in merged || InSome(cs, x))
    && (forall x :: x in merged ==> 0 <= x < i)
    && Monochrome(g, merged + {i}) && Closed(g, merged, i) && Connected(merged + {i})
  }

  lemma StartMerging<T>(g: seq<T>, i: int, cs: seq<set<int>>)
    requires ClumpsUpTo(g, cs, i) && i < Size
    ensures Merging(g, i, cs, {})
  {
    ConnectedSingleton(i);
    assert {} + {i} == {i};
  }

  /** A cell below `i` that no listed clump holds has already been merged. */
  lemma NotFoundIsMerged<T>(g: seq<T>, i: int, cs: seq<set<int>>, merged: set<int>, y: int)
    requires Merging(g, i, cs, merged) && Find(cs, y) == -1 && 0 <= y
    ensures y < i ==> y in merged
  {
    if 0 <= y < i {
      assert y in merged || InSome(cs, y);
    }
  }

  /** The list without clump `j` still lists disjoint clumps, none meeting
      `merged + cs[j]`, and together with it they still hold every cell below `i`. */
  lemma RemovedClumps<T>(g: seq<T>, i: int, cs: seq<set<int>>, merged: set<int>, j: int)
    requires Merging(g, i, cs, merged) && 0 <= j < |cs|
    ensures var cs', merged' := cs[..j] + cs[j + 1..], merged + cs[j];
      && |cs'| == |cs| - 1
      && (forall k :: 0 <= k < |cs'| ==> Clump(g, cs'[k], i))
      && Disjoint(cs')
      && (forall k :: 0 <= k < |cs'| ==> merged' !! cs'[k])
      && (forall x :: 0 <= x < i ==> x in merged' || InSome(cs', x))
  {
    RemoveAt(cs, j);
    RemovedKeepsClumps(g, i, cs, merged, j);
    RemovedDisjoint(cs, j);
    RemovedCovers(i, cs, merged, j);
  }

  lemma RemovedKeepsClumps<T>(g: seq<T>, i: int, cs: seq<set<int>>, merged: set<int>, j: int)
    requires 0 <= j < |cs|
    requires forall k :: 0 <= k < |cs| ==> Clump(g, cs[k], i)
    requires forall k :: 0 <= k < |cs| ==> merged !! cs[k]
    requires Disjoint(cs)
    ensures var cs', merged' := cs[..j] + cs[j + 1..], merged + cs[j];
      && (forall k :: 0 <= k < |cs'| ==> Clump(g, cs'[k], i))
      && (forall k :: 0 <= k < |cs'| ==> merged' !! cs'[k])
  {
    var cs', merged' := cs[..j] + cs[j + 1..], merged + cs[j];
    forall k | 0 <= k < |cs'| ensures merged' !! cs'[k] && Clump(g, cs'[k], i) {
      if k < j { assert cs'[k] == cs[k]; } else { assert cs'[k] == cs[k + 1]; }
    }
  }

  lemma RemovedDisjoint(cs: seq<set<int>>, j: int)
    requires 0 <= j < |cs| && Disjoint(cs)
    ensures Disjoint(cs[..j] + cs[j + 1..])
  {
    var cs' := cs[..j] + cs[j + 1..];
    forall k, l | 0 <= k < l < |cs'| ensures cs'[k] !! cs'[l] {
      var k0 := if k < j then k else k + 1;
      var l0 := if l < j then l else l + 1;
      assert cs'[k] == cs[k0] && cs'[l] == cs[l0];
    }
  }

  lemma RemovedCovers(i: int, cs: seq<set<int>>, merged: set<int>, j: int)
    requires 0 <= j < |cs|
    requires forall x :: 0 <= x < i ==> x in merged || InSome(cs, x)
    ensures forall x :: 0 <= x < i ==> x in merged + cs[j] || InSome(cs[..j] + cs[j + 1..], x)
  {
    var cs', merged' := cs[..j] + cs[j + 1..], merged + cs[j];
    forall x | 0 <= x < i && x !in merged'
      ensures InSome(cs', x)
    {
      var k :| 0 <= k < |cs| && x in cs[k];
      if k < j { assert x in cs'[k]; } else { assert x in cs'[k - 1]; }
    }
  }

  /** Adding a clump that holds a same-label neighbour of `i` keeps the
      merged cells, with `i`, single-label, closed and connected. */
  lemma GrownMerged<T>(g: seq<T>, i: int, C: set<int>, merged: set<int>, adj: int)
    requires |g| == Size && 0 <= i < Size
    requires Clump(g, C, i) && adj in C && Adjacent(i, adj) && g[i] == g[adj]
    requires forall x :: x in merged ==> 0 <= x < i
    requires Monochrome(g, merged + {i}) && Closed(g, merged, i) && Connected(merged + {i})
    ensures var merged' := merged + C;
      && (forall x :: x in merged' ==> 0 <= x < i)
      && Monochrome(g, merged' + {i}) && Closed(g, merged', i) && Connected(merged' + {i})
  {
    var merged' := merged + C;
    assert Monochrome(g, merged' + {i}) by {
      forall x | x in merged' + {i} ensures g[x] == g[i] {
        if x in C { assert g[x] == g[adj]; }
      }
    }
    assert merged' + {i} == (merged + {i}) + C;
    ConnectedUnion(merged + {i}, C, i, adj);
  }

  /** A clump of the cells `0..i-1` that does not meet `merged` stays a clump
      once `i` is processed: a same-label neighbour of `i` would have been merged. */
  lemma UntouchedClumpExtends<T>(g: seq<T>, i: int, C: set<int>, merged: set<int>)
    requires |g| == Size && 0 <= i < Size
    requires Clump(g, C, i) && C !! merged
    requires forall y :: y in Adjacents(i) && y < i && g[y] == g[i] ==> y in merged
    ensures Clump(g, C, i + 1)
  {
    forall x, y | x in C && Adjacent(x, y) && y < i + 1 && g[x] == g[y]
      ensures y in C
    {
      if y == i {
        assert false;
      }
    }
  }

  /** The merged clump with `i` added is a clump of the cells `0..i`. */
  lemma NewClump<T>(g: seq<T>, i: int, merged: set<int>)
    requires |g| == Size && 0 <= i < Size
    requires forall x :: x in merged ==> 0 <= x < i
    requires Monochrome(g, merged + {i}) && Closed(g, merged, i) && Connected(merged + {i})
    requires forall y :: y in Adjacents(i) && y < i && g[y] == g[i] ==> y in merged
    ensures Clump(g, merged + {i}, i + 1)
  {
    var N := merged + {i};
    assert i in N;
    forall x, y | x in N && Adjacent(x, y) && y < i + 1 && g[x] == g[y]
      ensures y in N
    {
      if x == i && y < i {
        assert y in Adjacents(i);
      }
    }
  }

  /** Closing the step for cell `i`: appending the merged clump plus `i`
      gives the clumps of the cells `0..i`. */
  lemma CloseStep<T>(g: seq<T>, i: int, cs: seq<set<int>>, merged: set<int>)
    requires Merging(g, i, cs, merged)
    requires forall y :: y in Adjacents(i) && y < i && g[y] == g[i] ==> y in merged
    ensures ClumpsUpTo(g, cs + [merged + {i}], i + 1)
  {
    var N := merged + {i};
    var cs' := cs + [N];
    NewClump(g, i, merged);
    forall k | 0 <= k < |cs'| ensures Clump(g, cs'[k], i + 1) {
      if k < |cs| {
        UntouchedClumpExtends(g, i, cs[k], merged);
      }
    }
    forall x | 0 <= x < i + 1 ensures InSome(cs', x) {
      if x in N {
        assert x in cs'[|cs|];
      } else {
        var k :| 0 <= k < |cs| && x in cs[k];
        assert x in cs'[k];
      }
    }
    assert Disjoint(cs') by {
      forall k, l | 0 <= k < l < |cs'| ensures cs'[k] !! cs'[l] {
        if l == |cs| {
          assert Clump(g, cs[k], i);
        }
      }
    }
  }

  /** The neighbours `adjs[..k]` of `i` that carry its label and are already
      processed have been absorbed into `merged`. */
  ghost predicate Absorbed<T>(g: seq<T>, i: int, adjs: seq<int>, k: int, merged: set<int>)
    requires 0 <= i < |g| && 0 <= k <= |adjs|
    requires forall m :: 0 <= m < |adjs| ==> 0 <= adjs[m] < |g|
  {
    forall m :: 0 <= m < k ==> adjs[m] < i && g[adjs[m]] == g[i] ==> adjs[m] in merged
  }

  lemma AbsorbStep<T>(g: seq<T>, i: int, adjs: seq<int>, k: int, merged0: set<int>, merged: set<int>)
    requires 0 <= i < |g| && 0 <= k < |adjs|
    requires forall m :: 0 <= m < |adjs| ==> 0 <= adjs[m] < |g|
    requires Absorbed(g, i, adjs, k, merged0) && merged0 <= merged
    requires adjs[k] < i && g[adjs[k]] == g[i] ==> adjs[k] in merged
    ensures Absorbed(g, i, adjs, k + 1, merged)
  {
  }

  lemma AbsorbedAll<T>(g: seq<T>, i: int, merged: set<int>)
    requires |g| == Size && 0 <= i < Size
    requires Absorbed(g, i, Adjacents(i), |Adjacents(i)|, merged)
    ensures forall y :: y in Adjacents(i) && y < i && g[y] == g[i] ==> y in merged
  {
  }

  /** The neighbour merge of `FindClumps` for cell `i`: for each neighbour with the same label, in
      the order of `Adjacents`, the clump now holding it (if any) is removed
      from the list and its cells are added to `merged`. A clump reached
      through two neighbours is removed once; the second lookup finds nothing. */
  method MergeNeighbours<T(==)>(g: seq<T>, i: int, cs: seq<set<int>>)
    returns (rest: seq<set<int>>, merged: set<int>)
    requires ClumpsUpTo(g, cs, i) && i < Size
    ensures Merging(g, i, rest, merged)
    ensures forall y :: y in Adjacents(i) && y < i && g[y] == g[i] ==> y in merged
    ensures |rest| <= |cs|
  {
    var adjs := Adjacents(i);
    assert forall m :: 0 <= m < |adjs| ==> 0 <= adjs[m] < |g|;
    rest, merged := cs, {};
    StartMerging(g, i, cs);
    for k := 0 to |adjs|
      invariant Merging(g, i, rest, merged)
      invariant Absorbed(g, i, adjs, k, merged)
      invariant |rest| <= |cs|
    {
      var adj := adjs[k];
      ghost var merged0 := merged;
      if g[i] == g[adj] {
        var j := Find(rest, adj);
        if j >= 0 {
          RemovedClumps(g, i, rest, merged, j);
          GrownMerged(g, i, rest[j], merged, adj);
          var clump := rest[j];
          assert adj in clump;
          merged := merged + clump;
          rest := rest[..j] + rest[j + 1..];
          assert adj in merged && merged0 <= merged;
        } else {
          NotFoundIsMerged(g, i, rest, merged, adj);
        }
      }
      AbsorbStep(g, i, adjs, k, merged0, merged);
    }
    AbsorbedAll(g, i, merged);
  }

  /** `FindClumps`: processes the cells in index order; each cell takes in
      the clumps of its same-label neighbours found so far and the merged
      clump is appended. The count is the number of monochromatic connected
      components of the grid. */
  method FindClumps<T(==)>(g: seq<T>) returns (count: int, ghost clumps: seq<set<int>>)
    requires |g| == Size
    ensures IsComponentPartition(g, clumps) && count == |clumps|
    ensures HasComponents(g, count)
    ensures 1 <= count <= Size
  {
    var cs: seq<set<int>> := [];
    for i := 0 to Size
      invariant ClumpsUpTo(g, cs, i)
      invariant |cs| <= i && (i > 0 ==> |cs| > 0)
    {
      var rest, merged := MergeNeighbours(g, i, cs);
      CloseStep(g, i, rest, merged);
      cs := rest + [merged + {i}];
    }
    count := |cs|;
    clumps := cs;
  }
}
