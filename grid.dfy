/** The 8x5 board of the Area Split module: row-major cell indices, the
    four-neighbour relation and the neighbour enumeration `GetAdjacents`. */
module Grid {

  /** A nullable value, as C#'s `int?`. */
  datatype Option<T> = None | Some(value: T)

  /** A cell of the grid under construction: unassigned (`null`) or a colour label. */
  type Cell = Option<int>

  const Width: int := 8
  const Height: int := 5
  const Size: int := Width * Height

  /** The four colour labels are 0 (red), 1 (yellow), 2 (green) and 3 (blue). */
  const Colours: int := 4

  predicate InGrid(n: int) {
    0 <= n < Size
  }

  function Row(n: int): int {
    n / Width
  }

  function Col(n: int): int {
    n % Width
  }

  /** Reference definition of 4-adjacency: two cells of the board that share
      a row and sit in neighbouring columns, or share a column and sit in
      neighbouring rows. */
  predicate Adjacent(m: int, n: int) {
    && InGrid(m) && InGrid(n)
    && ((Row(m) == Row(n) && (Col(m) + 1 == Col(n) || Col(n) + 1 == Col(m)))
        || (Col(m) == Col(n) && (Row(m) + 1 == Row(n) || Row(n) + 1 == Row(m))))
  }

  /** Rank of the direction in which `m` lies from `n`: left, right, up, down. */
  function Direction(n: int, m: int): int {
    if m == n - 1 then 0
    else if m == n + 1 then 1
    else if m == n - Width then 2
    else 3
  }

  /** `GetAdjacents`: the in-bounds left, right, up and down neighbours of `n`. */
  function Adjacents(n: int): (r: seq<int>)
    requires InGrid(n)
    ensures forall m :: m in r <==> Adjacent(n, m)
    ensures forall k :: 0 <= k < |r| ==> InGrid(r[k])
    ensures forall k :: 0 <= k < |r| ==>
              (Row(r[k]) == Row(n) && (r[k] == n - 1 || r[k] == n + 1))
              || r[k] == n - Width || r[k] == n + Width
  {
    (if Col(n) > 0 then [n - 1] else [])
    + (if Col(n) < Width - 1 then [n + 1] else [])
    + (if Row(n) > 0 then [n - Width] else [])
    + (if Row(n) < Height - 1 then [n + Width] else [])
  }

  /** Each neighbour is present exactly when its direction is open, the
      neighbours come in the order left, right, up, down, and none repeats. */
  lemma AdjacentsShape(n: int)
    requires InGrid(n)
    ensures (n - 1 in Adjacents(n)) <==> Col(n) > 0
    ensures (n + 1 in Adjacents(n)) <==> Col(n) < Width - 1
    ensures (n - Width in Adjacents(n)) <==> Row(n) > 0
    ensures (n + Width in Adjacents(n)) <==> Row(n) < Height - 1
    ensures forall k, l :: 0 <= k < l < |Adjacents(n)| ==>
              Direction(n, Adjacents(n)[k]) < Direction(n, Adjacents(n)[l])
  {
  }

  /** Adjacency is symmetric. */
  lemma AdjacentsSymmetric(i: int, j: int)
    requires InGrid(i) && InGrid(j)
    ensures j in Adjacents(i) <==> i in Adjacents(j)
  {
  }

  /** The three worked examples: two corners and an interior cell. */
  lemma AdjacentsExamples()
    ensures Adjacents(0) == [1, 8]
    ensures Adjacents(39) == [38, 31]
    ensures Adjacents(12) == [11, 13, 4, 20]
  {
  }

  /** A cell is determined by its row and column. */
  lemma SameCell(a: int, b: int)
    requires InGrid(a) && InGrid(b) && Row(a) == Row(b) && Col(a) == Col(b)
    ensures a == b
  {
  }

  /** One step to the right, left, down or up from a cell whose direction is
      open lands on an adjacent cell one column or one row over. */
  lemma Moves(a: int)
    requires InGrid(a)
    ensures Col(a) < Width - 1 ==> Adjacent(a, a + 1) && Row(a + 1) == Row(a) && Col(a + 1) == Col(a) + 1
    ensures Col(a) > 0 ==> Adjacent(a, a - 1) && Row(a - 1) == Row(a) && Col(a - 1) == Col(a) - 1
    ensures Row(a) < Height - 1 ==> Adjacent(a, a + Width) && Row(a + Width) == Row(a) + 1 && Col(a + Width) == Col(a)
    ensures Row(a) > 0 ==> Adjacent(a, a - Width) && Row(a - Width) == Row(a) - 1 && Col(a - Width) == Col(a)
  {
  }

  /** Number of occurrences of `x` in `s` (the source's `Where(x => x == i).Count()`). */
  function Count<T(==)>(s: seq<T>, x: T): (r: nat)
    ensures r <= |s|
    ensures r == 0 <==> x !in s
  {
    if s == [] then 0
    else Count(s[..|s| - 1], x) + (if s[|s| - 1] == x then 1 else 0)
  }
}
