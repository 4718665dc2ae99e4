/** The rules of Conway's Game of Life on a square grid with hard edges,
    stated as pure functions on values. The class Engine.Board is proved
    against these definitions. */
module Life {

  /** A grid of cells: g[x][y] is the state of cell (x, y), true when alive. */
  type Grid = seq<seq<bool>>

  /** A coordinate pair (x, y). */
  type Coord = (int, int)

  /** Every row has as many cells as there are rows. */
  predicate IsSquare(g: Grid) {
    forall x :: 0 <= x < |g| ==> |g[x]| == |g|
  }

  /** (x, y) lies on an n-by-n grid. */
  predicate InBounds(n: int, x: int, y: int) {
    0 <= x < n && 0 <= y < n
  }

  /** Every coordinate of cs lies on an n-by-n grid. */
  predicate AllInBounds(cs: seq<Coord>, n: int) {
    forall k :: 0 <= k < |cs| ==> InBounds(n, cs[k].0, cs[k].1)
  }

  /** Cell (x, y) is on the grid and alive. A position off the grid does
      not exist, so it is never alive: there is no wrap-around. */
  predicate Alive(g: Grid, x: int, y: int)
    requires IsSquare(g)
  {
    InBounds(|g|, x, y) && g[x][y]
  }

  /** An n-by-n grid with every cell dead. */
  function EmptyGrid(n: nat): (g: Grid)
    ensures |g| == n && IsSquare(g)
    ensures forall x, y :: InBounds(n, x, y) ==> !g[x][y]
  {
    seq(n, _ => seq(n, _ => false))
  }

  /** Two grids of the same shape that agree on every cell are equal. */
  lemma GridsEqual(a: Grid, b: Grid)
    requires IsSquare(a) && IsSquare(b) && |a| == |b|
    requires forall x, y :: InBounds(|a|, x, y) ==> a[x][y] == b[x][y]
    ensures a == b
  {
    forall x | 0 <= x < |a|
      ensures a[x] == b[x]
    {
      assert forall y :: 0 <= y < |a| ==> a[x][y] == b[x][y];
    }
  }

  // ---------------------------------------------------------------------
  // Point mutation

  /** The grid with cell (x, y) flipped. */
  function Toggle(g: Grid, x: int, y: int): (r: Grid)
    requires IsSquare(g) && InBounds(|g|, x, y)
    ensures |r| == |g| && IsSquare(r)
    ensures r[x][y] == !g[x][y]
    ensures forall a, b :: InBounds(|g|, a, b) && (a, b) != (x, y) ==> r[a][b] == g[a][b]
  {
    g[x := g[x][y := !g[x][y]]]
  }

  /** Flipping the same cell twice restores the grid. */
  lemma ToggleTwice(g: Grid, x: int, y: int)
    requires IsSquare(g) && InBounds(|g|, x, y)
    ensures Toggle(Toggle(g, x, y), x, y) == g
  {
    GridsEqual(Toggle(Toggle(g, x, y), x, y), g);
  }

  /** The grid after flipping every listed cell in turn, first to last. */
  function ApplyToggles(g: Grid, cs: seq<Coord>): (r: Grid)
    requires IsSquare(g) && AllInBounds(cs, |g|)
    ensures |r| == |g| && IsSquare(r)
    decreases |cs|
  {
    if cs == [] then g
    else
      var last := cs[|cs| - 1];
      Toggle(ApplyToggles(g, cs[..|cs| - 1]), last.0, last.1)
  }

  /** Toggling one more cell is one more Toggle. */
  lemma ApplyTogglesSnoc(g: Grid, cs: seq<Coord>, c: Coord)
    requires IsSquare(g) && AllInBounds(cs, |g|) && InBounds(|g|, c.0, c.1)
    ensures AllInBounds(cs + [c], |g|)
    ensures ApplyToggles(g, cs + [c]) == Toggle(ApplyToggles(g, cs), c.0, c.1)
  {
    assert (cs + [c])[..|cs|] == cs;
    assert forall k :: 0 <= k < |cs| ==> cs[k] == (cs + [c])[k];
  }

  predicate Odd(k: nat) {
    k % 2 == 1
  }

  /** After the flips, a cell differs from its starting state exactly when
      it is listed an odd number of times. */
  lemma {:induction false} ToggleParity(g: Grid, cs: seq<Coord>, x: int, y: int)
    requires IsSquare(g) && AllInBounds(cs, |g|) && InBounds(|g|, x, y)
    ensures ApplyToggles(g, cs)[x][y] == (g[x][y] != Odd(multiset(cs)[(x, y)]))
  {
    if cs != [] {
      var init, last := cs[..|cs| - 1], cs[|cs| - 1];
      assert cs == init + [last];
      assert multiset(cs) == multiset(init) + multiset{last};
      ToggleParity(g, init, x, y);
    }
  }

  /** No coordinate occurs twice. */
  predicate Distinct(cs: seq<Coord>) {
    forall i, j :: 0 <= i < j < |cs| ==> cs[i] != cs[j]
  }

  /** In a list without repeats, a coordinate occurs at most once. */
  lemma {:induction false} DistinctOccursOnce(cs: seq<Coord>, c: Coord)
    requires Distinct(cs)
    ensures multiset(cs)[c] == if c in cs then 1 else 0
  {
    if cs != [] {
      assert cs == [cs[0]] + cs[1..];
      assert multiset(cs) == multiset{cs[0]} + multiset(cs[1..]);
      assert Distinct(cs[1..]) by {
        forall i, j | 0 <= i < j < |cs| - 1 ensures cs[1..][i] != cs[1..][j] {
          assert cs[1..][i] == cs[i + 1] && cs[1..][j] == cs[j + 1];
        }
      }
      DistinctOccursOnce(cs[1..], c);
      if cs[0] == c {
        assert c !in cs[1..] by {
          forall k | 0 <= k < |cs| - 1 ensures cs[1..][k] != c {
            assert cs[1..][k] == cs[k + 1];
          }
        }
      }
    }
  }

  /** Flipping a repeat-free list of cells on an empty grid leaves exactly
      the listed cells alive, whatever order they are listed in. */
  lemma ToggledOnEmpty(n: nat, cs: seq<Coord>)
    requires Distinct(cs) && AllInBounds(cs, n)
    ensures forall x, y :: InBounds(n, x, y) ==> (ApplyToggles(EmptyGrid(n), cs)[x][y] <==> (x, y) in cs)
  {
    forall x, y | InBounds(n, x, y)
      ensures ApplyToggles(EmptyGrid(n), cs)[x][y] <==> (x, y) in cs
    {
      ToggleParity(EmptyGrid(n), cs, x, y);
      DistinctOccursOnce(cs, (x, y));
    }
  }

  // ---------------------------------------------------------------------
  // Neighbour count

  /** 1 when (x, y) is a live cell of g, 0 otherwise. */
  function Live(g: Grid, x: int, y: int): nat
    requires IsSquare(g)
  {
    if Alive(g, x, y) then 1 else 0
  }

  /** The number of live cells among the eight cells around (x, y). */
  function LiveNeighbors(g: Grid, x: int, y: int): (n: nat)
    requires IsSquare(g)
    ensures n <= 8
  {
    Live(g, x - 1, y - 1) + Live(g, x - 1, y) + Live(g, x - 1, y + 1) +
    Live(g, x,     y - 1) +                     Live(g, x,     y + 1) +
    Live(g, x + 1, y - 1) + Live(g, x + 1, y) + Live(g, x + 1, y + 1)
  }

  /** The eight positions adjacent to (x, y), row by row. */
  function Neighbors(x: int, y: int): seq<Coord> {
    [(x - 1, y - 1), (x - 1, y), (x - 1, y + 1),
     (x,     y - 1),             (x,     y + 1),
     (x + 1, y - 1), (x + 1, y), (x + 1, y + 1)]
  }

  /** The number of live cells among the listed positions, repeats counted. */
  function CountLive(g: Grid, ps: seq<Coord>): (n: nat)
    requires IsSquare(g)
    ensures n <= |ps|
  {
    if ps == [] then 0 else Live(g, ps[0].0, ps[0].1) + CountLive(g, ps[1..])
  }

  /** The live cells among the listed positions, as a set. */
  function LiveAmong(g: Grid, ps: seq<Coord>): set<Coord>
    requires IsSquare(g)
  {
    set c | c in ps && Alive(g, c.0, c.1)
  }

  /** Without repeats, the head does not occur again and the tail has no
      repeats either. */
  lemma DistinctTail(ps: seq<Coord>)
    requires Distinct(ps) && ps != []
    ensures Distinct(ps[1..]) && ps[0] !in ps[1..]
  {
    var rest := ps[1..];
    forall i, j | 0 <= i < j < |rest| ensures rest[i] != rest[j] {
      assert rest[i] == ps[i + 1] && rest[j] == ps[j + 1];
    }
    forall k | 0 <= k < |rest| ensures rest[k] != ps[0] {
      assert rest[k] == ps[k + 1];
    }
  }

  /** The live positions of a list are those of its tail, plus the head
      when the head is alive. */
  lemma LiveAmongCons(g: Grid, ps: seq<Coord>)
    requires IsSquare(g) && ps != []
    ensures LiveAmong(g, ps) == LiveAmong(g, ps[1..]) + (if Alive(g, ps[0].0, ps[0].1) then {ps[0]} else {})
  {
    assert ps == [ps[0]] + ps[1..];
    forall c ensures c in ps <==> c == ps[0] || c in ps[1..] {
    }
  }

  /** Over a list without repeats, counting live positions one by one gives
      the size of the set of live positions. */
  lemma {:induction false} CountLiveIsCardinality(g: Grid, ps: seq<Coord>)
    requires IsSquare(g) && Distinct(ps)
    ensures CountLive(g, ps) == |LiveAmong(g, ps)|
  {
    if ps != [] {
      DistinctTail(ps);
      CountLiveIsCardinality(g, ps[1..]);
      LiveAmongCons(g, ps);
      assert ps[0] !in LiveAmong(g, ps[1..]);
    }
  }

  /** Counting from position k is the state of ps[k] plus counting from k + 1. */
  lemma CountLiveFrom(g: Grid, ps: seq<Coord>, k: nat)
    requires IsSquare(g) && k < |ps|
    ensures CountLive(g, ps[k..]) == Live(g, ps[k].0, ps[k].1) + CountLive(g, ps[k + 1..])
  {
    assert ps[k..][1..] == ps[k + 1..];
  }

  /** The live cells adjacent to (x, y). */
  function NeighborCells(g: Grid, x: int, y: int): set<Coord>
    requires IsSquare(g)
  {
    LiveAmong(g, Neighbors(x, y))
  }

  /** The eight neighbour positions are pairwise different. */
  lemma NeighborsDistinct(x: int, y: int)
    ensures Distinct(Neighbors(x, y))
  {
  }

  /** The flat count is the count over the list of neighbour positions. */
  lemma LiveNeighborsAsCount(g: Grid, x: int, y: int)
    requires IsSquare(g)
    ensures LiveNeighbors(g, x, y) == CountLive(g, Neighbors(x, y))
  {
    var ps := Neighbors(x, y);
    assert ps[8..] == [];
    CountLiveFrom(g, ps, 7);
    CountLiveFrom(g, ps, 6);
    CountLiveFrom(g, ps, 5);
    CountLiveFrom(g, ps, 4);
    CountLiveFrom(g, ps, 3);
    CountLiveFrom(g, ps, 2);
    CountLiveFrom(g, ps, 1);
    CountLiveFrom(g, ps, 0);
    assert ps[0..] == ps;
  }

  /** The count is the number of distinct live cells adjacent to (x, y). */
  lemma LiveNeighborsIsCardinality(g: Grid, x: int, y: int)
    requires IsSquare(g)
    ensures LiveNeighbors(g, x, y) == |NeighborCells(g, x, y)|
  {
    NeighborsDistinct(x, y);
    LiveNeighborsAsCount(g, x, y);
    CountLiveIsCardinality(g, Neighbors(x, y));
  }

  /** A corner cell has at most three neighbours on the grid. */
  lemma CornerAtMostThree(g: Grid, x: int, y: int)
    requires IsSquare(g)
    requires (x == 0 || x == |g| - 1) && (y == 0 || y == |g| - 1)
    ensures LiveNeighbors(g, x, y) <= 3
  {
  }

  /** The count at (x, y) depends only on the cells of the grid that touch
      (x, y): cells on the opposite edge are never neighbours. */
  lemma NoWraparound(g: Grid, h: Grid, x: int, y: int)
    requires IsSquare(g) && IsSquare(h) && |g| == |h|
    requires forall a, b :: (a, b) in Neighbors(x, y) && InBounds(|g|, a, b) ==> g[a][b] == h[a][b]
    ensures LiveNeighbors(g, x, y) == LiveNeighbors(h, x, y)
  {
  }

  /** Offsets (i, j) scanned by a row-major sweep of the block
      -1 <= i, j <= 1 that has reached offset (i, j): the number of live
      neighbours among the offsets already passed, the centre excluded. */
  function ScanCount(g: Grid, x: int, y: int, i: int, j: int): nat
    requires IsSquare(g)
    requires -1 <= i <= 2 && -1 <= j <= 2
    decreases i + 1, j + 1
  {
    if j > -1 then
      ScanCount(g, x, y, i, j - 1) + (if !(i == 0 && j - 1 == 0) then Live(g, x + i, y + j - 1) else 0)
    else if i > -1 then
      ScanCount(g, x, y, i - 1, 2)
    else
      0
  }

  /** A complete sweep counts exactly the live neighbours. */
  lemma ScanCountComplete(g: Grid, x: int, y: int)
    requires IsSquare(g)
    ensures ScanCount(g, x, y, 2, -1) == LiveNeighbors(g, x, y)
  {
    assert ScanCount(g, x, y, 0, -1) == Live(g, x - 1, y - 1) + Live(g, x - 1, y) + Live(g, x - 1, y + 1) by {
      assert ScanCount(g, x, y, -1, 2) == ScanCount(g, x, y, -1, 1) + Live(g, x - 1, y + 1);
      assert ScanCount(g, x, y, -1, 1) == ScanCount(g, x, y, -1, 0) + Live(g, x - 1, y);
    }
    assert ScanCount(g, x, y, 1, -1) == ScanCount(g, x, y, 0, -1) + Live(g, x, y - 1) + Live(g, x, y + 1) by {
      assert ScanCount(g, x, y, 0, 2) == ScanCount(g, x, y, 0, 1) + Live(g, x, y + 1);
      assert ScanCount(g, x, y, 0, 1) == ScanCount(g, x, y, 0, 0);
    }
    assert ScanCount(g, x, y, 2, -1) == ScanCount(g, x, y, 1, -1) + Live(g, x + 1, y - 1) + Live(g, x + 1, y) + Live(g, x + 1, y + 1) by {
      assert ScanCount(g, x, y, 1, 2) == ScanCount(g, x, y, 1, 1) + Live(g, x + 1, y + 1);
      assert ScanCount(g, x, y, 1, 1) == ScanCount(g, x, y, 1, 0) + Live(g, x + 1, y);
    }
  }

  // ---------------------------------------------------------------------
  // Generation advance

  /** The Game of Life rule: a live cell survives with two or three live
      neighbours, a dead cell comes alive with exactly three. */
  predicate Rule(alive: bool, n: nat) {
    (alive && (n == 2 || n == 3)) || (!alive && n == 3)
  }

  /** The next generation, every cell computed from g alone. */
  function NextGen(g: Grid): (r: Grid)
    requires IsSquare(g)
    ensures |r| == |g| && IsSquare(r)
  {
    seq(|g|, x requires 0 <= x < |g| =>
      seq(|g|, y requires 0 <= y < |g| => Rule(g[x][y], LiveNeighbors(g, x, y))))
  }

  /** The next state of one cell. */
  lemma NextGenCell(g: Grid, x: int, y: int)
    requires IsSquare(g) && InBounds(|g|, x, y)
    ensures NextGen(g)[x][y] == Rule(g[x][y], LiveNeighbors(g, x, y))
  {
  }

  /** No spontaneous life: an empty grid stays empty. */
  lemma AllDeadStaysDead(n: nat)
    ensures NextGen(EmptyGrid(n)) == EmptyGrid(n)
  {
    var g := EmptyGrid(n);
    forall x, y | InBounds(n, x, y)
      ensures NextGen(g)[x][y] == g[x][y]
    {
      assert LiveNeighbors(g, x, y) == 0;
    }
    GridsEqual(NextGen(g), g);
  }

  /** A single live cell, wherever it is, has no live neighbour, dies of
      underpopulation and brings nothing to life. */
  lemma LoneCellDies(n: nat, x: int, y: int)
    requires InBounds(n, x, y)
    ensures LiveNeighbors(Toggle(EmptyGrid(n), x, y), x, y) == 0
    ensures NextGen(Toggle(EmptyGrid(n), x, y)) == EmptyGrid(n)
  {
    var g := Toggle(EmptyGrid(n), x, y);
    assert forall a, b :: Alive(g, a, b) <==> (a, b) == (x, y);
    forall a, b | InBounds(n, a, b)
      ensures NextGen(g)[a][b] == EmptyGrid(n)[a][b]
    {
      assert LiveNeighbors(g, a, b) <= 1;
    }
    GridsEqual(NextGen(g), EmptyGrid(n));
  }
}
