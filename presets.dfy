/** The table of named starting positions and what loading each of them
    leaves on the board. */
module Presets {
  import opened Life

  /** The fixed board size of the application; every shipped preset is
      drawn for a board of this size. */
  const GameSize: nat := 25

  const Glider: seq<Coord> := [(9, 12), (10, 10), (10, 12), (11, 11), (11, 12)]

  /** A horizontal bar of three cells in row 12. */
  const Blinker: seq<Coord> := [(12, 11), (12, 12), (12, 13)]

  /** Listed row by row, in the order of the shipped table. */
  const Pulsar: seq<Coord> :=
    [(6, 8), (6, 9), (6, 10), (6, 14), (6, 15), (6, 16)] +
    [(8, 6), (8, 11), (8, 13), (8, 18)] +
    [(9, 6), (9, 11), (9, 13), (9, 18)] +
    [(10, 6), (10, 11), (10, 13), (10, 18)] +
    [(11, 8), (11, 9), (11, 10), (11, 14), (11, 15), (11, 16)] +
    [(13, 8), (13, 9), (13, 10), (13, 14), (13, 15), (13, 16)] +
    [(14, 6), (14, 11), (14, 13), (14, 18)] +
    [(15, 6), (15, 11), (15, 13), (15, 18)] +
    [(16, 6), (16, 11), (16, 13), (16, 18)] +
    [(18, 8), (18, 9), (18, 10), (18, 14), (18, 15), (18, 16)]

  /** The presets by name. */
  const Table: map<string, seq<Coord>> :=
    map["empty" := [], "glider" := Glider, "blinker" := Blinker, "pulsar" := Pulsar]

  /** The table has exactly the four shipped names, each with the number of
      cells the shipped table lists for it. */
  lemma TableEntries()
    ensures Table.Keys == {"empty", "glider", "blinker", "pulsar"}
    ensures Table["empty"] == [] && Table["glider"] == Glider && Table["blinker"] == Blinker && Table["pulsar"] == Pulsar
    ensures |Glider| == 5 && |Blinker| == 3 && |Pulsar| == 48
  {
  }

  /** The board a list of coordinates gives when it is loaded onto an
      empty board of the application's size. */
  function Loaded(cs: seq<Coord>): (g: Grid)
    requires AllInBounds(cs, GameSize)
    ensures |g| == GameSize && IsSquare(g)
  {
    ApplyToggles(EmptyGrid(GameSize), cs)
  }

  // ---------------------------------------------------------------------
  // The shipped presets have no repeats and fit the board

  /** Row-major order on coordinates. */
  predicate Before(a: Coord, b: Coord) {
    a.0 < b.0 || (a.0 == b.0 && a.1 < b.1)
  }

  /** Each coordinate comes before the next one in row-major order. */
  predicate Ascending(cs: seq<Coord>) {
    forall k :: 0 <= k < |cs| - 1 ==> Before(cs[k], cs[k + 1])
  }

  /** In an ascending list, an earlier coordinate comes before a later one. */
  lemma {:induction false} AscendingOrdered(cs: seq<Coord>, i: int, j: int)
    requires Ascending(cs) && 0 <= i < j < |cs|
    ensures Before(cs[i], cs[j])
    decreases j - i
  {
    if i + 1 < j {
      AscendingOrdered(cs, i + 1, j);
    }
  }

  /** An ascending list has no repeats. */
  lemma AscendingDistinct(cs: seq<Coord>)
    requires Ascending(cs)
    ensures Distinct(cs)
  {
    forall i, j | 0 <= i < j < |cs| ensures cs[i] != cs[j] {
      AscendingOrdered(cs, i, j);
    }
  }

  lemma PulsarAscending()
    ensures Ascending(Pulsar)
  {
    PulsarAscendingUpTo24();
    PulsarAscendingFrom24();
  }

  lemma PulsarAscendingUpTo24()
    ensures forall k :: 0 <= k < 24 ==> Before(Pulsar[k], Pulsar[k + 1])
  {
  }

  lemma PulsarAscendingFrom24()
    ensures forall k :: 24 <= k < |Pulsar| - 1 ==> Before(Pulsar[k], Pulsar[k + 1])
  {
  }

  lemma PulsarFits()
    ensures AllInBounds(Pulsar, GameSize)
  {
  }

  /** Every shipped preset lists each cell once and fits the board. */
  lemma ShippedPresetsWellFormed()
    ensures forall key :: key in Table ==> Distinct(Table[key]) && AllInBounds(Table[key], GameSize)
  {
    PulsarAscending();
    PulsarFits();
    AscendingDistinct(Pulsar);
    AscendingDistinct(Glider);
    AscendingDistinct(Blinker);
  }

  /** Loading a shipped preset leaves exactly its listed cells alive. */
  lemma LoadedPresetCells(key: string)
    requires key in Table
    ensures AllInBounds(Table[key], GameSize)
    ensures forall x, y :: InBounds(GameSize, x, y) ==> (Loaded(Table[key])[x][y] <==> (x, y) in Table[key])
  {
    ShippedPresetsWellFormed();
    ToggledOnEmpty(GameSize, Table[key]);
  }

  /** The table lists the blinker under "blinker". */
  lemma BlinkerEntry()
    ensures "blinker" in Table && Table["blinker"] == Blinker
    ensures AllInBounds(Blinker, GameSize)
  {
  }

  // ---------------------------------------------------------------------
  // The blinker oscillates with period two

  /** The blinker turned upright: column 12, rows 11 to 13. */
  const BlinkerUpright: seq<Coord> := [(11, 12), (12, 12), (13, 12)]

  /** Where the live cells are exactly row 12, columns 11 to 13, a cell is
      alive in the next generation exactly when it lies in column 12,
      rows 11 to 13. */
  lemma HorizontalBarCell(g: Grid, x: int, y: int)
    requires IsSquare(g) && |g| == GameSize && InBounds(GameSize, x, y)
    requires forall a, b :: Alive(g, a, b) <==> (a == 12 && 11 <= b <= 13)
    ensures Rule(g[x][y], LiveNeighbors(g, x, y)) <==> (11 <= x <= 13 && y == 12)
  {
    assert g[x][y] == Alive(g, x, y);
    if x < 11 || x > 13 || y < 10 || y > 14 {
      assert LiveNeighbors(g, x, y) == 0;
    }
  }

  /** Where the live cells are exactly column 12, rows 11 to 13, a cell is
      alive in the next generation exactly when it lies in row 12,
      columns 11 to 13. */
  lemma UprightBarCell(g: Grid, x: int, y: int)
    requires IsSquare(g) && |g| == GameSize && InBounds(GameSize, x, y)
    requires forall a, b :: Alive(g, a, b) <==> (11 <= a <= 13 && b == 12)
    ensures Rule(g[x][y], LiveNeighbors(g, x, y)) <==> (x == 12 && 11 <= y <= 13)
  {
    assert g[x][y] == Alive(g, x, y);
    if x < 10 || x > 14 || y < 11 || y > 13 {
      assert LiveNeighbors(g, x, y) == 0;
    }
  }

  /** One generation turns the horizontal bar into the upright one. */
  lemma HorizontalBlinkerTurns(g: Grid, h: Grid)
    requires IsSquare(g) && IsSquare(h) && |g| == |h| == GameSize
    requires forall x, y :: InBounds(GameSize, x, y) ==> (g[x][y] <==> (x == 12 && 11 <= y <= 13))
    requires forall x, y :: InBounds(GameSize, x, y) ==> (h[x][y] <==> (11 <= x <= 13 && y == 12))
    ensures NextGen(g) == h
  {
    forall x, y | InBounds(GameSize, x, y)
      ensures NextGen(g)[x][y] == h[x][y]
    {
      HorizontalBarCell(g, x, y);
    }
    GridsEqual(NextGen(g), h);
  }

  /** One generation turns the upright bar back into the horizontal one. */
  lemma UprightBlinkerTurns(g: Grid, h: Grid)
    requires IsSquare(g) && IsSquare(h) && |g| == |h| == GameSize
    requires forall x, y :: InBounds(GameSize, x, y) ==> (g[x][y] <==> (11 <= x <= 13 && y == 12))
    requires forall x, y :: InBounds(GameSize, x, y) ==> (h[x][y] <==> (x == 12 && 11 <= y <= 13))
    ensures NextGen(g) == h
  {
    forall x, y | InBounds(GameSize, x, y)
      ensures NextGen(g)[x][y] == h[x][y]
    {
      UprightBarCell(g, x, y);
    }
    GridsEqual(NextGen(g), h);
  }

  /** The loaded blinker is the bar in row 12, columns 11 to 13. */
  lemma LoadedBlinker()
    ensures AllInBounds(Blinker, GameSize)
    ensures forall x, y :: InBounds(GameSize, x, y) ==> (Loaded(Blinker)[x][y] <==> (x == 12 && 11 <= y <= 13))
  {
    AscendingDistinct(Blinker);
    ToggledOnEmpty(GameSize, Blinker);
  }

  /** The loaded upright blinker is the bar in column 12, rows 11 to 13. */
  lemma LoadedBlinkerUpright()
    ensures AllInBounds(BlinkerUpright, GameSize)
    ensures forall x, y :: InBounds(GameSize, x, y) ==> (Loaded(BlinkerUpright)[x][y] <==> (11 <= x <= 13 && y == 12))
  {
    AscendingDistinct(BlinkerUpright);
    ToggledOnEmpty(GameSize, BlinkerUpright);
  }

  /** The loaded blinker turns upright after one generation and is back
      after two. */
  lemma BlinkerOscillates()
    ensures AllInBounds(Blinker, GameSize) && AllInBounds(BlinkerUpright, GameSize)
    ensures NextGen(Loaded(Blinker)) == Loaded(BlinkerUpright)
    ensures NextGen(NextGen(Loaded(Blinker))) == Loaded(Blinker)
  {
    LoadedBlinker();
    LoadedBlinkerUpright();
    HorizontalBlinkerTurns(Loaded(Blinker), Loaded(BlinkerUpright));
    UprightBlinkerTurns(Loaded(BlinkerUpright), Loaded(Blinker));
  }
}
