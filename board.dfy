/** The simulation engine: a square board of cells that is changed in
    place by toggles, replaced by preset loading and advanced one
    generation at a time. */
module Engine {
  import opened Life
  import Presets

  class Board {
    /** The number of rows and of columns, fixed at construction. */
    const size: nat
    /** board[x, y] is the state of cell (x, y), true when alive. */
    var board: array2<bool>
    /** The cells of the board as a grid value. */
    ghost var cells: Grid

    /** The array is size by size and holds exactly cells. */
    ghost predicate Valid()
      reads this, board
    {
      && board.Length0 == size && board.Length1 == size
      && |cells| == size && IsSquare(cells)
      && forall x, y :: InBounds(size, x, y) ==> cells[x][y] == board[x, y]
    }

    /** A board of the given size with every cell dead. */
    constructor (size: nat)
      ensures Valid() && this.size == size && fresh(board)
      ensures cells == EmptyGrid(size)
    {
      this.size := size;
      var empty := GetEmptyBoard(size);
      board := empty;
      cells := EmptyGrid(size);
    }

    /** A new size-by-size array of dead cells. */
    static method GetEmptyBoard(size: nat) returns (b: array2<bool>)
      ensures fresh(b) && b.Length0 == size && b.Length1 == size
      ensures forall x, y :: 0 <= x < size && 0 <= y < size ==> !b[x, y]
    {
      b := new bool[size, size]((_, _) => false);
    }

    /** Whether (x, y) is a cell of the board. */
    predicate IsCellInBounds(x: int, y: int): (inside: bool)
      reads this
      ensures inside <==> 0 <= x < size && 0 <= y < size
    {
      InBounds(size, x, y)
    }

    function IsCellActive(x: int, y: int): (alive: bool)
      reads this, board
      requires Valid() && IsCellInBounds(x, y)
      ensures alive == cells[x][y]
    {
      board[x, y]
    }

    /** Flips cell (x, y) in place. */
    method ToggleCell(x: int, y: int)
      requires Valid() && IsCellInBounds(x, y)
      modifies this, board
      ensures Valid() && board == old(board)
      ensures cells == Toggle(old(cells), x, y)
    {
      board[x, y] := !board[x, y];
      cells := Toggle(cells, x, y);
    }

    /** Replaces the board by an empty one, then flips every cell the named
        preset lists. An unknown name leaves the board empty and reports
        found == false. */
    method ChangePreset(key: string) returns (found: bool)
      requires Valid()
      requires key in Presets.Table ==> AllInBounds(Presets.Table[key], size)
      modifies this
      ensures Valid() && fresh(board)
      ensures found <==> key in Presets.Table
      ensures found ==> cells == ApplyToggles(EmptyGrid(size), Presets.Table[key])
      ensures !found ==> cells == EmptyGrid(size)
    {
      board := GetEmptyBoard(size);
      cells := EmptyGrid(size);
      found := key in Presets.Table;
      if !found {
        return;
      }
      ToggleAll(Presets.Table[key]);
    }

    /** Flips the listed cells one after the other, in list order. */
    method ToggleAll(cs: seq<Coord>)
      requires Valid() && AllInBounds(cs, size)
      modifies this, board
      ensures Valid() && board == old(board)
      ensures cells == ApplyToggles(old(cells), cs)
    {
      ghost var start := cells;
      for k := 0 to |cs|
        invariant Valid() && board == old(board)
        invariant cells == ApplyToggles(start, cs[..k])
      {
        ToggleCell(cs[k].0, cs[k].1);
        assert cs[..k + 1] == cs[..k] + [cs[k]];
        ApplyTogglesSnoc(start, cs[..k], cs[k]);
      }
      assert cs[..|cs|] == cs;
    }

    /** The number of live cells adjacent to (x, y), cells off the board
        not counted. (x, y) itself need not be on the board. */
    method GetLiveNeighbors(x: int, y: int) returns (liveNeighbors: nat)
      requires Valid()
      ensures liveNeighbors == LiveNeighbors(cells, x, y)
    {
      liveNeighbors := 0;
      for i := -1 to 2
        invariant liveNeighbors == ScanCount(cells, x, y, i, -1)
      {
        for j := -1 to 2
          invariant liveNeighbors == ScanCount(cells, x, y, i, j)
        {
          if !(i == 0 && j == 0) && IsCellInBounds(x + i, y + j) && IsCellActive(x + i, y + j) {
            liveNeighbors := liveNeighbors + 1;
          }
        }
      }
      ScanCountComplete(cells, x, y);
    }

    /** Advances the board by one generation. Every neighbour count is read
        from the current board while the results go to a copy, which then
        replaces the board. */
    method Step()
      requires Valid()
      modifies this
      ensures Valid() && fresh(board)
      ensures cells == NextGen(old(cells))
    {
      ghost var g := cells;
      ghost var next := NextGen(g);
      var current := board;
      var newBoard := new bool[size, size]((x, y) reads current requires InBounds(size, x, y) => current[x, y]);
      for i := 0 to size
        modifies newBoard
        invariant cells == g
        invariant forall x, y :: InBounds(size, x, y) ==> newBoard[x, y] == if x < i then next[x][y] else g[x][y]
      {
        for j := 0 to size
          modifies newBoard
          invariant cells == g
          invariant forall x, y :: InBounds(size, x, y) ==> newBoard[x, y] == if x < i || (x == i && y < j) then next[x][y] else g[x][y]
        {
          var liveNeighbors := GetLiveNeighbors(i, j);
          assert liveNeighbors == LiveNeighbors(g, i, j);
          NextGenCell(g, i, j);
          ghost var cellNext := next[i][j];
          assert cellNext == Rule(g[i][j], liveNeighbors);
          label Before:
          if IsCellActive(i, j) {
            if liveNeighbors < 2 || liveNeighbors > 3 {
              newBoard[i, j] := false;
            }
          } else {
            if liveNeighbors == 3 {
              newBoard[i, j] := true;
            }
          }
          assert newBoard[i, j] == cellNext;
          forall x, y | InBounds(size, x, y)
            ensures newBoard[x, y] == if x < i || (x == i && y < j + 1) then next[x][y] else g[x][y]
          {
            if x != i || y != j {
              assert newBoard[x, y] == old@Before(newBoard[x, y]);
            }
          }
        }
      }
      board := newBoard;
      cells := next;
    }
  }

  /** What a caller can rely on: loading the blinker and stepping twice
      comes back to the loaded board. The board in between is the upright
      bar, as Presets.BlinkerOscillates shows. */
  method BlinkerRoundTrip() returns (b: Board)
    ensures b.Valid() && b.size == Presets.GameSize
    ensures b.cells == Presets.Loaded(Presets.Blinker)
  {
    Presets.BlinkerEntry();
    b := new Board(Presets.GameSize);
    var found := b.ChangePreset("blinker");
    assert b.cells == Presets.Loaded(Presets.Blinker);
    Presets.BlinkerOscillates();
    b.Step();
    b.Step();
  }
}
