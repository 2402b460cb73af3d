/**
  The game engine `_MSGame`: a 2-D array of cells, the counters `nmarked`
  and `nuncovered`, the flag `exploded` and the mine count `nmines`, with
  the moves `uncover` and `mark` and the queries `getRendering` and
  `getStatus`. Mines are placed lazily by the first `uncover`.
*/
module Game {
  import opened Board
  import opened Moves

  /** `array2d`: a fresh `nrows` by `ncols` array whose cell (row, col) holds `val(row, col)`. */
  method Array2d<T(0)>(nrows: nat, ncols: nat, val: (int, int) -> T) returns (res: array2<T>)
    ensures fresh(res)
    ensures res.Length0 == nrows && res.Length1 == ncols
    ensures forall r, c :: 0 <= r < nrows && 0 <= c < ncols ==> res[r, c] == val(r, c)
  {
    res := new T[nrows, ncols];
    for row := 0 to nrows
      invariant forall r, c :: 0 <= r < row && 0 <= c < ncols ==> res[r, c] == val(r, c)
    {
      for col := 0 to ncols
        invariant forall r, c :: 0 <= r < row && 0 <= c < ncols ==> res[r, c] == val(r, c)
        invariant forall c :: 0 <= c < col ==> res[row, c] == val(row, c)
      {
        res[row, col] := val(row, col);
      }
    }
  }

  /** `rndInt(min, max)`: some integer of [min, max]; which one is left open. */
  method RndInt(min: int, max: int) returns (r: int)
    requires min <= max
    ensures min <= r <= max
  {
    r :| min <= r <= max;
  }

  /** The mines of the block of `p` that the scan of `count` has passed before offset (dr, dc). */
  ghost function Scanned(mines: set<Coord>, p: Coord, dr: int, dc: int): set<Coord>
  {
    set q | q in mines && Near(p, q) && (q.0 - p.0 < dr || (q.0 - p.0 == dr && q.1 - p.1 < dc))
  }

  lemma ScanStart(mines: set<Coord>, p: Coord)
    ensures |Scanned(mines, p, -1, -1)| == 0
  {
    assert Scanned(mines, p, -1, -1) == {};
  }

  /** Offset (dr, dc) adds one to the scanned count exactly when it hits a mine. */
  lemma ScanStep(mines: set<Coord>, p: Coord, dr: int, dc: int)
    requires -1 <= dr <= 1 && -1 <= dc <= 1
    ensures |Scanned(mines, p, dr, dc + 1)|
         == |Scanned(mines, p, dr, dc)| + (if (p.0 + dr, p.1 + dc) in mines then 1 else 0)
  {
    var q := (p.0 + dr, p.1 + dc);
    var before := Scanned(mines, p, dr, dc);
    if q in mines {
      assert Scanned(mines, p, dr, dc + 1) == before + {q};
      assert q !in before;
    } else {
      assert Scanned(mines, p, dr, dc + 1) == before;
    }
  }

  lemma ScanRow(mines: set<Coord>, p: Coord, dr: int)
    ensures |Scanned(mines, p, dr, 2)| == |Scanned(mines, p, dr + 1, -1)|
  {
    assert Scanned(mines, p, dr, 2) == Scanned(mines, p, dr + 1, -1);
  }

  lemma ScanEnd(mines: set<Coord>, p: Coord)
    ensures |Scanned(mines, p, 2, -1)| == MineCount(mines, p)
  {
    assert Scanned(mines, p, 2, -1) == NearMines(mines, p);
  }

  class MSGame {
    var nrows: nat
    var ncols: nat
    var nmines: nat
    var nmarked: int
    var nuncovered: nat
    var exploded: bool
    var arr: array2<Cell>
    /** The board as a value: kept equal to the contents of `arr`. */
    ghost var board: Cells

    /** `arr` is `nrows` by `ncols` and holds exactly `board`. */
    ghost predicate Linked()
      reads this`nrows, this`ncols, this`arr, this`board, arr
    {
      arr.Length0 == nrows && arr.Length1 == ncols &&
      board.Keys == Coords(nrows, ncols) &&
      forall r, c :: 0 <= r < nrows && 0 <= c < ncols ==> board[(r, c)] == arr[r, c]
    }

    /** The engine's invariant, `Consistent`, on the board and the counters. */
    ghost predicate Valid()
      reads this, arr
    {
      Linked() && Consistent(board, nrows, ncols, nmines, nmarked, nuncovered, exploded)
    }

    /** A new game is an easy one: 8 rows, 10 columns, 10 mines. */
    constructor ()
      ensures Valid()
      ensures nrows == 8 && ncols == 10 && nmines == 10
      ensures nmarked == 0 && nuncovered == 0 && !exploded
      ensures forall p :: p in board ==> board[p] == Fresh
    {
      arr := new Cell[0, 0];
      new;
      Init(8, 10, 10);
    }

    function ValidCoord(row: int, col: int): (b: bool)
      reads this`nrows, this`ncols
      ensures b <==> (row, col) in Coords(nrows, ncols)
    {
      row >= 0 && row < nrows && col >= 0 && col < ncols
    }

    /** `init`: a board of `nrows` by `ncols` hidden cells without mines, and all counters zero. */
    method Init(nrows: nat, ncols: nat, nmines: nat)
      modifies this
      ensures Valid()
      ensures this.nrows == nrows && this.ncols == ncols && this.nmines == nmines
      ensures nmarked == 0 && nuncovered == 0 && !exploded
      ensures fresh(arr)
      ensures board.Keys == Coords(nrows, ncols)
      ensures forall p :: p in board ==> board[p] == Fresh
    {
      this.nrows := nrows;
      this.ncols := ncols;
      this.nmines := nmines;
      nmarked := 0;
      nuncovered := 0;
      exploded := false;
      arr := Array2d(nrows, ncols, (r, c) => Fresh);
      board := map p | p in Coords(nrows, ncols) :: Fresh;
      FreshConsistent(board, nrows, ncols, nmines);
    }

    /** Reading the mine flag of the array is reading the mine set of the board. */
    lemma MineAt(r: int, c: int)
      requires Linked()
      ensures (r, c) in Mines(board) <==> ValidCoord(r, c) && arr[r, c].mine
    {
      if ValidCoord(r, c) {
        assert board[(r, c)] == arr[r, c];
      }
    }

    /** `count`: the number of mines in the 3x3 block centred on (row, col), the cell itself included. */
    method Count(row: int, col: int) returns (res: nat)
      requires Linked()
      ensures res == MineCount(Mines(board), (row, col))
    {
      ghost var mines := Mines(board);
      ghost var p := (row, col);
      ScanStart(mines, p);
      res := 0;
      for dr := -1 to 2
        invariant res == |Scanned(mines, p, dr, -1)|
      {
        for dc := -1 to 2
          invariant res == |Scanned(mines, p, dr, dc)|
        {
          ScanStep(mines, p, dr, dc);
          MineAt(row + dr, col + dc);
          if ValidCoord(row + dr, col + dc) && arr[row + dr, col + dc].mine {
            res := res + 1;
          }
        }
        ScanRow(mines, p, dr);
      }
      ScanEnd(mines, p);
    }

    /**
      `sprinkleMines(row, col)`: lowers `nmines` to the number of positions
      outside the 5x5 block centred on (row, col) if it is larger, puts the
      mines on randomly chosen ones of those positions, then erases every
      mark and recomputes every count. `allowed` is the list of candidate
      positions once shuffled: a repetition-free listing of the positions
      outside the block whose first `nmines` got the mines.
    */
    method SprinkleMines(row: int, col: int) returns (ghost allowed: seq<Coord>)
      requires Linked()
      modifies this`nmines, this`board, arr
      ensures Linked()
      ensures Distinct(allowed) && Elems(allowed) == Outside(nrows, ncols, (row, col))
      ensures nmines == Min(old(nmines), |allowed|)
      ensures board == Sprinkled(old(board), Elems(allowed[..nmines]))
    {
      var list := AllowedCells(row, col);
      DistinctCard(list);
      nmines := Min(nmines, |list|);
      allowed := PlaceMines(list);
      Recount();
      RecountDone(old(board), Elems(allowed[..nmines]), nrows, ncols);
    }

    /** The first loop of `sprinkleMines`: the positions outside the 5x5 block centred on (row, col), row by row. */
    method AllowedCells(row: int, col: int) returns (list: seq<Coord>)
      ensures Distinct(list) && Elems(list) == Outside(nrows, ncols, (row, col))
    {
      ghost var p := (row, col);
      list := [];
      OutsideBeforeStart(nrows, ncols, p);
      for r := 0 to nrows
        invariant Distinct(list) && Elems(list) == OutsideBefore(nrows, ncols, p, r, 0)
      {
        for c := 0 to ncols
          invariant Distinct(list) && Elems(list) == OutsideBefore(nrows, ncols, p, r, c)
        {
          OutsideBeforeStep(nrows, ncols, p, r, c);
          if Abs(row - r) > 2 || Abs(col - c) > 2 {
            DistinctAppend(list, (r, c));
            list := list + [(r, c)];
          }
        }
        OutsideBeforeRow(nrows, ncols, p, r);
      }
      OutsideBeforeEnd(nrows, ncols, p);
    }

    /**
      The second loop of `sprinkleMines`: for each i below `nmines`, swaps a
      random entry of list[i..] into place i and puts a mine there. Returns
      the list as shuffled.
    */
    method PlaceMines(list: seq<Coord>) returns (shuffled: seq<Coord>)
      requires Linked() && nmines <= |list|
      requires Distinct(list) && Elems(list) <= board.Keys
      modifies this`board, arr
      ensures Linked()
      ensures Distinct(shuffled) && Elems(shuffled) == Elems(list) && |shuffled| == |list|
      ensures board == Mined(old(board), Elems(shuffled[..nmines]))
    {
      ghost var g0 := board;
      shuffled := list;
      MinedNone(g0);
      for i := 0 to nmines
        invariant Linked() && |shuffled| == |list|
        invariant Distinct(shuffled) && Elems(shuffled) == Elems(list)
        invariant board == Mined(g0, Elems(shuffled[..i]))
      {
        var j := RndInt(i, |shuffled| - 1);
        DistinctSwap(shuffled, i, j);
        ghost var before := shuffled[..i];
        shuffled := shuffled[i := shuffled[j]][j := shuffled[i]];
        assert shuffled[..i] == before;
        var (r, c) := shuffled[i];
        assert (r, c) in Elems(list);
        assert Elems(shuffled[..i + 1]) == Elems(shuffled[..i]) + {(r, c)} by {
          assert shuffled[..i + 1] == shuffled[..i] + [(r, c)];
        }
        MinedStep(g0, Elems(shuffled[..i]), (r, c));
        SetCell(r, c, arr[r, c].(mine := true));
      }
    }

    /** The third loop of `sprinkleMines`: every mark becomes "hidden" and every count is recomputed (one write per cell). */
    method Recount()
      requires Linked()
      modifies this`board, arr
      ensures Linked()
      ensures board == RecountedUpTo(old(board), nrows, 0)
    {
      ghost var g1 := board;
      RecountStart(g1, nrows, ncols);
      for r := 0 to nrows
        invariant Linked() && board == RecountedUpTo(g1, r, 0)
      {
        for c := 0 to ncols
          invariant Linked() && board == RecountedUpTo(g1, r, c)
        {
          RecountStep(g1, r, c);
          var v := arr[r, c];
          var n := Count(r, c);
          SetCell(r, c, Cell(v.mine, Unmark(v.state), n));
        }
        RecountRow(g1, nrows, ncols, r);
      }
    }

    /**
      `uncover(row, col)`: refused off the grid. The first uncover of a game
      sprinkles the mines away from (row, col). Then it is refused when the
      cell is not hidden; otherwise it flood fills from the cell, sets
      `exploded` when the cell holds a mine, and is accepted even then.
      `laid` is the board just before the hidden check and `placed` the
      mines sprinkled on the way (none after the first move).
    */
    method Uncover(row: int, col: int) returns (ok: bool, ghost laid: Cells, ghost placed: set<Coord>)
      requires Valid()
      modifies this`nmines, this`nuncovered, this`exploded, this`board, arr
      ensures Valid()
      ensures !ValidCoord(row, col) ==>
                !ok && board == old(board) && nmines == old(nmines) &&
                nuncovered == old(nuncovered) && exploded == old(exploded)
      ensures ValidCoord(row, col) && old(nuncovered) == 0 ==>
                ok && laid == Sprinkled(old(board), placed) &&
                placed <= Outside(nrows, ncols, (row, col)) && |placed| == nmines &&
                nmines == Min(old(nmines), |Outside(nrows, ncols, (row, col))|)
      ensures ValidCoord(row, col) && old(nuncovered) != 0 ==>
                laid == old(board) && nmines == old(nmines)
      ensures ValidCoord(row, col) ==> (ok <==> laid[(row, col)].state.Hidden?)
      ensures ValidCoord(row, col) && !ok ==>
                board == laid && nuncovered == old(nuncovered) && exploded == old(exploded)
      ensures ok ==> Revealed(laid, board) && Closed(laid, board) && board[(row, col)].state.Shown?
      ensures ok ==> NewlyShown(laid, board) == Region(laid, (row, col))
      ensures ok ==> nuncovered == old(nuncovered) + |NewlyShown(laid, board)|
      ensures ok ==> exploded == (old(exploded) || laid[(row, col)].mine)
      ensures ok ==> forall q :: q in NewlyShown(laid, board) && q != (row, col) ==> !board[q].mine
      ensures ValidCoord(row, col) && old(nuncovered) == 0 ==> !exploded && MarkedSet(board) == {}
      ensures old(nuncovered) != 0 ==> MarkedSet(board) == MarkedSet(old(board))
    {
      laid, placed := board, {};
      if !ValidCoord(row, col) {
        return false, laid, placed;
      }
      placed := SprinkleIfFirst(row, col);
      laid := board;
      if !arr[row, col].state.Hidden? {
        if nuncovered != 0 {
          LaidConsistent(board, nrows, ncols, nmines, nmarked, nuncovered, exploded);
        }
        return false, laid, placed;
      }
      UncoverHidden(row, col);
      ok := true;
    }

    /**
      The start of `uncover` on a valid coordinate: on the first move of a
      game, the mines are sprinkled away from (row, col), which leaves that
      cell hidden. Either way, the game is then laid.
    */
    method SprinkleIfFirst(row: int, col: int) returns (ghost placed: set<Coord>)
      requires Valid() && ValidCoord(row, col)
      modifies this`nmines, this`board, arr
      ensures Linked() && Laid(board, nrows, ncols, nmines, nmarked, nuncovered, exploded)
      ensures old(nuncovered) == 0 ==>
                board == Sprinkled(old(board), placed) && board[(row, col)].state.Hidden? &&
                placed <= Outside(nrows, ncols, (row, col)) && |placed| == nmines &&
                nmines == Min(old(nmines), |Outside(nrows, ncols, (row, col))|)
      ensures old(nuncovered) == 0 ==>
                !board[(row, col)].mine && !exploded && MarkedSet(board) == {}
      ensures old(nuncovered) != 0 ==> board == old(board) && nmines == old(nmines)
    {
      placed := {};
      if nuncovered == 0 {
        ghost var g := board;
        ghost var m0 := nmines;
        ghost var allowed := SprinkleMines(row, col);
        placed := Elems(allowed[..nmines]);
        DistinctCard(allowed);
        assert Distinct(allowed[..nmines]);
        DistinctCard(allowed[..nmines]);
        SprinkledLaid(g, nrows, ncols, m0, nmarked, exploded, placed, nmines);
        SprinkledTargetHidden(g, placed, (row, col));
        FirstMoveSafe(g, nrows, ncols, nmarked, exploded, placed, (row, col));
      } else {
        ConsistentLaid(board, nrows, ncols, nmines, nmarked, nuncovered, exploded);
      }
    }

    /**
      The rest of `uncover` once (row, col) is a hidden cell of a laid game:
      flood fill from it, then set `exploded` if it holds a mine.
    */
    method UncoverHidden(row: int, col: int)
      requires Linked() && Laid(board, nrows, ncols, nmines, nmarked, nuncovered, exploded)
      requires ValidCoord(row, col) && board[(row, col)].state.Hidden?
      modifies this`nuncovered, this`exploded, this`board, arr
      ensures Valid()
      ensures Revealed(old(board), board) && Closed(old(board), board) && board[(row, col)].state.Shown?
      ensures NewlyShown(old(board), board) == Region(old(board), (row, col))
      ensures nuncovered == old(nuncovered) + |NewlyShown(old(board), board)|
      ensures exploded == (old(exploded) || old(board)[(row, col)].mine)
      ensures forall q :: q in NewlyShown(old(board), board) && q != (row, col) ==> !board[q].mine
      ensures MarkedSet(board) == MarkedSet(old(board))
    {
      ghost var p := (row, col);
      ghost var g := board;
      ghost var n0 := nuncovered;
      ghost var rank := FloodFill(row, col);
      FloodUncovered(g, board, p, rank, nrows, ncols, nmines, nmarked, n0, nuncovered, exploded);
      Explode(row, col);
    }

    /** The end of `uncover`: the game explodes when the uncovered cell holds a mine. */
    method Explode(row: int, col: int)
      requires Linked() && ValidCoord(row, col)
      requires Consistent(board, nrows, ncols, nmines, nmarked, nuncovered, exploded || board[(row, col)].mine)
      modifies this`exploded
      ensures Valid()
      ensures exploded == (old(exploded) || board[(row, col)].mine)
      ensures board == old(board) && nuncovered == old(nuncovered)
    {
      if arr[row, col].mine {
        exploded := true;
      }
    }

    /**
      The flood fill `ff(r, c)` inside `uncover`: off the grid or on a cell
      that is not hidden it does nothing; otherwise it shows the cell, adds
      one to `nuncovered` and, when the cell's count is 0, goes on with
      each of the eight neighbours in turn, in the order of `Around`.
      `rank` gives each cell shown the value `nuncovered` took when it was.
    */
    method FloodFill(r: int, c: int) returns (ghost rank: map<Coord, int>)
      requires Linked()
      modifies this`nuncovered, this`board, arr
      ensures Linked()
      ensures Flooded(old(board), board, (r, c), rank, old(nuncovered))
      ensures nuncovered == old(nuncovered) + |NewlyShown(old(board), board)|
      decreases HiddenSet(board), 3
    {
      rank := map[];
      if !ValidCoord(r, c) {
        FloodedSkip(board, (r, c), nuncovered);
        return;
      }
      if !arr[r, c].state.Hidden? {
        FloodedSkip(board, (r, c), nuncovered);
        return;
      }
      ghost var g0 := board;
      ghost var n0 := nuncovered;
      ghost var p := (r, c);
      arr[r, c] := arr[r, c].(state := Shown);
      board := board[p := arr[r, c]];
      nuncovered := nuncovered + 1;
      rank := map[p := nuncovered];
      assert Linked() && board == g0[p := g0[p].(state := Shown)];
      if arr[r, c].count != 0 {
        FloodedStop(g0, p, n0);
        return;
      }
      rank := FloodZero(g0, n0, (r, c));
    }

    /** The fill from `p` once `ff` has shown it and found its count 0. */
    method FloodZero(ghost g0: Cells, ghost n0: nat, p: Coord) returns (ghost rank: map<Coord, int>)
      requires Linked() && p in g0 && g0[p].state.Hidden? && g0[p].count == 0
      requires board == g0[p := g0[p].(state := Shown)] && nuncovered == n0 + 1
      modifies this`nuncovered, this`board, arr
      ensures Linked()
      ensures Flooded(g0, board, p, rank, n0) && nuncovered == n0 + |NewlyShown(g0, board)|
      decreases HiddenSet(g0), 2
    {
      rank := map[p := n0 + 1];
      PartialStart(g0, p, n0);
      assert AroundVisited(p, 0) == {p};
      assert NewlyShown(g0, board) == {p};
      assert Filling(g0, board, p, 0, rank, n0, nuncovered);
      rank := FloodAround(g0, n0, p, rank);
      AroundCovers(p);
      PartialDone(g0, board, p, AroundVisited(p, |Around|), rank, n0);
    }

    /** The eight recursive calls of `ff(r, c)`, on the neighbours in the order of `Around`. */
    method FloodAround(ghost g0: Cells, ghost n0: nat, p: Coord, ghost rank0: map<Coord, int>)
      returns (ghost rank: map<Coord, int>)
      requires Linked() && Filling(g0, board, p, 0, rank0, n0, nuncovered)
      modifies this`nuncovered, this`board, arr
      ensures Linked() && Filling(g0, board, p, |Around|, rank, n0, nuncovered)
      decreases HiddenSet(g0), 1
    {
      rank := rank0;
      for k := 0 to |Around|
        invariant Linked() && Filling(g0, board, p, k, rank, n0, nuncovered)
      {
        rank := FloodNeighbour(g0, n0, p, k, rank);
      }
    }

    /**
      One recursive call `ff(r, c)` made while filling from `p`, on its
      neighbour number `k`: it carries the fill from `p` on, one more
      neighbour visited.
    */
    method FloodNeighbour(ghost g0: Cells, ghost n0: nat, p: Coord, k: nat, ghost rank0: map<Coord, int>)
      returns (ghost rank: map<Coord, int>)
      requires k < |Around|
      requires Linked() && Filling(g0, board, p, k, rank0, n0, nuncovered)
      modifies this`nuncovered, this`board, arr
      ensures Linked() && Filling(g0, board, p, k + 1, rank, n0, nuncovered)
      decreases HiddenSet(g0), 0
    {
      var (r, c) := Neighbour(p, k);
      ghost var g := board;
      PartialShrinks(g0, g, p, AroundVisited(p, k), rank0, n0);
      ghost var sub := FloodFill(r, c);
      AroundNear(p, k, r, c);
      PartialStep(g0, g, board, p, (r, c), AroundVisited(p, k), rank0, sub, n0);
      AroundVisitedStep(p, k, r, c);
      FloodedRevealed(g, board, (r, c), sub, n0 + |NewlyShown(g0, g)|);
      NewlyShownAdds(g0, g, board);
      rank := rank0 + sub;
    }

    /**
      `mark`: refused (false, nothing changes) off the grid or on a shown
      cell; otherwise flips hidden and marked and moves `nmarked` by one.
    */
    method Mark(row: int, col: int) returns (ok: bool)
      requires Valid()
      modifies this`nmarked, this`board, arr
      ensures Valid()
      ensures ok == ((row, col) in old(board) && !old(board)[(row, col)].state.Shown?)
      ensures ok ==> board == Toggled(old(board), (row, col)) &&
                     nmarked == old(nmarked) + MarkDelta(old(board)[(row, col)].state)
      ensures !ok ==> board == old(board) && nmarked == old(nmarked)
      ensures old(nmarked) == old(|MarkedSet(board)|) ==> nmarked == |MarkedSet(board)|
    {
      if !ValidCoord(row, col) {
        return false;
      }
      if arr[row, col].state.Shown? {
        return false;
      }
      ghost var p := (row, col);
      ToggledConsistent(board, nrows, ncols, nmines, nmarked, nuncovered, exploded, p);
      var v := arr[row, col];
      nmarked := nmarked + MarkDelta(v.state);
      SetCell(row, col, v.(state := Toggle(v.state)));
      ok := true;
    }

    /** Writes cell (r, c) of the array, and of the board with it. */
    method SetCell(r: int, c: int, v: Cell)
      requires Linked() && ValidCoord(r, c)
      modifies this`board, arr
      ensures Linked() && board == old(board)[(r, c) := v]
    {
      arr[r, c] := v;
      board := board[(r, c) := v];
    }

    /**
      `getRendering`: one string per row, one character per cell, each the
      cell's `Glyph`; nothing changes.
    */
    method GetRendering() returns (res: seq<string>)
      requires Valid()
      ensures |res| == nrows
      ensures forall r :: 0 <= r < nrows ==> |res[r]| == ncols
      ensures forall r, c :: 0 <= r < nrows && 0 <= c < ncols ==>
                0 <= board[(r, c)].count <= 9 && res[r][c] == Glyph(board[(r, c)], exploded)
    {
      CountsBounded(board);
      res := [];
      for row := 0 to nrows
        invariant |res| == row
        invariant forall r :: 0 <= r < row ==> |res[r]| == ncols
        invariant forall r, c :: 0 <= r < row && 0 <= c < ncols ==>
                    res[r][c] == Glyph(board[(r, c)], exploded)
      {
        var s := "";
        for col := 0 to ncols
          invariant |s| == col
          invariant forall c :: 0 <= c < col ==> s[c] == Glyph(board[(row, c)], exploded)
        {
          assert board[(row, col)] == arr[row, col];
          s := s + [Glyph(arr[row, col], exploded)];
        }
        res := res + [s];
      }
    }

    /** `getStatus`: the counters, and whether the game is over. */
    function GetStatus(): (s: Status)
      reads this
      ensures s.exploded == exploded && s.nrows == nrows && s.ncols == ncols
      ensures s.nmarked == nmarked && s.nuncovered == nuncovered && s.nmines == nmines
      ensures s.done == (exploded || nuncovered == nrows * ncols - nmines)
    {
      var done := exploded || nuncovered == nrows * ncols - nmines;
      Status(done, exploded, nrows, ncols, nmarked, nuncovered, nmines)
    }
  }
}
