/**
  The two handlers the page attaches to every board tile: a tap uncovers
  the tile, a long press marks or unmarks it. What is modelled is their
  decision logic (the index arithmetic and the gates in front of `uncover`
  and `mark`); repainting the page and the flag counter text are not.
*/
module Tiles {
  import opened Board
  import opened Moves
  import opened Game

  /**
    The cell of tile number `ind`: row `Math.floor(ind / ncols)` and column
    `ind % ncols` with JavaScript's remainder, whose sign follows `ind`.
    (Dafny's `/` floors when the divisor is positive.)
  */
  function Tile(ind: int, ncols: nat): (t: Coord)
    requires ncols > 0
    ensures ind >= 0 ==> t.0 * ncols + t.1 == ind && 0 <= t.1 < ncols
    ensures ind < 0 ==> t.0 < 0 && t.1 <= 0 && t.1 + ncols > 0
  {
    (ind / ncols, if ind >= 0 then ind % ncols else -((-ind) % ncols))
  }

  /** Tile numbers enumerate the grid row by row: exactly 0 .. nrows*ncols-1 name cells. */
  lemma TileInGrid(ind: int, nrows: nat, ncols: nat)
    requires ncols > 0
    ensures var (r, c) := Tile(ind, ncols);
            (0 <= r < nrows && 0 <= c < ncols) <==> 0 <= ind < nrows * ncols
    ensures 0 <= ind ==> Tile(ind, ncols).0 * ncols + Tile(ind, ncols).1 == ind
  {
    var t := Tile(ind, ncols);
    InGridIff(ind, t.0, t.1, nrows, ncols);
  }

  /** A row-major decomposition (r, c) of `ind`, or a negative row, lies in the grid exactly when `ind` does. */
  lemma InGridIff(ind: int, r: int, c: int, nrows: nat, ncols: nat)
    requires ind >= 0 ==> r * ncols + c == ind && 0 <= c < ncols
    requires ind < 0 ==> r < 0
    ensures (0 <= r < nrows && 0 <= c < ncols) <==> 0 <= ind < nrows * ncols
  {
    if ind >= 0 {
      RowBound(r, c, nrows, ncols);
      if r < 0 {
        MulMono(r, -1, ncols);
      }
    }
  }

  /** Every cell has a tile: cell (r, c) is tile number r*ncols + c. */
  lemma TileOfCell(r: int, c: int, nrows: nat, ncols: nat)
    requires 0 <= r < nrows && 0 <= c < ncols
    ensures 0 <= r * ncols + c < nrows * ncols
    ensures Tile(r * ncols + c, ncols) == (r, c)
  {
    RowBound(r, c, nrows, ncols);
    MulMono(0, r, ncols);
    DivUnique(r * ncols + c, ncols, r, c);
  }

  lemma MulMono(a: int, b: int, n: nat)
    requires a <= b
    ensures a * n <= b * n
  {
    assert b * n - a * n == (b - a) * n;
  }

  /** In a grid `ncols` wide, cell (r, c) comes before row `nrows` exactly when r does. */
  lemma RowBound(r: int, c: int, nrows: nat, ncols: nat)
    requires 0 <= c < ncols
    ensures r < nrows <==> r * ncols + c < nrows * ncols
  {
    if r < nrows {
      MulMono(r + 1, nrows, ncols);
      assert (r + 1) * ncols == r * ncols + ncols;
    } else {
      MulMono(nrows, r, ncols);
    }
  }

  /** Quotient and remainder are the only such pair. */
  lemma DivUnique(a: int, n: nat, q: int, m: int)
    requires n > 0 && a == q * n + m && 0 <= m < n
    ensures a / n == q && a % n == m
  {
    var q', m' := a / n, a % n;
    assert (q - q') * n == m' - m;
    if q' < q {
      MulMono(1, q - q', n);
    } else if q < q' {
      MulMono(1, q' - q, n);
    }
  }

  /**
    Whether `tile_mark` calls `mark`, from the status before and whether the
    tile is rendered "F": first when the game has started, is not over and
    flags are left; failing that, when no flag is left and the tile is
    flagged.
  */
  function MarkGate(s: Status, flagged: bool): (r: bool)
    ensures r <==> (!s.done && s.nuncovered != 0 && s.nmarked < s.nmines) ||
                   (s.nmarked == s.nmines && flagged)
  {
    if !s.done && s.nuncovered != 0 && s.nmines - s.nmarked > 0 then true
    else if s.nmines - s.nmarked == 0 then flagged
    else false
  }

  /**
    The gate spends flags only while some are left: `mark` is called with
    a flag still available, or, with none left, on a flagged tile.
  */
  lemma MarkGateBudget(s: Status, flagged: bool)
    requires MarkGate(s, flagged)
    ensures s.nmarked < s.nmines || (s.nmarked == s.nmines && flagged)
  {
  }

  /** Before the first uncover, the gate lets through only a flagged tile once no flag is left. */
  lemma MarkGateUnstarted(s: Status, flagged: bool)
    requires s.nuncovered == 0
    ensures MarkGate(s, flagged) <==> s.nmarked == s.nmines && flagged
  {
  }

  /**
    With no flag left, the gate lets through exactly the flagged tiles,
    whether or not the game has started or is over.
  */
  lemma MarkGateNoFlagsLeft(s: Status, flagged: bool)
    requires s.nmarked == s.nmines
    ensures MarkGate(s, flagged) <==> flagged
  {
  }

  /**
    The flag counter as the page keeps it: `nmarked` counts the marked
    cells, never exceeds `nmines`, and is 0 before the first uncover.
  */
  ghost predicate FlagsCounted(g: Cells, nmines: nat, nmarked: int, nuncovered: nat)
  {
    nmarked == |MarkedSet(g)| && nmarked <= nmines && (nuncovered == 0 ==> nmarked == 0)
  }

  /** With the flags counted, no cell is marked before the first uncover. */
  lemma NoFlagBeforeStart(g: Cells, nmines: nat, nmarked: int, p: Coord)
    requires FlagsCounted(g, nmines, nmarked, 0) && p in g
    ensures !g[p].state.Marked?
  {
    assert MarkedSet(g) == {};
    assert p !in MarkedSet(g);
  }

  /** A game fresh from `init` has its flags counted. */
  lemma FreshFlagsCounted(g: Cells, nmines: nat)
    requires forall p :: p in g ==> g[p] == Fresh
    ensures FlagsCounted(g, nmines, 0, 0)
  {
    FreshFacts(g);
  }

  /**
    `tile_uncover(game, ind)`: calls `uncover` on the tile's cell unless the
    game is over. `acted` says whether `uncover` was called, `ok` what it
    returned; `laid` and `placed` are those of that `uncover`. A grid with
    no column has no tile: `uncover` then refuses the coordinate.
  */
  method TileUncover(game: MSGame, ind: int) returns (acted: bool, ok: bool, ghost laid: Cells, ghost placed: set<Coord>)
    requires game.Valid()
    modifies game`nmines, game`nuncovered, game`exploded, game`board, game.arr
    ensures game.Valid()
    ensures acted == !old(game.GetStatus().done)
    ensures !acted || game.ncols == 0 || Tile(ind, game.ncols) !in old(game.board) ==>
              !ok && game.board == old(game.board) && game.nmines == old(game.nmines) &&
              game.nuncovered == old(game.nuncovered) && game.exploded == old(game.exploded)
    ensures acted && game.ncols > 0 && Tile(ind, game.ncols) in old(game.board) ==>
              var p := Tile(ind, game.ncols);
              (old(game.nuncovered) == 0 ==>
                 laid == Sprinkled(old(game.board), placed) &&
                 placed <= Outside(game.nrows, game.ncols, p) && |placed| == game.nmines &&
                 game.nmines == Min(old(game.nmines), |Outside(game.nrows, game.ncols, p)|)) &&
              (old(game.nuncovered) != 0 ==> laid == old(game.board) && game.nmines == old(game.nmines)) &&
              (ok <==> laid[p].state.Hidden?) &&
              (!ok ==> game.board == laid && game.nuncovered == old(game.nuncovered) &&
                       game.exploded == old(game.exploded))
    ensures ok ==> game.ncols > 0 &&
                   var p := Tile(ind, game.ncols);
                   p in game.board && game.board[p].state.Shown? &&
                   Revealed(laid, game.board) && Closed(laid, game.board) &&
                   NewlyShown(laid, game.board) == Region(laid, p) &&
                   game.nuncovered == old(game.nuncovered) + |NewlyShown(laid, game.board)| &&
                   game.exploded == (old(game.exploded) || laid[p].mine)
    ensures FlagsCounted(old(game.board), old(game.nmines), old(game.nmarked), old(game.nuncovered)) ==>
              FlagsCounted(game.board, game.nmines, game.nmarked, game.nuncovered)
  {
    var st := game.GetStatus();
    acted, ok, laid, placed := false, false, game.board, {};
    if !st.done {
      acted := true;
      if st.ncols > 0 {
        var (row, col) := Tile(ind, st.ncols);
        ok, laid, placed := game.Uncover(row, col);
      }
    }
  }

  /**
    `tile_mark(game, ind)`: calls `mark` on the tile's cell when the gate
    lets it through. `acted` says whether `mark` was called. The tile must
    exist: the second branch indexes the rendering with it.
  */
  method TileMark(game: MSGame, ind: int) returns (acted: bool)
    requires game.Valid() && 0 <= ind < game.nrows * game.ncols
    modifies game`nmarked, game`board, game.arr
    ensures game.Valid() && game.ncols > 0
    ensures var p := Tile(ind, game.ncols);
            p in old(game.board) && 0 <= old(game.board)[p].count <= 9 &&
            acted == MarkGate(old(game.GetStatus()), Glyph(old(game.board)[p], game.exploded) == 'F') &&
            (acted && !old(game.board)[p].state.Shown? ==>
               game.board == Toggled(old(game.board), p) &&
               game.nmarked == old(game.nmarked) + MarkDelta(old(game.board)[p].state)) &&
            (!acted || old(game.board)[p].state.Shown? ==>
               game.board == old(game.board) && game.nmarked == old(game.nmarked))
    ensures FlagsCounted(old(game.board), game.nmines, old(game.nmarked), game.nuncovered) ==>
              FlagsCounted(game.board, game.nmines, game.nmarked, game.nuncovered)
  {
    var st := game.GetStatus();
    assert game.ncols > 0;
    TileInGrid(ind, game.nrows, game.ncols);
    var (row, col) := Tile(ind, st.ncols);
    ghost var g := game.board;
    CountsBounded(g);
    ghost var counted := FlagsCounted(g, game.nmines, game.nmarked, game.nuncovered);
    acted := false;
    if !st.done && st.nuncovered != 0 && st.nmines - st.nmarked > 0 {
      var _ := game.Mark(row, col);
      acted := true;
    } else if st.nmines - st.nmarked == 0 {
      var rendering := game.GetRendering();
      if counted && st.nuncovered == 0 {
        NoFlagBeforeStart(g, game.nmines, game.nmarked, (row, col));
      }
      if rendering[row][col] == 'F' {
        var _ := game.Mark(row, col);
        acted := true;
      }
    }
  }
}
