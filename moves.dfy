/**
  The rules of the engine's moves, stated on board values: where mines may
  go and what sprinkling them does, what a flood fill may reveal, what
  toggling a mark does, how a cell is rendered and when a game is done.
  The class in module Game is proved to follow these rules.
*/
module Moves {
  import opened Board

  // ---------------------------------------------------------------------
  // Mine placement

  /** The positions allowed to receive a mine when the first move is at `p`. */
  ghost function Outside(nrows: nat, ncols: nat, p: Coord): (s: set<Coord>)
    ensures s <= Coords(nrows, ncols)
    ensures p !in s
  {
    set q | q in Coords(nrows, ncols) && (Abs(p.0 - q.0) > 2 || Abs(p.1 - q.1) > 2)
  }

  function Min(a: int, b: int): (m: int)
    ensures m <= a && m <= b && (m == a || m == b)
  {
    if a < b then a else b
  }

  /** Sprinkling turns marked cells back to hidden and leaves the other states alone. */
  function Unmark(v: Visibility): (w: Visibility)
    ensures !w.Marked?
    ensures v.Marked? ==> w.Hidden?
    ensures !v.Marked? ==> w == v
  {
    if v.Marked? then Hidden else v
  }

  /**
    The board after mines are put on `placed`: mines are only added, every
    mark is erased and every count is recomputed from the final layout.
  */
  ghost function Sprinkled(g: Cells, placed: set<Coord>): (h: Cells)
    ensures h.Keys == g.Keys
  {
    var mines := Mines(g) + (placed * g.Keys);
    map p | p in g :: Cell(g[p].mine || p in placed, Unmark(g[p].state), MineCount(mines, p))
  }

  lemma SprinkledFacts(g: Cells, placed: set<Coord>)
    requires placed <= g.Keys
    ensures Sprinkled(g, placed).Keys == g.Keys
    ensures Mines(Sprinkled(g, placed)) == Mines(g) + placed
    ensures CountsAgree(Sprinkled(g, placed))
    ensures MarkedSet(Sprinkled(g, placed)) == {}
    ensures ShownSet(Sprinkled(g, placed)) == ShownSet(g)
  {
    SprinkledMines(g, placed);
    SprinkledCounts(g, placed);
    SprinkledStates(g, placed);
  }

  lemma SprinkledMines(g: Cells, placed: set<Coord>)
    requires placed <= g.Keys
    ensures Mines(Sprinkled(g, placed)) == Mines(g) + placed
  {
    var h := Sprinkled(g, placed);
    forall p ensures p in Mines(h) <==> p in Mines(g) + placed {
      if p in h { assert h[p].mine == (g[p].mine || p in placed); }
    }
  }

  lemma SprinkledCounts(g: Cells, placed: set<Coord>)
    requires placed <= g.Keys
    ensures CountsAgree(Sprinkled(g, placed))
  {
    var h := Sprinkled(g, placed);
    SprinkledMines(g, placed);
    assert placed * g.Keys == placed;
    forall p | p in h ensures h[p].count == MineCount(Mines(h), p) { }
  }

  lemma SprinkledStates(g: Cells, placed: set<Coord>)
    ensures MarkedSet(Sprinkled(g, placed)) == {}
    ensures ShownSet(Sprinkled(g, placed)) == ShownSet(g)
  {
    var h := Sprinkled(g, placed);
    forall p | p in h ensures !h[p].state.Marked? {
      assert h[p].state == Unmark(g[p].state);
    }
    forall p ensures p in ShownSet(h) <==> p in ShownSet(g) {
      if p in h { assert h[p].state == Unmark(g[p].state); }
    }
  }

  /** The allowed positions that the row-major scan has passed before (r, c). */
  ghost function OutsideBefore(nrows: nat, ncols: nat, p: Coord, r: int, c: int): set<Coord>
  {
    set q | q in Outside(nrows, ncols, p) && (q.0 < r || (q.0 == r && q.1 < c))
  }

  lemma OutsideBeforeStart(nrows: nat, ncols: nat, p: Coord)
    ensures OutsideBefore(nrows, ncols, p, 0, 0) == {}
  {
  }

  /** Visiting (r, c) adds it to the allowed positions exactly when it lies outside the block of `p`. */
  lemma OutsideBeforeStep(nrows: nat, ncols: nat, p: Coord, r: int, c: int)
    requires 0 <= r < nrows && 0 <= c < ncols
    ensures OutsideBefore(nrows, ncols, p, r, c + 1)
         == OutsideBefore(nrows, ncols, p, r, c)
            + (if Abs(p.0 - r) > 2 || Abs(p.1 - c) > 2 then {(r, c)} else {})
    ensures (r, c) !in OutsideBefore(nrows, ncols, p, r, c)
  {
  }

  lemma OutsideBeforeRow(nrows: nat, ncols: nat, p: Coord, r: int)
    ensures OutsideBefore(nrows, ncols, p, r, ncols) == OutsideBefore(nrows, ncols, p, r + 1, 0)
  {
  }

  lemma OutsideBeforeEnd(nrows: nat, ncols: nat, p: Coord)
    ensures OutsideBefore(nrows, ncols, p, nrows, 0) == Outside(nrows, ncols, p)
  {
  }

  /** The board once the swap loop has set the mine flag on every position of `placed`. */
  ghost function Mined(g: Cells, placed: set<Coord>): (h: Cells)
    ensures h.Keys == g.Keys
  {
    map p | p in g :: g[p].(mine := g[p].mine || p in placed)
  }

  lemma MinedNone(g: Cells)
    ensures Mined(g, {}) == g
  {
  }

  lemma MinedStep(g: Cells, placed: set<Coord>, x: Coord)
    requires x in g
    ensures Mined(g, placed + {x}) == Mined(g, placed)[x := Mined(g, placed)[x].(mine := true)]
  {
  }

  /** The last pass of `sprinkleMines` turned a cell: no mark, and the count recomputed. */
  ghost function Recounted(g: Cells, p: Coord): Cell
    requires p in g
  {
    Cell(g[p].mine, Unmark(g[p].state), MineCount(Mines(g), p))
  }

  /** The board when the last pass of `sprinkleMines` reaches (r, c). */
  ghost function RecountedUpTo(g: Cells, r: int, c: int): (h: Cells)
    ensures h.Keys == g.Keys
  {
    map p | p in g :: if p.0 < r || (p.0 == r && p.1 < c) then Recounted(g, p) else g[p]
  }

  lemma RecountStart(g: Cells, nrows: nat, ncols: nat)
    requires g.Keys == Coords(nrows, ncols)
    ensures RecountedUpTo(g, 0, 0) == g
  {
  }

  /**
    Turning cell (r, c) advances the last pass of `sprinkleMines` by one
    cell; the pass never touches a mine flag.
  */
  lemma RecountStep(g: Cells, r: int, c: int)
    requires (r, c) in g
    ensures RecountedUpTo(g, r, c)[(r, c)] == g[(r, c)]
    ensures Mines(RecountedUpTo(g, r, c)) == Mines(g)
    ensures RecountedUpTo(g, r, c + 1) == RecountedUpTo(g, r, c)[(r, c) := Recounted(g, (r, c))]
  {
    var mid := RecountedUpTo(g, r, c);
    var h := RecountedUpTo(g, r, c + 1);
    var k := mid[(r, c) := Recounted(g, (r, c))];
    forall q | q in h ensures h[q] == k[q] { }
    SameCells(h, k);
    forall q ensures q in Mines(mid) <==> q in Mines(g) {
      if q in g { assert mid[q].mine == g[q].mine; }
    }
  }

  lemma RecountRow(g: Cells, nrows: nat, ncols: nat, r: int)
    requires g.Keys == Coords(nrows, ncols)
    ensures RecountedUpTo(g, r, ncols) == RecountedUpTo(g, r + 1, 0)
  {
  }

  /**
    Setting the mine flags on `placed` and then turning every cell gives the
    board `Sprinkled` describes.
  */
  lemma RecountDone(g: Cells, placed: set<Coord>, nrows: nat, ncols: nat)
    requires g.Keys == Coords(nrows, ncols) && placed <= g.Keys
    ensures RecountedUpTo(Mined(g, placed), nrows, 0) == Sprinkled(g, placed)
  {
    var h := RecountedUpTo(Mined(g, placed), nrows, 0);
    var want := Sprinkled(g, placed);
    MinedMines(g, placed);
    forall q | q in h ensures h[q] == want[q] {
      RecountDoneAt(g, placed, nrows, ncols, q);
    }
    SameCells(h, want);
  }

  lemma RecountDoneAt(g: Cells, placed: set<Coord>, nrows: nat, ncols: nat, q: Coord)
    requires g.Keys == Coords(nrows, ncols) && q in g
    requires Mines(Mined(g, placed)) == Mines(g) + (placed * g.Keys)
    ensures RecountedUpTo(Mined(g, placed), nrows, 0)[q] == Sprinkled(g, placed)[q]
  {
    var m := Mined(g, placed);
    assert RecountedUpTo(m, nrows, 0)[q] == Recounted(m, q);
  }

  lemma MinedMines(g: Cells, placed: set<Coord>)
    ensures Mines(Mined(g, placed)) == Mines(g) + (placed * g.Keys)
  {
    var m := Mined(g, placed);
    forall q ensures q in Mines(m) <==> q in Mines(g) + (placed * g.Keys) {
      if q in g { assert m[q].mine == (g[q].mine || q in placed); }
    }
  }

  /** Right after the mines are sprinkled the first move's cell is hidden, whatever it was. */
  lemma SprinkledTargetHidden(g: Cells, placed: set<Coord>, p: Coord)
    requires p in g && ShownSet(g) == {}
    ensures p in Sprinkled(g, placed) && Sprinkled(g, placed)[p].state.Hidden?
  {
    assert p !in ShownSet(g);
  }

  /**
    The cell of the first uncover never holds a mine: no mine was laid
    before, and the new ones all lie outside its 5x5 block.
  */
  lemma FirstMoveSafe(g: Cells, nrows: nat, ncols: nat, nmarked: int, exploded: bool,
                      placed: set<Coord>, p: Coord)
    requires Unstarted(g, nrows, ncols, nmarked, exploded)
    requires placed <= Outside(nrows, ncols, p) && p in g
    ensures !Sprinkled(g, placed)[p].mine
  {
    SprinkledMines(g, placed);
    assert p !in Mines(Sprinkled(g, placed));
  }

  // ---------------------------------------------------------------------
  // Flood fill

  /** `h` differs from `g` only in hidden cells that became shown. */
  ghost predicate Revealed(g: Cells, h: Cells)
  {
    h.Keys == g.Keys &&
    forall p :: p in g ==> h[p] == g[p] || (g[p].state.Hidden? && h[p] == g[p].(state := Shown))
  }

  ghost function NewlyShown(g: Cells, h: Cells): set<Coord>
  {
    ShownSet(h) - ShownSet(g)
  }

  /** Every cell shown on the way with count 0 has no hidden cell left in its block. */
  ghost predicate Closed(g: Cells, h: Cells)
  {
    forall q :: q in NewlyShown(g, h) && h[q].count == 0 ==>
      forall n :: n in h && Near(q, n) ==> !h[n].state.Hidden?
  }

  /**
    The order in which the cells were shown on the way: `rank` numbers
    exactly those cells, each above `n0` and at most `n0` plus their number
    (the value `nuncovered` took when the cell was shown), and every one of
    them but the start `p` touches a zero-count cell shown before it.
  */
  ghost predicate Ordered(g: Cells, h: Cells, p: Coord, rank: map<Coord, int>, n0: int)
  {
    rank.Keys == NewlyShown(g, h) &&
    (forall q :: q in rank ==> n0 < rank[q] <= n0 + |NewlyShown(g, h)|) &&
    Witnessed(h, p, rank)
  }

  /** Every cell numbered by `rank` but `p` touches a zero-count cell of `h` numbered lower. */
  ghost predicate Witnessed(h: Cells, p: Coord, rank: map<Coord, int>)
  {
    forall q :: q in rank && q != p ==>
      exists z :: z in rank && rank[z] < rank[q] && z in h && h[z].count == 0 && Near(z, q)
  }

  /**
    What one call of the flood fill from `p` achieves, `n0` cells being
    shown before it: nothing when `p` is off the grid or not hidden;
    otherwise only hidden cells become shown, `p` among them, no shown
    zero-count cell keeps a hidden neighbour, and `rank` orders the cells
    shown as `Ordered` says. `FloodedRegion` shows that these are exactly
    the cells of `Region(g, p)`.
  */
  ghost predicate Flooded(g: Cells, h: Cells, p: Coord, rank: map<Coord, int>, n0: int)
  {
    (if p in g && g[p].state.Hidden? then
       Revealed(g, h) && h[p].state.Shown? && Closed(g, h)
     else
       h == g) &&
    Ordered(g, h, p, rank, n0)
  }

  /**
    `s` is a walk over hidden cells of `g` that only steps from a cell whose
    count is 0 to a cell of its block: the way the flood fill spreads.
  */
  ghost predicate Path(g: Cells, s: seq<Coord>)
  {
    |s| > 0 &&
    (forall i :: 0 <= i < |s| ==> s[i] in g && g[s[i]].state.Hidden?) &&
    (forall i :: 0 <= i < |s| - 1 ==> s[i] in g && g[s[i]].count == 0 && Near(s[i], s[i + 1]))
  }

  /** The cells a flood fill from `p` should show: those a `Path` from `p` reaches. */
  ghost function Region(g: Cells, p: Coord): set<Coord>
  {
    set q | q in g && exists s :: Path(g, s) && s[0] == p && s[|s| - 1] == q
  }

  /** Every cell with a rank is reached from `p` by a path through cells shown before it. */
  lemma PathTo(g: Cells, h: Cells, p: Coord, rank: map<Coord, int>, n0: int, q: Coord)
    returns (s: seq<Coord>)
    requires Revealed(g, h) && Ordered(g, h, p, rank, n0)
    requires q in rank
    ensures Path(g, s) && s[0] == p && s[|s| - 1] == q
    decreases rank[q] - n0
  {
    assert q in NewlyShown(g, h);
    if q == p {
      s := [p];
    } else {
      assert Witnessed(h, p, rank);
      var z :| z in rank && rank[z] < rank[q] && z in h && h[z].count == 0 && Near(z, q);
      var t := PathTo(g, h, p, rank, n0, z);
      assert g[z].count == h[z].count;
      s := PathExtend(g, t, q);
    }
  }

  /** A path ending on a zero-count cell extends to a hidden cell of its block. */
  lemma PathExtend(g: Cells, t: seq<Coord>, q: Coord) returns (s: seq<Coord>)
    requires Path(g, t) && t[|t| - 1] in g && g[t[|t| - 1]].count == 0 && Near(t[|t| - 1], q)
    requires q in g && g[q].state.Hidden?
    ensures s == t + [q] && Path(g, s) && s[0] == t[0]
  {
    s := t + [q];
    assert forall i :: 0 <= i < |t| ==> s[i] == t[i];
  }

  /** Along a path from a hidden start, a flood fill that stops only on closed cells shows every cell. */
  lemma {:induction false} ShownAlong(g: Cells, h: Cells, p: Coord, s: seq<Coord>, i: nat)
    requires p in g && g[p].state.Hidden? && Revealed(g, h) && h[p].state.Shown? && Closed(g, h)
    requires Path(g, s) && s[0] == p && i < |s|
    ensures s[i] in NewlyShown(g, h)
  {
    if i > 0 {
      ShownAlong(g, h, p, s, i - 1);
      var z, q := s[i - 1], s[i];
      assert h[z].count == g[z].count == 0 && Near(z, q);
      assert q in h && !h[q].state.Hidden?;
      assert h[q] == g[q].(state := Shown);
    }
  }

  /**
    A flood fill from a hidden cell shows exactly the cells its paths reach:
    no cell beyond the zero-count region grown from `p` and its border.
  */
  lemma FloodedRegion(g: Cells, h: Cells, p: Coord, rank: map<Coord, int>, n0: int)
    requires p in g && g[p].state.Hidden?
    requires Flooded(g, h, p, rank, n0)
    ensures NewlyShown(g, h) == Region(g, p)
  {
    forall q | q in NewlyShown(g, h) ensures q in Region(g, p) {
      ShownInRegion(g, h, p, rank, n0, q);
    }
    forall q | q in Region(g, p) ensures q in NewlyShown(g, h) {
      RegionShown(g, h, p, q);
    }
  }

  lemma ShownInRegion(g: Cells, h: Cells, p: Coord, rank: map<Coord, int>, n0: int, q: Coord)
    requires Revealed(g, h) && Ordered(g, h, p, rank, n0)
    requires q in NewlyShown(g, h)
    ensures q in Region(g, p)
  {
    var s := PathTo(g, h, p, rank, n0, q);
    assert q in g && Path(g, s) && s[0] == p && s[|s| - 1] == q;
  }

  lemma RegionShown(g: Cells, h: Cells, p: Coord, q: Coord)
    requires p in g && g[p].state.Hidden? && Revealed(g, h) && h[p].state.Shown? && Closed(g, h)
    requires q in Region(g, p)
    ensures q in NewlyShown(g, h)
  {
    var s :| Path(g, s) && s[0] == p && s[|s| - 1] == q;
    ShownAlong(g, h, p, s, |s| - 1);
  }

  lemma RevealedFacts(g: Cells, h: Cells)
    requires Revealed(g, h)
    ensures Mines(h) == Mines(g)
    ensures MarkedSet(h) == MarkedSet(g)
    ensures CountsAgree(g) ==> CountsAgree(h)
    ensures ShownSet(h) == ShownSet(g) + NewlyShown(g, h)
    ensures |ShownSet(h)| == |ShownSet(g)| + |NewlyShown(g, h)|
    ensures HiddenSet(h) == HiddenSet(g) - NewlyShown(g, h)
  {
    RevealedKeepsMines(g, h);
    RevealedKeepsMarks(g, h);
    RevealedShows(g, h);
  }

  lemma RevealedKeepsMines(g: Cells, h: Cells)
    requires Revealed(g, h)
    ensures Mines(h) == Mines(g)
    ensures CountsAgree(g) ==> CountsAgree(h)
  {
    forall p | p in g ensures h[p].mine == g[p].mine && h[p].count == g[p].count { }
    assert Mines(h) == Mines(g);
  }

  lemma RevealedKeepsMarks(g: Cells, h: Cells)
    requires Revealed(g, h)
    ensures MarkedSet(h) == MarkedSet(g)
  {
    forall p | p in g ensures h[p].state.Marked? <==> g[p].state.Marked? { }
  }

  lemma RevealedShows(g: Cells, h: Cells)
    requires Revealed(g, h)
    ensures ShownSet(h) == ShownSet(g) + NewlyShown(g, h)
    ensures |ShownSet(h)| == |ShownSet(g)| + |NewlyShown(g, h)|
    ensures HiddenSet(h) == HiddenSet(g) - NewlyShown(g, h)
  {
    forall p | p in ShownSet(g) ensures p in ShownSet(h) { }
    SubsetCard(ShownSet(g), ShownSet(h));
    forall p ensures p in HiddenSet(h) <==> p in HiddenSet(g) - NewlyShown(g, h) {
      if p in g {
        assert h[p] == g[p] || (g[p].state.Hidden? && h[p].state.Shown?);
      }
    }
  }

  lemma RevealedTrans(a: Cells, b: Cells, c: Cells)
    requires Revealed(a, b) && Revealed(b, c)
    ensures Revealed(a, c)
    ensures NewlyShown(a, c) == NewlyShown(a, b) + NewlyShown(b, c)
  {
  }

  /** A flood fill only ever turns hidden cells into shown ones. */
  lemma FloodedRevealed(g: Cells, h: Cells, p: Coord, rank: map<Coord, int>, n0: int)
    requires Flooded(g, h, p, rank, n0)
    ensures Revealed(g, h)
  {
  }

  /** Cells shown in two successive stretches of a flood fill add up. */
  lemma NewlyShownAdds(a: Cells, b: Cells, c: Cells)
    requires Revealed(a, b) && Revealed(b, c)
    ensures Revealed(a, c)
    ensures |NewlyShown(a, c)| == |NewlyShown(a, b)| + |NewlyShown(b, c)|
  {
    RevealedTrans(a, b, c);
    RevealedFacts(a, b);
    RevealedFacts(b, c);
    RevealedFacts(a, c);
  }

  /**
    State of a flood fill from `p` part way through visiting the block of
    `p`, `n0` cells being shown before it and `rank` ordering the cells
    shown so far.
  */
  ghost predicate Partial(g0: Cells, g: Cells, p: Coord, visited: set<Coord>, rank: map<Coord, int>, n0: int)
  {
    p in g0 && g0[p].state.Hidden? &&
    Revealed(g0, g) && g[p].state.Shown? && g[p].count == 0 &&
    Ordered(g0, g, p, rank, n0) &&
    OthersClosed(g0, g, p) &&
    (forall n :: n in visited && n in g ==> !g[n].state.Hidden?)
  }

  /** `Closed`, but for the start `p`, whose block is still being visited. */
  ghost predicate OthersClosed(g0: Cells, g: Cells, p: Coord)
  {
    forall q :: q in NewlyShown(g0, g) && q != p && g[q].count == 0 ==>
      forall n :: n in g && Near(q, n) ==> !g[n].state.Hidden?
  }

  /** Cells closed before a nested fill stay closed, and the nested fill closes its own. */
  lemma ClosedJoin(g0: Cells, g: Cells, g': Cells, p: Coord)
    requires Revealed(g0, g) && Revealed(g, g')
    requires OthersClosed(g0, g, p) && Closed(g, g')
    ensures OthersClosed(g0, g', p)
  {
    RevealedTrans(g0, g, g');
    forall q | q in NewlyShown(g0, g') && q != p && g'[q].count == 0
      ensures forall m :: m in g' && Near(q, m) ==> !g'[m].state.Hidden?
    {
      if q in NewlyShown(g0, g) {
        assert forall m :: m in g && Near(q, m) ==> !g[m].state.Hidden?;
      } else {
        assert q in NewlyShown(g, g');
      }
    }
  }

  /** On a cell that is off the grid or not hidden the flood fill shows nothing. */
  lemma FloodedSkip(g: Cells, p: Coord, n0: int)
    requires !(p in g && g[p].state.Hidden?)
    ensures Flooded(g, g, p, map[], n0) && |NewlyShown(g, g)| == 0
  {
    assert NewlyShown(g, g) == {};
  }

  /** Showing the start cell `p` when its count is 0 begins a flood fill; `p` is shown first. */
  lemma PartialStart(g0: Cells, p: Coord, n0: int)
    requires p in g0 && g0[p].state.Hidden? && g0[p].count == 0
    ensures Partial(g0, g0[p := g0[p].(state := Shown)], p, {p}, map[p := n0 + 1], n0)
  {
    var g1 := g0[p := g0[p].(state := Shown)];
    assert NewlyShown(g0, g1) == {p};
  }

  /** Showing the start cell `p` when its count is not 0 ends the flood fill there. */
  lemma FloodedStop(g0: Cells, p: Coord, n0: int)
    requires p in g0 && g0[p].state.Hidden? && g0[p].count != 0
    ensures Flooded(g0, g0[p := g0[p].(state := Shown)], p, map[p := n0 + 1], n0)
    ensures |NewlyShown(g0, g0[p := g0[p].(state := Shown)])| == 1
  {
    var g1 := g0[p := g0[p].(state := Shown)];
    assert NewlyShown(g0, g1) == {p};
  }

  /**
    The order of a fill from `p` followed by the order of a fill from its
    zero-count neighbour's block, numbered on from where the first stopped,
    is an order of the whole: the neighbour's own start touches `p`.
  */
  lemma OrderedJoin(g0: Cells, g: Cells, g': Cells, p: Coord, n: Coord,
                    rank: map<Coord, int>, rank': map<Coord, int>, n0: int)
    requires Revealed(g0, g) && Revealed(g, g')
    requires Ordered(g0, g, p, rank, n0) && p in rank && g[p].count == 0 && Near(p, n)
    requires Ordered(g, g', n, rank', n0 + |NewlyShown(g0, g)|)
    ensures Ordered(g0, g', p, rank + rank', n0)
  {
    NewlyShownAdds(g0, g, g');
    RevealedTrans(g0, g, g');
    RanksJoin(g0, g, g', rank, rank', n0, n0 + |NewlyShown(g0, g)|);
    forall q | q in rank' ensures q !in rank {
      assert q in NewlyShown(g, g');
    }
    WitnessesJoin(g, g', p, n, rank, rank', n0 + |NewlyShown(g0, g)|);
  }

  /** The numbers of two successive stretches of a flood fill stay in range together. */
  lemma RanksJoin(g0: Cells, g: Cells, g': Cells, rank: map<Coord, int>, rank': map<Coord, int>, n0: int, m: int)
    requires Revealed(g0, g) && Revealed(g, g')
    requires m == n0 + |NewlyShown(g0, g)|
    requires |NewlyShown(g0, g')| == |NewlyShown(g0, g)| + |NewlyShown(g, g')|
    requires rank.Keys == NewlyShown(g0, g) && rank'.Keys == NewlyShown(g, g')
    requires forall q :: q in rank ==> n0 < rank[q] <= m
    requires forall q :: q in rank' ==> m < rank'[q] <= m + |NewlyShown(g, g')|
    ensures forall q :: q in rank + rank' ==> n0 < (rank + rank')[q] <= n0 + |NewlyShown(g0, g')|
  {
    var r := rank + rank';
    forall q | q in r ensures n0 < r[q] <= n0 + |NewlyShown(g0, g')| {
      if q in rank' { assert r[q] == rank'[q]; } else { assert r[q] == rank[q]; }
    }
  }

  /** Every cell of two successive stretches but the start keeps a witness shown before it. */
  lemma WitnessesJoin(g: Cells, g': Cells, p: Coord, n: Coord,
                      rank: map<Coord, int>, rank': map<Coord, int>, m: int)
    requires Revealed(g, g')
    requires rank.Keys <= g.Keys && p in rank && g[p].count == 0 && Near(p, n)
    requires forall q :: q in rank ==> rank[q] <= m
    requires forall q :: q in rank' ==> m < rank'[q]
    requires rank.Keys !! rank'.Keys
    requires Witnessed(g, p, rank) && Witnessed(g', n, rank')
    ensures Witnessed(g', p, rank + rank')
  {
    var r := rank + rank';
    forall q | q in r && q != p
      ensures exists z :: z in r && r[z] < r[q] && z in g' && g'[z].count == 0 && Near(z, q)
    {
      if q == n && q in rank' {
        assert r[p] == rank[p] && p in g' && g'[p].count == 0;
      } else if q in rank' {
        var z :| z in rank' && rank'[z] < rank'[q] && z in g' && g'[z].count == 0 && Near(z, q);
        assert r[z] == rank'[z];
      } else {
        var z :| z in rank && rank[z] < rank[q] && z in g && g[z].count == 0 && Near(z, q);
        assert r[z] == rank[z] && g'[z].count == g[z].count;
      }
    }
  }

  /** A flood fill from a cell `n` in the block of `p` continues the flood fill from `p`. */
  lemma PartialStep(g0: Cells, g: Cells, g': Cells, p: Coord, n: Coord, visited: set<Coord>,
                    rank: map<Coord, int>, rank': map<Coord, int>, n0: int)
    requires Partial(g0, g, p, visited, rank, n0)
    requires Near(p, n)
    requires Flooded(g, g', n, rank', n0 + |NewlyShown(g0, g)|)
    ensures Partial(g0, g', p, visited + {n}, rank + rank', n0)
  {
    assert p in NewlyShown(g0, g);
    FloodedClosed(g, g', n, rank', n0 + |NewlyShown(g0, g)|);
    OrderedJoin(g0, g, g', p, n, rank, rank', n0);
    PartialKept(g0, g, g', p, n, visited);
  }

  /** A flood fill from any cell reveals and leaves no zero-count cell it showed open. */
  lemma FloodedClosed(g: Cells, h: Cells, p: Coord, rank: map<Coord, int>, n0: int)
    requires Flooded(g, h, p, rank, n0)
    ensures Revealed(g, h) && Closed(g, h)
    ensures !(p in g && g[p].state.Hidden?) ==> h == g
    ensures p in g ==> !h[p].state.Hidden?
  {
    if !(p in g && g[p].state.Hidden?) {
      assert NewlyShown(g, h) == {};
    }
  }

  /** The parts of `Partial` other than the order, kept by a nested flood fill from `n`. */
  lemma PartialKept(g0: Cells, g: Cells, g': Cells, p: Coord, n: Coord, visited: set<Coord>)
    requires p in g0 && g0[p].state.Hidden?
    requires Revealed(g0, g) && g[p].state.Shown? && g[p].count == 0
    requires OthersClosed(g0, g, p)
    requires forall m :: m in visited && m in g ==> !g[m].state.Hidden?
    requires Revealed(g, g') && Closed(g, g')
    requires n in g ==> !g'[n].state.Hidden?
    ensures Revealed(g0, g') && g'[p].state.Shown? && g'[p].count == 0
    ensures OthersClosed(g0, g', p)
    ensures forall m :: m in visited + {n} && m in g' ==> !g'[m].state.Hidden?
  {
    ClosedJoin(g0, g, g', p);
    RevealedTrans(g0, g, g');
    assert g'[p] == g[p];
    forall m | m in visited + {n} && m in g' ensures !g'[m].state.Hidden? {
      if m != n {
        assert m in visited && m in g && !g[m].state.Hidden?;
      }
    }
  }

  /** The offsets of the eight neighbours, in the order the flood fill visits them. */
  const Around: seq<(int, int)> := [(-1, -1), (-1, 0), (-1, 1), (0, -1), (0, 1), (1, -1), (1, 0), (1, 1)]

  /** Neighbour number `k` of `p` in the order of `Around`. */
  function Neighbour(p: Coord, k: nat): Coord
    requires k < |Around|
  {
    (p.0 + Around[k].0, p.1 + Around[k].1)
  }

  /** `p` and its first `k` neighbours in the order of `Around` (all eight once `k` reaches 8). */
  ghost function AroundVisited(p: Coord, k: nat): (s: set<Coord>)
    ensures p in s
  {
    if k == 0 then {p}
    else AroundVisited(p, k - 1) + (if k - 1 < |Around| then {Neighbour(p, k - 1)} else {})
  }

  lemma AroundNear(p: Coord, k: nat, r: int, c: int)
    requires k < |Around| && (r, c) == Neighbour(p, k)
    ensures Near(p, (r, c))
  {
  }

  /**
    The state of a fill from `p`, started on board `g0` with `n0` cells
    uncovered, once the first `k` neighbours of `p` have been filled from:
    the board is `g`, `n` cells are uncovered and `rank` orders the cells
    shown so far.
  */
  ghost predicate Filling(g0: Cells, g: Cells, p: Coord, k: nat, rank: map<Coord, int>, n0: int, n: int)
  {
    Partial(g0, g, p, AroundVisited(p, k), rank, n0) && n == n0 + |NewlyShown(g0, g)|
  }

  lemma AroundVisitedStep(p: Coord, k: nat, r: int, c: int)
    requires k < |Around| && (r, c) == Neighbour(p, k)
    ensures AroundVisited(p, k + 1) == AroundVisited(p, k) + {(r, c)}
  {
    assert Neighbour(p, k) == (r, c);
  }

  lemma {:induction false} AroundGrows(p: Coord, i: nat, k: nat)
    requires i < k && i < |Around|
    ensures Neighbour(p, i) in AroundVisited(p, k)
  {
    if i < k - 1 {
      AroundGrows(p, i, k - 1);
    }
  }

  /** The start and its eight neighbours make up the whole block. */
  lemma AroundCovers(p: Coord)
    ensures Block(p) <= AroundVisited(p, |Around|)
  {
    forall i | 0 <= i < |Around| ensures Neighbour(p, i) in AroundVisited(p, |Around|) {
      AroundGrows(p, i, |Around|);
    }
    assert Neighbour(p, 0) == (p.0 - 1, p.1 - 1) && Neighbour(p, 1) == (p.0 - 1, p.1);
    assert Neighbour(p, 2) == (p.0 - 1, p.1 + 1) && Neighbour(p, 3) == (p.0, p.1 - 1);
    assert Neighbour(p, 4) == (p.0, p.1 + 1) && Neighbour(p, 5) == (p.0 + 1, p.1 - 1);
    assert Neighbour(p, 6) == (p.0 + 1, p.1) && Neighbour(p, 7) == (p.0 + 1, p.1 + 1);
  }

  /** Once every cell of the block of `p` was visited, the flood fill from `p` is complete. */
  lemma PartialDone(g0: Cells, g: Cells, p: Coord, visited: set<Coord>, rank: map<Coord, int>, n0: int)
    requires Partial(g0, g, p, visited, rank, n0)
    requires Block(p) <= visited
    ensures Flooded(g0, g, p, rank, n0)
  {
    forall n | n in g && Near(p, n)
      ensures !g[n].state.Hidden?
    {
      NearInBlock(p, n);
    }
  }

  lemma NearInBlock(p: Coord, q: Coord)
    requires Near(p, q)
    ensures q in Block(p)
  {
    assert q.0 == p.0 - 1 || q.0 == p.0 || q.0 == p.0 + 1;
    assert q.1 == p.1 - 1 || q.1 == p.1 || q.1 == p.1 + 1;
  }

  /** Each step of a flood fill leaves fewer hidden cells: the fill terminates. */
  lemma PartialShrinks(g0: Cells, g: Cells, p: Coord, visited: set<Coord>, rank: map<Coord, int>, n0: int)
    requires Partial(g0, g, p, visited, rank, n0)
    ensures HiddenSet(g) < HiddenSet(g0)
  {
    RevealedFacts(g0, g);
    assert p in HiddenSet(g0) && p !in HiddenSet(g);
  }

  /**
    When the counts agree with the mines, a flood fill reveals no mine but
    possibly its start: every other cell it shows touches a zero-count cell.
  */
  lemma FloodedRevealsNoOtherMine(g: Cells, h: Cells, p: Coord, rank: map<Coord, int>, n0: int)
    requires CountsAgree(g)
    requires p in g && g[p].state.Hidden?
    requires Flooded(g, h, p, rank, n0)
    ensures forall q :: q in NewlyShown(g, h) && q != p ==> !h[q].mine
  {
    OrderedRevealsNoOtherMine(g, h, p, rank, n0);
  }

  lemma OrderedRevealsNoOtherMine(g: Cells, h: Cells, p: Coord, rank: map<Coord, int>, n0: int)
    requires CountsAgree(g)
    requires Revealed(g, h) && Ordered(g, h, p, rank, n0)
    ensures forall q :: q in NewlyShown(g, h) && q != p ==> !h[q].mine
  {
    forall q | q in NewlyShown(g, h) && q != p
      ensures !h[q].mine
    {
      assert q in rank;
      var z :| z in rank && rank[z] < rank[q] && z in h && h[z].count == 0 && Near(z, q);
      RevealedTouchesNoMine(g, h, z, q);
    }
  }

  lemma RevealedTouchesNoMine(g: Cells, h: Cells, z: Coord, q: Coord)
    requires CountsAgree(g) && Revealed(g, h)
    requires z in h && h[z].count == 0
    requires q in h && Near(z, q)
    ensures !h[q].mine
  {
    assert g[z].count == h[z].count;
    NoMineNearZero(g, z, q);
    assert h[q].mine == g[q].mine;
  }

  /** A cell whose count is 0 has no mine in its block. */
  lemma NoMineNearZero(g: Cells, z: Coord, q: Coord)
    requires CountsAgree(g)
    requires z in g && g[z].count == 0
    requires q in g && Near(z, q)
    ensures !g[q].mine
  {
    assert MineCount(Mines(g), z) == 0;
    assert q !in NearMines(Mines(g), z);
  }

  /** The shown mines after a flood fill from `p`: the ones before, and `p` if it is a mine. */
  lemma FloodedShownMines(g: Cells, h: Cells, p: Coord, rank: map<Coord, int>, n0: int)
    requires CountsAgree(g)
    requires p in g && g[p].state.Hidden?
    requires Flooded(g, h, p, rank, n0)
    ensures Mines(h) * ShownSet(h) == Mines(g) * ShownSet(g) + (if g[p].mine then {p} else {})
  {
    FloodedRevealsNoOtherMine(g, h, p, rank, n0);
    ShownMinesGrow(g, h, p);
  }

  lemma ShownMinesGrow(g: Cells, h: Cells, p: Coord)
    requires Revealed(g, h)
    requires p in g && g[p].state.Hidden? && h[p].state.Shown?
    requires forall q :: q in NewlyShown(g, h) && q != p ==> !h[q].mine
    ensures Mines(h) * ShownSet(h) == Mines(g) * ShownSet(g) + (if g[p].mine then {p} else {})
  {
    RevealedKeepsMines(g, h);
    RevealedShows(g, h);
    forall q ensures q in Mines(h) * ShownSet(h) <==>
                     q in Mines(g) * ShownSet(g) + (if g[p].mine then {p} else {})
    {
      if q in NewlyShown(g, h) && q != p {
        assert !h[q].mine;
      }
    }
  }

  // ---------------------------------------------------------------------
  // Marks

  /** `mark` flips a hidden cell to marked and a marked cell back to hidden. */
  function Toggle(v: Visibility): (w: Visibility)
    requires !v.Shown?
    ensures !w.Shown? && w != v
  {
    if v.Marked? then Hidden else Marked
  }

  /** How `mark` moves the `nmarked` counter. */
  function MarkDelta(v: Visibility): (d: int)
    ensures d == 1 || d == -1
    ensures d == -1 <==> v.Marked?
  {
    if v.Marked? then -1 else 1
  }

  ghost function Toggled(g: Cells, p: Coord): Cells
    requires p in g && !g[p].state.Shown?
  {
    g[p := g[p].(state := Toggle(g[p].state))]
  }

  /** Toggling a mark changes nothing else and moves the marked set by `MarkDelta`. */
  lemma ToggledFacts(g: Cells, p: Coord)
    requires p in g && !g[p].state.Shown?
    ensures Toggled(g, p).Keys == g.Keys
    ensures Mines(Toggled(g, p)) == Mines(g)
    ensures ShownSet(Toggled(g, p)) == ShownSet(g)
    ensures CountsAgree(g) ==> CountsAgree(Toggled(g, p))
    ensures MarkedSet(Toggled(g, p))
         == if g[p].state.Marked? then MarkedSet(g) - {p} else MarkedSet(g) + {p}
    ensures |MarkedSet(Toggled(g, p))| == |MarkedSet(g)| + MarkDelta(g[p].state)
  {
    var h := Toggled(g, p);
    assert Mines(h) == Mines(g);
    assert ShownSet(h) == ShownSet(g);
    if g[p].state.Marked? {
      assert MarkedSet(h) == MarkedSet(g) - {p};
    } else {
      assert MarkedSet(h) == MarkedSet(g) + {p};
    }
  }

  /** Marking the same cell twice restores the board and the counter. */
  lemma ToggledTwice(g: Cells, p: Coord)
    requires p in g && !g[p].state.Shown?
    ensures p in Toggled(g, p) && !Toggled(g, p)[p].state.Shown?
    ensures Toggled(Toggled(g, p), p) == g
    ensures MarkDelta(g[p].state) + MarkDelta(Toggled(g, p)[p].state) == 0
  {
    var h := Toggled(Toggled(g, p), p);
    assert h[p] == g[p];
    assert h == g;
  }

  // ---------------------------------------------------------------------
  // The engine's invariant

  /**
    A game whose mines are in place: `nuncovered` counts the shown cells,
    `nmarked` is at least the number of marked cells (sprinkling erases marks
    without lowering it), every count agrees with the mines, there are
    `nmines` mines, and the game has exploded exactly when a mine is shown.
  */
  ghost predicate Laid(g: Cells, nrows: nat, ncols: nat, nmines: nat,
                       nmarked: int, nuncovered: nat, exploded: bool)
  {
    g.Keys == Coords(nrows, ncols) &&
    nuncovered == |ShownSet(g)| &&
    nmarked >= |MarkedSet(g)| &&
    CountsAgree(g) &&
    |Mines(g)| == nmines &&
    (exploded <==> Mines(g) * ShownSet(g) != {})
  }

  /** A game before its first uncover: no mine, nothing shown, not exploded. */
  ghost predicate Unstarted(g: Cells, nrows: nat, ncols: nat, nmarked: int, exploded: bool)
  {
    g.Keys == Coords(nrows, ncols) &&
    ShownSet(g) == {} &&
    nmarked >= |MarkedSet(g)| &&
    CountsAgree(g) &&
    Mines(g) == {} &&
    !exploded
  }

  /** The engine's invariant: unstarted while nothing is uncovered, laid afterwards. */
  ghost predicate Consistent(g: Cells, nrows: nat, ncols: nat, nmines: nat,
                             nmarked: int, nuncovered: nat, exploded: bool)
  {
    if nuncovered == 0 then Unstarted(g, nrows, ncols, nmarked, exploded)
    else Laid(g, nrows, ncols, nmines, nmarked, nuncovered, exploded)
  }

  /** `init` yields a consistent game. */
  lemma FreshConsistent(g: Cells, nrows: nat, ncols: nat, nmines: nat)
    requires g.Keys == Coords(nrows, ncols)
    requires forall p :: p in g ==> g[p] == Fresh
    ensures Consistent(g, nrows, ncols, nmines, 0, 0, false)
  {
    FreshFacts(g);
  }

  /** An accepted `mark` keeps the game consistent, and keeps `nmarked` exact if it was. */
  lemma ToggledConsistent(g: Cells, nrows: nat, ncols: nat, nmines: nat,
                          nmarked: int, nuncovered: nat, exploded: bool, p: Coord)
    requires Consistent(g, nrows, ncols, nmines, nmarked, nuncovered, exploded)
    requires p in g && !g[p].state.Shown?
    ensures Consistent(Toggled(g, p), nrows, ncols, nmines,
                       nmarked + MarkDelta(g[p].state), nuncovered, exploded)
    ensures nmarked == |MarkedSet(g)| ==>
              nmarked + MarkDelta(g[p].state) == |MarkedSet(Toggled(g, p))|
  {
    ToggledFacts(g, p);
  }

  /**
    Sprinkling `m` mines on an unstarted game lays them: the marks are gone,
    nothing is shown yet and the counts agree with the new mines.
  */
  lemma SprinkledLaid(g: Cells, nrows: nat, ncols: nat, nmines: nat, nmarked: int,
                      exploded: bool, placed: set<Coord>, m: nat)
    requires Consistent(g, nrows, ncols, nmines, nmarked, 0, exploded)
    requires placed <= g.Keys && |placed| == m
    ensures Laid(Sprinkled(g, placed), nrows, ncols, m, nmarked, 0, exploded)
    ensures MarkedSet(Sprinkled(g, placed)) == {}
  {
    var h := Sprinkled(g, placed);
    SprinkledFacts(g, placed);
    assert Mines(h) == placed;
    assert ShownSet(h) == {};
    assert Mines(h) * ShownSet(h) == {};
  }

  /**
    Sprinkling erases marks but leaves `nmarked` alone: a counter that was
    exact before the first uncover is wrong afterwards whenever a cell was
    marked.
  */
  lemma SprinkleLosesMarks(g: Cells, placed: set<Coord>, nmarked: int)
    requires nmarked == |MarkedSet(g)| && MarkedSet(g) != {}
    ensures MarkedSet(Sprinkled(g, placed)) == {}
    ensures nmarked > |MarkedSet(Sprinkled(g, placed))|
  {
    SprinkledStates(g, placed);
  }

  /**
    A flood fill from a hidden cell keeps a laid game laid: `nuncovered`
    grows by the number of cells shown, at least one, and the game has
    exploded afterwards exactly when it had before or the start is a mine.
  */
  lemma FloodLaid(g: Cells, h: Cells, p: Coord, rank: map<Coord, int>, nrows: nat, ncols: nat, nmines: nat,
                  nmarked: int, nuncovered: nat, exploded: bool)
    requires Laid(g, nrows, ncols, nmines, nmarked, nuncovered, exploded)
    requires p in g && g[p].state.Hidden? && Flooded(g, h, p, rank, nuncovered)
    ensures Laid(h, nrows, ncols, nmines, nmarked, nuncovered + |NewlyShown(g, h)|,
                 exploded || g[p].mine)
    ensures |NewlyShown(g, h)| > 0
    ensures MarkedSet(h) == MarkedSet(g)
  {
    RevealedFacts(g, h);
    FloodedShownMines(g, h, p, rank, nuncovered);
    assert p in NewlyShown(g, h);
  }

  /**
    What `uncover` ends with once it flood filled from the hidden cell `p`
    of a laid game and set `exploded` when `p` is a mine: only hidden cells
    became shown, exactly those of `Region(g, p)`, and no shown zero-count
    cell keeps a hidden neighbour; the invariant holds, `p` keeps its mine
    flag, no other newly shown cell is a mine and the marks are untouched.
  */
  lemma FloodUncovered(g: Cells, h: Cells, p: Coord, rank: map<Coord, int>, nrows: nat, ncols: nat,
                       nmines: nat, nmarked: int, n0: nat, n1: nat, exploded: bool)
    requires Laid(g, nrows, ncols, nmines, nmarked, n0, exploded)
    requires p in g && g[p].state.Hidden? && Flooded(g, h, p, rank, n0)
    requires n1 == n0 + |NewlyShown(g, h)|
    ensures Revealed(g, h) && Closed(g, h) && NewlyShown(g, h) == Region(g, p)
    ensures p in h && h[p].state.Shown? && h[p].mine == g[p].mine
    ensures Consistent(h, nrows, ncols, nmines, nmarked, n1, exploded || g[p].mine)
    ensures forall q :: q in NewlyShown(g, h) && q != p ==> !h[q].mine
    ensures MarkedSet(h) == MarkedSet(g)
  {
    FloodLaid(g, h, p, rank, nrows, ncols, nmines, nmarked, n0, exploded);
    FloodedRevealsNoOtherMine(g, h, p, rank, n0);
    FloodedRegion(g, h, p, rank, n0);
  }

  /** A laid game that has uncovered a cell satisfies the invariant. */
  lemma LaidConsistent(g: Cells, nrows: nat, ncols: nat, nmines: nat,
                       nmarked: int, nuncovered: nat, exploded: bool)
    requires Laid(g, nrows, ncols, nmines, nmarked, nuncovered, exploded)
    requires nuncovered > 0
    ensures Consistent(g, nrows, ncols, nmines, nmarked, nuncovered, exploded)
  {
  }

  /** A started game satisfying the invariant is laid. */
  lemma ConsistentLaid(g: Cells, nrows: nat, ncols: nat, nmines: nat,
                       nmarked: int, nuncovered: nat, exploded: bool)
    requires Consistent(g, nrows, ncols, nmines, nmarked, nuncovered, exploded)
    requires nuncovered > 0
    ensures Laid(g, nrows, ncols, nmines, nmarked, nuncovered, exploded)
  {
  }

  // ---------------------------------------------------------------------
  // Rendering and status

  function Digit(n: int): (ch: char)
    requires 0 <= n <= 9
    ensures '0' <= ch <= '9' && ch as int - '0' as int == n
  {
    ('0' as int + n) as char
  }

  /**
    The character `getRendering` shows for a cell, by precedence: "M" for a
    mine once the game exploded, "H" hidden, "F" marked, "M" a shown mine,
    otherwise the count's digit.
  */
  function Glyph(a: Cell, exploded: bool): (ch: char)
    requires 0 <= a.count <= 9
    ensures ch == 'M' <==> a.mine && (exploded || a.state.Shown?)
    ensures ch == 'H' <==> a.state.Hidden? && !(exploded && a.mine)
    ensures ch == 'F' <==> a.state.Marked? && !(exploded && a.mine)
    ensures '0' <= ch <= '9' <==> a.state.Shown? && !a.mine
    ensures '0' <= ch <= '9' ==> ch == Digit(a.count)
  {
    if exploded && a.mine then 'M'
    else match a.state
      case Hidden => 'H'
      case Marked => 'F'
      case Shown => if a.mine then 'M' else Digit(a.count)
  }

  /**
    In a consistent game "M" is rendered exactly on the mines of an exploded
    game: while `exploded` is false no mine is shown.
  */
  lemma MineGlyphOnlyWhenExploded(g: Cells, nrows: nat, ncols: nat, nmines: nat,
                                  nmarked: int, nuncovered: nat, exploded: bool)
    requires Consistent(g, nrows, ncols, nmines, nmarked, nuncovered, exploded)
    ensures forall p :: p in g ==>
              0 <= g[p].count <= 9 && (Glyph(g[p], exploded) == 'M' <==> exploded && g[p].mine)
  {
    CountsBounded(g);
    forall p | p in g && g[p].mine && g[p].state.Shown?
      ensures exploded
    {
      assert p in Mines(g) * ShownSet(g);
    }
  }

  /** What `getStatus` returns. */
  datatype Status = Status(
    done: bool, exploded: bool, nrows: nat, ncols: nat,
    nmarked: int, nuncovered: nat, nmines: nat)

  /**
    While a game is running (mines placed, counter and exploded flag in
    agreement with the board), "done" by the counter means: exploded, or
    every cell without a mine is shown.
  */
  lemma DoneIffCleared(g: Cells, nrows: nat, ncols: nat, nuncovered: nat, nmines: nat, exploded: bool)
    requires g.Keys == Coords(nrows, ncols)
    requires nuncovered == |ShownSet(g)|
    requires |Mines(g)| == nmines
    requires exploded <==> Mines(g) * ShownSet(g) != {}
    ensures (exploded || nuncovered == nrows * ncols - nmines)
        <==> (exploded || ShownSet(g) == Coords(nrows, ncols) - Mines(g))
  {
    if !exploded {
      var safe := Coords(nrows, ncols) - Mines(g);
      CoordsCard(nrows, ncols);
      SubsetCard(Mines(g), Coords(nrows, ncols));
      assert |safe| == nrows * ncols - nmines;
      assert ShownSet(g) <= safe;
      if nuncovered == nrows * ncols - nmines {
        SameCardSubsetEq(ShownSet(g), safe);
      }
    }
  }
}
