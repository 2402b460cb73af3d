/**
  Cells, coordinates and the neighbourhood mine count of the Minesweeper
  game engine: the values that the engine's 2-D array holds and the sets of
  positions the rules talk about.
*/
module Board {

  /** A grid position (row, col). */
  type Coord = (int, int)

  /** The three tags a cell's `state` field takes: "hidden", "shown", "marked". */
  datatype Visibility = Hidden | Shown | Marked

  /** One cell of the board, `{mine, state, count}`. */
  datatype Cell = Cell(mine: bool, state: Visibility, count: int)

  /** The board seen as a value: every in-grid position mapped to its cell. */
  type Cells = map<Coord, Cell>

  /** The cell every position holds right after `init`. */
  const Fresh: Cell := Cell(false, Hidden, 0)

  function Abs(x: int): (r: nat)
    ensures r == x || r == -x
  {
    if x < 0 then -x else x
  }

  /** All positions of an `nrows` by `ncols` grid. */
  ghost function Coords(nrows: nat, ncols: nat): (s: set<Coord>)
    ensures forall p :: p in s <==> 0 <= p.0 < nrows && 0 <= p.1 < ncols
  {
    set r, c | 0 <= r < nrows && 0 <= c < ncols :: (r, c)
  }

  /** `q` lies in the 3x3 block centred on `p` (the block includes `p` itself). */
  predicate Near(p: Coord, q: Coord)
  {
    Abs(p.0 - q.0) <= 1 && Abs(p.1 - q.1) <= 1
  }

  ghost function Mines(g: Cells): set<Coord>
  {
    set p | p in g && g[p].mine
  }

  ghost function ShownSet(g: Cells): set<Coord>
  {
    set p | p in g && g[p].state.Shown?
  }

  ghost function MarkedSet(g: Cells): set<Coord>
  {
    set p | p in g && g[p].state.Marked?
  }

  ghost function HiddenSet(g: Cells): set<Coord>
  {
    set p | p in g && g[p].state.Hidden?
  }

  /**
    The mines of the 3x3 block centred on `p`. Mines only ever sit on grid
    positions, so the block is clipped to the grid by construction.
  */
  ghost function NearMines(mines: set<Coord>, p: Coord): set<Coord>
  {
    set q | q in mines && Near(p, q)
  }

  /** The number a cell's `count` field must hold: mines in its 3x3 block, itself included. */
  ghost function MineCount(mines: set<Coord>, p: Coord): nat
  {
    |NearMines(mines, p)|
  }

  /** A count is 0 exactly when the block has no mine, and at least 1 on a mine. */
  lemma MineCountZero(mines: set<Coord>, p: Coord)
    ensures MineCount(mines, p) == 0 <==> NearMines(mines, p) == {}
    ensures p in mines ==> MineCount(mines, p) >= 1
  {
    assert p in mines ==> p in NearMines(mines, p);
  }

  /** Every cell's stored `count` agrees with the mine layout. */
  ghost predicate CountsAgree(g: Cells)
  {
    forall p {:trigger MineCount(Mines(g), p)} :: p in g ==> g[p].count == MineCount(Mines(g), p)
  }

  /** Two boards that agree at every position are equal. */
  lemma SameCells(a: Cells, b: Cells)
    requires a.Keys == b.Keys && forall p :: p in a ==> a[p] == b[p]
    ensures a == b
  {
  }

  /** Two boards with the same positions and the same mine flags have the same mines. */
  lemma SameMines(g: Cells, h: Cells)
    requires g.Keys == h.Keys
    requires forall p :: p in g ==> g[p].mine == h[p].mine
    ensures Mines(g) == Mines(h)
  {
  }

  /** A board fresh from `init` has no mine, no shown and no marked cell, and its counts agree. */
  lemma FreshFacts(g: Cells)
    requires forall p :: p in g ==> g[p] == Fresh
    ensures Mines(g) == {} && ShownSet(g) == {} && MarkedSet(g) == {}
    ensures CountsAgree(g)
  {
    forall p | p in g ensures g[p].count == MineCount(Mines(g), p) {
      assert NearMines(Mines(g), p) == {};
    }
  }

  /** The nine positions of the block centred on `p`. */
  ghost function Block(p: Coord): set<Coord>
  {
    var (r, c) := p;
    {(r - 1, c - 1), (r - 1, c), (r - 1, c + 1),
     (r, c - 1), (r, c), (r, c + 1),
     (r + 1, c - 1), (r + 1, c), (r + 1, c + 1)}
  }

  lemma SubsetCard<T>(a: set<T>, b: set<T>)
    requires a <= b
    ensures |b| == |a| + |b - a|
  {
    assert b == a + (b - a);
    assert a * (b - a) == {};
  }

  lemma SameCardSubsetEq<T>(a: set<T>, b: set<T>)
    requires a <= b && |a| == |b|
    ensures a == b
  {
    SubsetCard(a, b);
    assert b - a == {};
  }

  /** A count lies in 0..9, as the comment on `getRendering` says. */
  lemma MineCountAtMostNine(mines: set<Coord>, p: Coord)
    ensures MineCount(mines, p) <= 9
  {
    var s := NearMines(mines, p);
    forall q | q in s
      ensures q in Block(p)
    {
      assert Near(p, q);
      assert q.0 == p.0 - 1 || q.0 == p.0 || q.0 == p.0 + 1;
      assert q.1 == p.1 - 1 || q.1 == p.1 || q.1 == p.1 + 1;
    }
    SubsetCard(s, Block(p));
    BlockCard(p);
  }

  /** The block has at most nine positions (fewer never happens, but is not needed). */
  lemma BlockCard(p: Coord)
    ensures |Block(p)| <= 9
  {
    var (r, c) := p;
    var top: set<Coord> := {(r - 1, c - 1), (r - 1, c), (r - 1, c + 1)};
    var mid: set<Coord> := {(r, c - 1), (r, c), (r, c + 1)};
    var bot: set<Coord> := {(r + 1, c - 1), (r + 1, c), (r + 1, c + 1)};
    assert |top| <= 3 && |mid| <= 3 && |bot| <= 3;
    assert Block(p) == top + mid + bot;
    assert |top + mid| <= |top| + |mid|;
  }

  /** When the counts agree with the mines, every count lies in 0..9. */
  lemma CountsBounded(g: Cells)
    requires CountsAgree(g)
    ensures forall p :: p in g ==> 0 <= g[p].count <= 9
  {
    forall p | p in g ensures 0 <= g[p].count <= 9 {
      MineCountAtMostNine(Mines(g), p);
    }
  }

  /**
    The count of a cell is its own mine (if any) plus the mines among its
    up-to-eight neighbours: the count includes the cell itself.
  */
  lemma MineCountSplit(mines: set<Coord>, p: Coord)
    ensures MineCount(mines, p)
         == (if p in mines then 1 else 0) + |set q | q in mines && Near(p, q) && q != p|
  {
    var s := NearMines(mines, p);
    var others := set q | q in mines && Near(p, q) && q != p;
    if p in mines {
      assert s == others + {p};
      assert p !in others;
    } else {
      assert s == others;
    }
  }

  predicate Distinct<T(==)>(s: seq<T>)
  {
    forall i, j :: 0 <= i < j < |s| ==> s[i] != s[j]
  }

  ghost function Elems<T>(s: seq<T>): set<T>
  {
    set x | x in s
  }

  /** Appending a new element keeps a list free of repetitions. */
  lemma DistinctAppend<T>(s: seq<T>, x: T)
    requires Distinct(s) && x !in Elems(s)
    ensures Distinct(s + [x]) && Elems(s + [x]) == Elems(s) + {x}
  {
  }

  /** Swapping two entries keeps the entries and their distinctness. */
  lemma DistinctSwap<T>(s: seq<T>, i: nat, j: nat)
    requires Distinct(s) && i < |s| && j < |s|
    ensures Distinct(s[i := s[j]][j := s[i]])
    ensures Elems(s[i := s[j]][j := s[i]]) == Elems(s)
    ensures multiset(s[i := s[j]][j := s[i]]) == multiset(s)
  {
    var t := s[i := s[j]][j := s[i]];
    forall x | x in Elems(s) ensures x in Elems(t) {
      var k :| 0 <= k < |s| && s[k] == x;
      if k == i { assert t[j] == x; } else if k == j { assert t[i] == x; } else { assert t[k] == x; }
    }
  }

  /** A list without repetitions has as many elements as its set. */
  lemma {:induction false} DistinctCard<T>(s: seq<T>)
    requires Distinct(s)
    ensures |Elems(s)| == |s|
  {
    if s != [] {
      var t := s[..|s| - 1];
      var x := s[|s| - 1];
      assert Distinct(t);
      DistinctCard(t);
      assert Elems(s) == Elems(t) + {x};
      assert x !in Elems(t);
    }
  }

  /** The positions of row `r`. */
  ghost function RowCoords(r: int, ncols: nat): (s: set<Coord>)
    ensures forall p :: p in s <==> p.0 == r && 0 <= p.1 < ncols
  {
    set c | 0 <= c < ncols :: (r, c)
  }

  /** The grid has `nrows * ncols` positions. */
  lemma {:induction false} CoordsCard(nrows: nat, ncols: nat)
    ensures |Coords(nrows, ncols)| == nrows * ncols
  {
    if nrows > 0 {
      CoordsCard(nrows - 1, ncols);
      RowCard(nrows - 1, ncols);
      CoordsSplit(nrows - 1, ncols);
      assert (nrows - 1) * ncols + ncols == nrows * ncols;
    }
  }

  /** A grid of `nrows + 1` rows is one of `nrows` rows plus the last row. */
  lemma CoordsSplit(nrows: nat, ncols: nat)
    ensures |Coords(nrows + 1, ncols)| == |Coords(nrows, ncols)| + |RowCoords(nrows, ncols)|
  {
    var top, row := Coords(nrows, ncols), RowCoords(nrows, ncols);
    assert Coords(nrows + 1, ncols) == top + row;
    assert top * row == {};
  }

  lemma {:induction false} RowCard(r: int, ncols: nat)
    ensures |RowCoords(r, ncols)| == ncols
  {
    if ncols > 0 {
      RowCard(r, ncols - 1);
      assert RowCoords(r, ncols) == RowCoords(r, ncols - 1) + {(r, ncols - 1)};
    }
  }
}
