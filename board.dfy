/** Cells, coordinates and the pure queries over a Minesweeper board:
    bounds, the mine test, neighbour counting and mine placement. */
module Board {

  /** One cell: a mine (tripped or not) or an empty cell (revealed or not,
      with the number of mines among its eight neighbours). */
  datatype Slot = Mine(tripped: bool) | Empty(visible: bool, count: int)

  /** A coordinate or an offset: x indexes columns, y indexes rows. */
  datatype Pos = Pos(x: int, y: int)

  /** The board, row-major: `g[y][x]` is the cell in column x of row y. */
  type Grid = seq<seq<Slot>>

  /** The width the game reads off the first row (0 for a board without rows). */
  function Width(g: Grid): nat {
    if |g| == 0 then 0 else |g[0]|
  }

  /** Every row has the width of the first one. */
  predicate Rect(g: Grid) {
    forall y | 0 <= y < |g| :: |g[y]| == Width(g)
  }

  predicate InBounds(g: Grid, p: Pos) {
    0 <= p.y < |g| && 0 <= p.x < Width(g)
  }

  /** The cell at an in-bounds position. */
  function Get(g: Grid, p: Pos): Slot
    requires Rect(g) && InBounds(g, p)
  {
    g[p.y][p.x]
  }

  /** `g` with the single cell at `p` replaced by `s`. */
  function SetCell(g: Grid, p: Pos, s: Slot): (r: Grid)
    requires Rect(g) && InBounds(g, p)
    ensures Rect(r) && |r| == |g| && Width(r) == Width(g)
    ensures Get(r, p) == s
    ensures forall q | InBounds(g, q) && q != p :: Get(r, q) == Get(g, q)
  {
    g[p.y := g[p.y][p.x := s]]
  }

  /** Two boards of the same dimensions agree everywhere. */
  lemma BoardExt(a: Grid, b: Grid)
    requires Rect(a) && Rect(b) && |a| == |b| && Width(a) == Width(b)
    requires forall q | InBounds(a, q) :: Get(a, q) == Get(b, q)
    ensures a == b
  {
    forall y | 0 <= y < |a| ensures a[y] == b[y] {
      forall x | 0 <= x < |a[y]| ensures a[y][x] == b[y][x] {
        assert Get(a, Pos(x, y)) == Get(b, Pos(x, y));
      }
    }
  }

  /** The board of a new game: `h` rows of `w` hidden empty cells. */
  function Fresh(w: nat, h: nat): (r: Grid)
    ensures Rect(r) && |r| == h && (h > 0 ==> Width(r) == w)
    ensures forall q | InBounds(r, q) :: Get(r, q) == Empty(false, 0)
  {
    seq(h, _ => seq(w, _ => Empty(false, 0)))
  }

  /** The mine test: false off the board, and on it true exactly for the
      mine cells, tripped or not. */
  function IsMine(g: Grid, p: Pos): (r: bool)
    requires Rect(g)
    ensures r <==> InBounds(g, p) && Get(g, p).Mine?
  {
    if p.y < 0 || p.y >= |g| then false
    else if p.x < 0 || p.x >= Width(g) then false
    else
      match Get(g, p)
      case Mine(_) => true
      case Empty(_, _) => false
  }

  function Shift(p: Pos, d: Pos): Pos {
    Pos(p.x + d.x, p.y + d.y)
  }

  /** The eight neighbour offsets, in the order the game visits them. */
  const Neighbors: seq<Pos> :=
    [Pos(-1, 1), Pos(0, 1), Pos(1, 1),
     Pos(-1, 0), Pos(1, 0),
     Pos(-1, -1), Pos(0, -1), Pos(1, -1)]

  /** How many of the offsets `offs`, applied to `p`, land on a mine. */
  function MinesAmong(g: Grid, p: Pos, offs: seq<Pos>): (n: nat)
    requires Rect(g)
    ensures n <= |offs|
    decreases |offs|
  {
    if offs == [] then 0
    else
      MinesAmong(g, p, offs[..|offs| - 1])
        + (if IsMine(g, Shift(p, offs[|offs| - 1])) then 1 else 0)
  }

  /** The count is zero exactly when no offset lands on a mine. */
  lemma {:induction false} MinesAmongZero(g: Grid, p: Pos, offs: seq<Pos>)
    requires Rect(g)
    ensures MinesAmong(g, p, offs) == 0 <==> forall i | 0 <= i < |offs| :: !IsMine(g, Shift(p, offs[i]))
    decreases |offs|
  {
    if offs != [] {
      var init := offs[..|offs| - 1];
      MinesAmongZero(g, p, init);
      assert forall i | 0 <= i < |init| :: init[i] == offs[i];
    }
  }

  /** The neighbour-mine count the game computes for `p`. */
  function NeighborMines(g: Grid, p: Pos): (n: nat)
    requires Rect(g)
    ensures n <= 8
  {
    MinesAmong(g, p, Neighbors)
  }

  /** `q` is one of the eight cells touching `p`, diagonals included. */
  predicate Touches(p: Pos, q: Pos) {
    q != p && -1 <= q.x - p.x <= 1 && -1 <= q.y - p.y <= 1
  }

  /** The mines on the board among the cells touching `p`. */
  ghost function MinedAround(g: Grid, p: Pos): set<Pos>
    requires Rect(g)
  {
    set y, x | 0 <= y < |g| && 0 <= x < Width(g) && Touches(p, Pos(x, y)) && IsMine(g, Pos(x, y))
      :: Pos(x, y)
  }

  /** The eight offsets are exactly the displacements to a touching cell. */
  lemma NeighborsTouch(p: Pos, q: Pos)
    ensures Touches(p, q) <==> Pos(q.x - p.x, q.y - p.y) in Neighbors
  {
    var d := Pos(q.x - p.x, q.y - p.y);
    if Touches(p, q) {
      assert d.x == -1 || d.x == 0 || d.x == 1;
      assert d.y == -1 || d.y == 0 || d.y == 1;
    }
  }

  /** The positions, among `offs` applied to `p`, that hold a mine. */
  ghost function MinedAmong(g: Grid, p: Pos, offs: seq<Pos>): set<Pos>
    requires Rect(g)
  {
    set o | o in offs && IsMine(g, Shift(p, o)) :: Shift(p, o)
  }

  ghost predicate Distinct(offs: seq<Pos>) {
    forall i, j | 0 <= i < j < |offs| :: offs[i] != offs[j]
  }

  /** Over distinct offsets, the running count is the size of the set of mined positions. */
  lemma {:induction false} MinesAmongIsCard(g: Grid, p: Pos, offs: seq<Pos>)
    requires Rect(g) && Distinct(offs)
    ensures MinesAmong(g, p, offs) == |MinedAmong(g, p, offs)|
    decreases |offs|
  {
    if offs != [] {
      var init, last := offs[..|offs| - 1], offs[|offs| - 1];
      MinesAmongIsCard(g, p, init);
      var q := Shift(p, last);
      forall o | o in init ensures o != last {
        var i :| 0 <= i < |init| && init[i] == o;
        assert offs[i] == o;
      }
      assert q !in MinedAmong(g, p, init);
      assert offs == init + [last];
      if IsMine(g, q) {
        assert MinedAmong(g, p, offs) == MinedAmong(g, p, init) + {q};
      } else {
        assert MinedAmong(g, p, offs) == MinedAmong(g, p, init);
      }
    }
  }

  /** The game's count agrees with the plain definition: the number of mines
      among the eight surrounding cells; so it lies between 0 and 8. */
  lemma NeighborMinesIsMinedAround(g: Grid, p: Pos)
    requires Rect(g)
    ensures NeighborMines(g, p) == |MinedAround(g, p)|
    ensures 0 <= NeighborMines(g, p) <= 8
  {
    MinesAmongIsCard(g, p, Neighbors);
    forall q | q in MinedAround(g, p) ensures q in MinedAmong(g, p, Neighbors) {
      NeighborsTouch(p, q);
      assert q == Shift(p, Pos(q.x - p.x, q.y - p.y));
    }
    forall q | q in MinedAmong(g, p, Neighbors) ensures q in MinedAround(g, p) {
      var o :| o in Neighbors && IsMine(g, Shift(p, o)) && Shift(p, o) == q;
      NeighborsTouch(p, q);
      assert o == Pos(q.x - p.x, q.y - p.y);
    }
    assert MinedAround(g, p) == MinedAmong(g, p, Neighbors);
  }

  /** Two boards with the same dimensions and mines in the same places. */
  ghost predicate SameLayout(a: Grid, b: Grid) {
    Rect(a) && Rect(b) && |a| == |b| && Width(a) == Width(b) &&
    forall q | InBounds(a, q) :: Get(a, q).Mine? == Get(b, q).Mine?
  }

  /** A count depends only on where the mines are. */
  lemma {:induction false} LayoutMinesAmong(a: Grid, b: Grid, p: Pos, offs: seq<Pos>)
    requires SameLayout(a, b)
    ensures MinesAmong(a, p, offs) == MinesAmong(b, p, offs)
    decreases |offs|
  {
    if offs != [] {
      LayoutMinesAmong(a, b, p, offs[..|offs| - 1]);
      var q := Shift(p, offs[|offs| - 1]);
      assert IsMine(a, q) == IsMine(b, q);
    }
  }

  /** What `count` turns a cell into: an empty cell keeps its visibility
      and gets its neighbour-mine count; a mine is returned as it is. */
  function Recount(g: Grid, p: Pos): (r: Slot)
    requires Rect(g) && InBounds(g, p)
    ensures r.Mine? <==> Get(g, p).Mine?
    ensures r.Mine? ==> r == Get(g, p)
    ensures r.Empty? ==> r.visible == Get(g, p).visible && 0 <= r.count <= 8
  {
    match Get(g, p)
    case Empty(visible, _) => Empty(visible, NeighborMines(g, p))
    case Mine(t) => Mine(t)
  }

  /** The board after the counting sweep, every cell recounted against `g`. */
  function Counted(g: Grid): (r: Grid)
    requires Rect(g)
    ensures Rect(r) && |r| == |g| && Width(r) == Width(g)
  {
    seq(|g|, y requires 0 <= y < |g| =>
      seq(Width(g), x requires 0 <= x < Width(g) => Recount(g, Pos(x, y))))
  }

  lemma CountedAt(g: Grid, q: Pos)
    requires Rect(g) && InBounds(g, q)
    ensures Get(Counted(g), q) == Recount(g, q)
  {
  }

  /** Every empty cell holds the number of mines around it. */
  ghost predicate CountsCorrect(g: Grid)
    requires Rect(g)
  {
    forall q | InBounds(g, q) && Get(g, q).Empty? :: Get(g, q).count == NeighborMines(g, q)
  }

  /** After the counting sweep mines stay where they were, every empty cell
      keeps its visibility, and every count is right for the final board. */
  lemma CountedCorrect(g: Grid)
    requires Rect(g)
    ensures SameLayout(g, Counted(g))
    ensures CountsCorrect(Counted(g))
    ensures forall q | InBounds(g, q) && Get(g, q).Mine? :: Get(Counted(g), q) == Get(g, q)
    ensures forall q | InBounds(g, q) && Get(g, q).Empty? ::
              Get(Counted(g), q).Empty? && Get(Counted(g), q).visible == Get(g, q).visible
  {
    var c := Counted(g);
    assert SameLayout(g, c) by {
      forall q | InBounds(g, q) ensures Get(g, q).Mine? == Get(c, q).Mine? {
        assert Get(c, q) == Recount(g, q);
      }
    }
    forall q | InBounds(c, q) && Get(c, q).Empty? ensures Get(c, q).count == NeighborMines(c, q) {
      assert Get(c, q) == Recount(g, q);
      LayoutMinesAmong(g, c, q, Neighbors);
    }
  }

  /** Mine placement: every cell off the safe row and off the safe column
      for which the oracle `draw` says yes becomes an untripped mine. */
  function Placed(g: Grid, safe: Pos, draw: (int, int) -> bool): (r: Grid)
    requires Rect(g)
    ensures Rect(r) && |r| == |g| && Width(r) == Width(g)
  {
    seq(|g|, y requires 0 <= y < |g| =>
      seq(|g[y]|, x requires 0 <= x < |g[y]| =>
        if safe.x != x && safe.y != y && draw(x, y) then Mine(false) else g[y][x]))
  }

  /** Placement changes nothing in the safe row or the safe column, nor any
      cell the oracle declines; every other cell becomes an untripped mine. */
  lemma PlacedCells(g: Grid, safe: Pos, draw: (int, int) -> bool, q: Pos)
    requires Rect(g) && InBounds(g, q)
    ensures q.x == safe.x || q.y == safe.y || !draw(q.x, q.y) ==> Get(Placed(g, safe, draw), q) == Get(g, q)
    ensures q.x != safe.x && q.y != safe.y && draw(q.x, q.y) ==> Get(Placed(g, safe, draw), q) == Mine(false)
  {
  }

  /** The first move is safe: placement and counting on a board without
      mines leave the safe row and column free of mines, so the safe cell
      is still a hidden empty cell. */
  lemma FirstMoveSafe(w: nat, h: nat, safe: Pos, draw: (int, int) -> bool)
    requires InBounds(Fresh(w, h), safe)
    ensures forall q | InBounds(Fresh(w, h), q) && (q.x == safe.x || q.y == safe.y) ::
              !IsMine(Counted(Placed(Fresh(w, h), safe, draw)), q)
    ensures Get(Counted(Placed(Fresh(w, h), safe, draw)), safe).Empty?
    ensures !Get(Counted(Placed(Fresh(w, h), safe, draw)), safe).visible
  {
    var f := Fresh(w, h);
    var p := Placed(f, safe, draw);
    CountedCorrect(p);
    forall q | InBounds(f, q) && (q.x == safe.x || q.y == safe.y)
      ensures !IsMine(Counted(p), q)
    {
      PlacedCells(f, safe, draw, q);
    }
    PlacedCells(f, safe, draw, safe);
  }

  /** A 3 x 3 board where the oracle always says yes, first move in the
      middle: the four corners become mines and the middle cell counts 4. */
  lemma FullDensityScenario()
    ensures Get(Counted(Placed(Fresh(3, 3), Pos(1, 1), (x, y) => true)), Pos(1, 1)) == Empty(false, 4)
  {
    var m, e := Mine(false), Empty(false, 0);
    var corners: Grid := [[m, e, m], [e, e, e], [m, e, m]];
    var p := Placed(Fresh(3, 3), Pos(1, 1), (x, y) => true);
    forall q | InBounds(p, q) ensures Get(p, q) == Get(corners, q) {
      PlacedCells(Fresh(3, 3), Pos(1, 1), (x, y) => true, q);
    }
    BoardExt(p, corners);
    CornersCount(corners);
  }

  lemma CornersCount(g: Grid)
    requires g == [[Mine(false), Empty(false, 0), Mine(false)],
                   [Empty(false, 0), Empty(false, 0), Empty(false, 0)],
                   [Mine(false), Empty(false, 0), Mine(false)]]
    ensures NeighborMines(g, Pos(1, 1)) == 4
  {
    var c := Pos(1, 1);
    assert Neighbors[..1][..0] == [];
    assert MinesAmong(g, c, Neighbors[..1]) == 1;
    assert Neighbors[..2][..1] == Neighbors[..1];
    assert MinesAmong(g, c, Neighbors[..2]) == 1;
    assert Neighbors[..3][..2] == Neighbors[..2];
    assert MinesAmong(g, c, Neighbors[..3]) == 2;
    assert Neighbors[..4][..3] == Neighbors[..3];
    assert MinesAmong(g, c, Neighbors[..4]) == 2;
    assert Neighbors[..5][..4] == Neighbors[..4];
    assert MinesAmong(g, c, Neighbors[..5]) == 2;
    assert Neighbors[..6][..5] == Neighbors[..5];
    assert MinesAmong(g, c, Neighbors[..6]) == 3;
    assert Neighbors[..7][..6] == Neighbors[..6];
    assert MinesAmong(g, c, Neighbors[..7]) == 3;
    assert Neighbors[..7] == Neighbors[..|Neighbors| - 1];
  }

  /** Some cell, in any row, is an untripped mine. */
  ghost predicate HasUntrippedMine(g: Grid) {
    exists y, x | 0 <= y < |g| && 0 <= x < |g[y]| :: g[y][x] == Mine(false)
  }
}
