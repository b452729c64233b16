/** The game: a board updated in place, a `done` flag, and the move step
    that places mines on the first move, applies the pick and checks for a win. */
module Minesweeper {
  import opened Board
  import opened Flood

  class Game {
    var board: Grid
    var done: bool

    ghost predicate Valid()
      reads this`board
    {
      Rect(board)
    }

    /** A new game: `y` rows of `x` hidden empty cells, built row by row. */
    constructor (x: nat, y: nat)
      ensures Valid() && board == Fresh(x, y) && !done
    {
      var rows: Grid := [];
      var i := 0;
      while i < y
        invariant 0 <= i <= y
        invariant rows == Fresh(x, i)
      {
        var row: seq<Slot> := [];
        var j := 0;
        while j < x
          invariant 0 <= j <= x
          invariant row == seq(j, _ => Empty(false, 0))
        {
          row := row + [Empty(false, 0)];
          j := j + 1;
        }
        rows := rows + [row];
        i := i + 1;
      }
      board := rows;
      done := false;
    }

    /** The recount of one cell, accumulated over the eight neighbour offsets. */
    method Count(pos: Pos) returns (s: Slot)
      requires Valid() && InBounds(board, pos)
      ensures s == Recount(board, pos)
      ensures s.Mine? ==> s == Get(board, pos)
      ensures s.Empty? ==> Get(board, pos).Empty? && s.visible == Get(board, pos).visible
      ensures s.Empty? ==> s.count == |MinedAround(board, pos)| && 0 <= s.count <= 8
    {
      var slot := Get(board, pos);
      if slot.Empty? {
        var newCount := 0;
        var i := 0;
        while i < |Neighbors|
          invariant 0 <= i <= |Neighbors|
          invariant newCount == MinesAmong(board, pos, Neighbors[..i])
        {
          assert Neighbors[..i + 1][..i] == Neighbors[..i];
          if IsMine(board, Shift(pos, Neighbors[i])) {
            newCount := newCount + 1;
          }
          i := i + 1;
        }
        assert Neighbors[..i] == Neighbors;
        NeighborMinesIsMinedAround(board, pos);
        return Empty(slot.visible, newCount);
      }
      return slot;
    }

    /** Whether some cell is still an untripped mine, scanning every row. */
    method StillMines() returns (anyLeft: bool)
      requires Valid()
      ensures anyLeft <==> HasUntrippedMine(board)
    {
      anyLeft := false;
      var y := 0;
      while y < |board|
        invariant 0 <= y <= |board|
        invariant anyLeft <==> exists y', x | 0 <= y' < y && 0 <= x < |board[y']| :: board[y'][x] == Mine(false)
      {
        var x := 0;
        while x < |board[y]|
          invariant 0 <= x <= |board[y]|
          invariant anyLeft <==>
            (exists y', x' | 0 <= y' < y && 0 <= x' < |board[y']| :: board[y'][x'] == Mine(false)) ||
            (exists x' | 0 <= x' < x :: board[y][x'] == Mine(false))
        {
          if board[y][x] == Mine(false) {
            anyLeft := true;
          }
          x := x + 1;
        }
        y := y + 1;
      }
    }

    /** Mine placement: the oracle `draw` stands for the random draw against
        the density, and is consulted for cells off the safe row and column. */
    method AddMines(safe: Pos, draw: (int, int) -> bool)
      requires Valid()
      modifies this
      ensures Valid() && done == old(done)
      ensures board == Placed(old(board), safe, draw)
    {
      ghost var before := board;
      ghost var placed := Placed(before, safe, draw);
      var y := 0;
      while y < |board|
        invariant 0 <= y <= |board| && |board| == |before|
        invariant forall y' | 0 <= y' < y :: board[y'] == placed[y']
        invariant forall y' | y <= y' < |board| :: board[y'] == before[y']
        invariant done == old(done)
      {
        var x := 0;
        while x < |board[y]|
          invariant |board| == |before| && |board[y]| == |before[y]|
          invariant 0 <= x <= |board[y]|
          invariant forall y' | 0 <= y' < y :: board[y'] == placed[y']
          invariant forall y' | y < y' < |board| :: board[y'] == before[y']
          invariant board[y][..x] == placed[y][..x]
          invariant board[y][x..] == before[y][x..]
          invariant done == old(done)
        {
          if safe.x != x && safe.y != y && draw(x, y) {
            board := board[y := board[y][x := Mine(false)]];
          }
          assert board[y][..x + 1] == board[y][..x] + [board[y][x]];
          assert placed[y][..x + 1] == placed[y][..x] + [placed[y][x]];
          x := x + 1;
        }
        assert board[y] == board[y][..x];
        assert placed[y] == placed[y][..x];
        y := y + 1;
      }
      assert board == placed;
    }

    /** Placement followed by the row-major counting sweep, which rewrites
        each cell with `Count` against the partly rewritten board. */
    method Populate(safe: Pos, draw: (int, int) -> bool)
      requires Valid()
      modifies this
      ensures Valid() && done == old(done)
      ensures board == Counted(Placed(old(board), safe, draw))
    {
      AddMines(safe, draw);
      ghost var placed := board;
      var y := 0;
      while y < |board|
        invariant 0 <= y <= |board| && done == old(done)
        invariant SweptTo(placed, board, y, 0)
      {
        var x := 0;
        while x < |board[0]|
          invariant 0 <= x <= Width(board) && done == old(done)
          invariant SweptTo(placed, board, y, x)
        {
          var s := Count(Pos(x, y));
          SweepStep(placed, board, y, x, s);
          board := SetCell(board, Pos(x, y), s);
          x := x + 1;
        }
        SweepRow(placed, board, y);
        y := y + 1;
      }
      SweepDone(placed, board);
    }

    /** The recursive flood-fill: a hidden empty cell is shown, and from a
        zero-count cell the reveal goes on left, right, up and down. */
    method Reveal(pos: Pos)
      requires Valid()
      modifies this
      ensures Valid() && done == old(done)
      ensures board == RevealFrom(old(board), pos)
      decreases HiddenSet(board)
    {
      ghost var g0 := board;
      if pos.y < 0 || pos.y >= |board| {
        RevealNothing(g0, pos);
        return;
      } else if pos.x < 0 || pos.x >= |board[0]| {
        RevealNothing(g0, pos);
        return;
      }
      match Get(board, pos)
      case Empty(false, count) =>
        board := SetCell(board, pos, Empty(true, count));
        if count != 0 {
          RevealSingle(g0, pos);
          return;
        }
        assert board == SetCell(g0, pos, Shown(Get(g0, pos)));
        RevealShows(g0, pos);
        // Orth(pos, 0..3) are (x-1, y), (x+1, y), (x, y-1) and (x, y+1), in that order.
        ghost var g1 := board;
        Reveal(Orth(pos, 0));
        RevealShrinks(g1, Orth(pos, 0));
        ghost var g2 := board;
        Reveal(Orth(pos, 1));
        RevealShrinks(g2, Orth(pos, 1));
        ghost var g3 := board;
        Reveal(Orth(pos, 2));
        RevealShrinks(g3, Orth(pos, 2));
        ghost var g4 := board;
        Reveal(Orth(pos, 3));
        CascadeFromZero(g0, pos);
      case _ =>
        RevealNothing(g0, pos);
    }
  }

  /** The counting sweep has rewritten, against the board `placed`, every
      cell before column `x` of row `y` in row-major order, and no other. */
  ghost predicate SweptTo(placed: Grid, g: Grid, y: int, x: int) {
    SameLayout(placed, g) &&
    forall q | InBounds(placed, q) ::
      Get(g, q) == if q.y < y || (q.y == y && q.x < x) then Recount(placed, q) else Get(placed, q)
  }

  /** Counting the next cell against the partly swept board gives the count
      against `placed`: the sweep never changes which cells are mines. */
  lemma SweepStep(placed: Grid, g: Grid, y: int, x: int, s: Slot)
    requires SweptTo(placed, g, y, x) && InBounds(g, Pos(x, y)) && s == Recount(g, Pos(x, y))
    ensures SweptTo(placed, SetCell(g, Pos(x, y), s), y, x + 1)
  {
    var c := Pos(x, y);
    LayoutMinesAmong(placed, g, c, Neighbors);
    var g' := SetCell(g, c, s);
    forall q | InBounds(placed, q)
      ensures Get(g', q) == if q.y < y || (q.y == y && q.x < x + 1) then Recount(placed, q) else Get(placed, q)
      ensures Get(g', q).Mine? == Get(placed, q).Mine?
    {
      if q == c {
        assert Get(g, c) == Get(placed, c);
      }
    }
  }

  lemma SweepRow(placed: Grid, g: Grid, y: int)
    requires SweptTo(placed, g, y, Width(g))
    ensures SweptTo(placed, g, y + 1, 0)
  {
  }

  lemma SweepDone(placed: Grid, g: Grid)
    requires SweptTo(placed, g, |g|, 0)
    ensures g == Counted(placed)
  {
    var c := Counted(placed);
    forall q | InBounds(g, q) ensures Get(g, q) == Get(c, q) {
      assert InBounds(placed, q) && q.y < |g|;
      CountedAt(placed, q);
    }
    BoardExt(g, c);
  }

  /** The board a move acts on: placement and counting happen only on the first move. */
  ghost function Prepared(g: Grid, started: bool, pos: Pos, draw: (int, int) -> bool): (r: Grid)
    requires Rect(g)
    ensures Rect(r) && |r| == |g| && Width(r) == Width(g)
  {
    if started then g else Counted(Placed(g, pos, draw))
  }

  /** The board after picking `pos` (a tripped mine panics, leaving it unchanged). */
  ghost function Picked(b: Grid, pos: Pos): (r: Grid)
    requires Rect(b) && InBounds(b, pos)
    ensures Rect(r) && |r| == |b| && Width(r) == Width(b)
  {
    match Get(b, pos)
    case Mine(true) => b
    case Mine(false) => SetCell(b, pos, Mine(true))
    case Empty(true, _) => b
    case Empty(false, _) => RevealFrom(b, pos)
  }

  datatype Verdict = Won | BlownUp | Playing

  /** What a move reports: the panic on a tripped mine, or whether the cell
      was already revealed and how the game stands. */
  datatype Report = Panicked | Reported(alreadyRevealed: bool, verdict: Verdict)

  /** No mine on the board has been tripped. */
  ghost predicate NoTrippedMine(g: Grid)
    requires Rect(g)
  {
    forall q | InBounds(g, q) :: Get(g, q) != Mine(true)
  }

  /** `b` follows `a` in play: same mines and counts, every cell unchanged,
      revealed, or an untripped mine tripped. */
  ghost predicate Progress(a: Grid, b: Grid) {
    SameLayout(a, b) &&
    forall q | InBounds(a, q) ::
      Get(b, q) == Get(a, q) || Get(b, q) == Shown(Get(a, q)) ||
      (Get(a, q) == Mine(false) && Get(b, q) == Mine(true))
  }

  /** Counts stay right when mines stay put and every empty cell keeps its count. */
  lemma CountsKept(a: Grid, b: Grid)
    requires SameLayout(a, b) && CountsCorrect(a)
    requires forall q | InBounds(a, q) && Get(a, q).Empty? :: Get(b, q).count == Get(a, q).count
    ensures CountsCorrect(b)
  {
    forall q | InBounds(b, q) && Get(b, q).Empty? ensures Get(b, q).count == NeighborMines(b, q) {
      LayoutMinesAmong(a, b, q, Neighbors);
    }
  }

  /** Picking keeps the layout and counts, and only reveals or trips. */
  lemma PickedProgress(b: Grid, pos: Pos)
    requires Rect(b) && InBounds(b, pos)
    ensures Progress(b, Picked(b, pos))
    ensures CountsCorrect(b) ==> CountsCorrect(Picked(b, pos))
    ensures NoTrippedMine(b) && Get(b, pos) != Mine(false) ==> NoTrippedMine(Picked(b, pos))
  {
    match Get(b, pos)
    case Mine(true) =>
    case Mine(false) => TripProgress(b, pos);
    case Empty(true, _) =>
    case Empty(false, _) => RevealProgress(b, pos);
  }

  lemma TripProgress(b: Grid, pos: Pos)
    requires Rect(b) && InBounds(b, pos) && Get(b, pos) == Mine(false)
    ensures Progress(b, SetCell(b, pos, Mine(true)))
    ensures CountsCorrect(b) ==> CountsCorrect(SetCell(b, pos, Mine(true)))
  {
    var r := SetCell(b, pos, Mine(true));
    assert SameLayout(b, r);
    if CountsCorrect(b) {
      CountsKept(b, r);
    }
  }

  lemma RevealProgress(b: Grid, pos: Pos)
    requires Rect(b)
    ensures Progress(b, RevealFrom(b, pos))
    ensures CountsCorrect(b) ==> CountsCorrect(RevealFrom(b, pos))
    ensures NoTrippedMine(b) ==> NoTrippedMine(RevealFrom(b, pos))
  {
    RevealFromProps(b, pos);
    RevealFromMonotone(b, pos);
    if CountsCorrect(b) {
      CountsKept(b, RevealFrom(b, pos));
    }
  }

  /** What one turn does to the board `b` it acts on: `after` is the board
      once `pos` is picked, `d0` and `done` the flag before and after. A
      tripped mine panics; otherwise the report says whether the cell was
      already revealed, and the verdict is a win when no untripped mine is
      left (checked first), a loss when the pick tripped a mine, and play
      on otherwise. */
  ghost predicate Turned(b: Grid, pos: Pos, after: Grid, d0: bool, done: bool, report: Report)
    requires Rect(b) && InBounds(b, pos)
  {
    after == Picked(b, pos) &&
    (report == Panicked <==> Get(b, pos) == Mine(true)) &&
    (report == Panicked ==> done == d0) &&
    (report != Panicked ==>
      report.alreadyRevealed == (Get(b, pos).Empty? && Get(b, pos).visible) &&
      (report.verdict == Won <==> !HasUntrippedMine(after)) &&
      (report.verdict == BlownUp <==> Get(b, pos) == Mine(false) && HasUntrippedMine(after)) &&
      done == (d0 || Get(b, pos) == Mine(false) || !HasUntrippedMine(after)))
  }

  /** One turn of the game loop on an in-bounds move `pos`; `started` says
      whether mines have been placed, and `draw` stands for the random draw. */
  method Move(game: Game, started: bool, pos: Pos, draw: (int, int) -> bool)
    returns (nowStarted: bool, report: Report)
    requires game.Valid() && InBounds(game.board, pos)
    modifies game
    ensures game.Valid() && nowStarted
    ensures Turned(Prepared(old(game.board), started, pos, draw), pos, game.board, old(game.done), game.done, report)
    ensures started ==> Progress(old(game.board), game.board)
    ensures (!started || CountsCorrect(old(game.board))) ==> CountsCorrect(game.board)
    ensures !started && Get(old(game.board), pos).Empty? ==>
              report != Panicked && report.verdict != BlownUp &&
              Get(game.board, pos).Empty? && Get(game.board, pos).visible
    ensures old(!game.done) && old(NoTrippedMine(game.board)) ==> report != Panicked
    ensures old(game.done || NoTrippedMine(game.board)) ==> game.done || NoTrippedMine(game.board)
  {
    ghost var g, d0 := game.board, game.done;
    nowStarted := started;
    if !nowStarted {
      nowStarted := true;
      game.Populate(pos, draw);
    }
    ghost var b := game.board;
    assert b == Prepared(g, started, pos, draw);
    var picked := Get(game.board, pos);
    var blown := false;
    var alreadyRevealed := false;
    match picked {
    case Mine(true) =>
      report := Panicked;
      TurnInvariants(g, started, pos, draw, game.board, d0, game.done, report);
      return;
    case Mine(false) =>
      game.done := true;
      blown := true;
      game.board := SetCell(game.board, pos, Mine(true));
    case Empty(true, _) =>
      alreadyRevealed := true;
    case Empty(false, count) =>
      if count == 0 {
        game.Reveal(pos);
      }
      ghost var r := game.board;
      game.board := SetCell(game.board, pos, Empty(true, count));
      RevealedAgain(b, r, pos);
    }
    assert game.board == Picked(b, pos) && game.Valid();
    assert blown == (Get(b, pos) == Mine(false)) && game.done == (d0 || blown);
    var left := game.StillMines();
    if !left {
      game.done := true;
    }
    report := Reported(alreadyRevealed, if !left then Won else if blown then BlownUp else Playing);
    TurnInvariants(g, started, pos, draw, game.board, d0, game.done, report);
  }

  /** The invariants of play that a turn keeps: counts stay right, a started
      game only reveals and trips, the first pick of an empty cell is never
      a loss, and while the game runs no tripped mine is on the board. */
  lemma TurnInvariants(g: Grid, started: bool, pos: Pos, draw: (int, int) -> bool,
                       after: Grid, d0: bool, done: bool, report: Report)
    requires Rect(g) && InBounds(g, pos)
    requires Turned(Prepared(g, started, pos, draw), pos, after, d0, done, report)
    ensures started ==> Progress(g, after)
    ensures (!started || CountsCorrect(g)) ==> CountsCorrect(after)
    ensures !started && Get(g, pos).Empty? ==>
              report != Panicked && report.verdict != BlownUp &&
              Get(after, pos).Empty? && Get(after, pos).visible
    ensures !d0 && NoTrippedMine(g) ==> report != Panicked
    ensures d0 || NoTrippedMine(g) ==> done || NoTrippedMine(after)
  {
    var b := Prepared(g, started, pos, draw);
    PreparedFacts(g, started, pos, draw);
    PickedProgress(b, pos);
    if !started && Get(g, pos).Empty? && !Get(b, pos).visible {
      RevealFromProps(b, pos);
    }
  }

  /** The board a move acts on keeps the invariants of play, and on the
      first move the picked cell is as it was if it was an empty cell. */
  lemma PreparedFacts(g: Grid, started: bool, pos: Pos, draw: (int, int) -> bool)
    requires Rect(g) && InBounds(g, pos)
    ensures !started ==> CountsCorrect(Prepared(g, started, pos, draw))
    ensures NoTrippedMine(g) ==> NoTrippedMine(Prepared(g, started, pos, draw))
    ensures !started && Get(g, pos).Empty? ==>
              Get(Prepared(g, started, pos, draw), pos).Empty? &&
              Get(Prepared(g, started, pos, draw), pos).visible == Get(g, pos).visible
  {
    if !started {
      var p := Placed(g, pos, draw);
      CountedCorrect(p);
      PlacedCells(g, pos, draw, pos);
      forall q | InBounds(g, q) && NoTrippedMine(g) ensures Get(Counted(p), q) != Mine(true) {
        PlacedCells(g, pos, draw, q);
      }
    }
  }

  /** Setting the picked cell visible after the reveal (or instead of it, on
      a nonzero count) yields the reveal from the picked cell. */
  lemma RevealedAgain(b: Grid, r: Grid, pos: Pos)
    requires Rect(b) && Hidden(b, pos)
    requires Get(b, pos).count == 0 ==> r == RevealFrom(b, pos)
    requires Get(b, pos).count != 0 ==> r == b
    ensures SetCell(r, pos, Shown(Get(b, pos))) == RevealFrom(b, pos)
  {
    if Get(b, pos).count == 0 {
      ReachSelf(b, pos);
      RevealFromAt(b, pos, pos);
      BoardExt(SetCell(r, pos, Shown(Get(b, pos))), r);
    } else {
      RevealSingle(b, pos);
    }
  }

  /** A 1 x 1 board, first move on its only cell: nothing can be placed, the
      cell counts 0 and is revealed, no untripped mine is left, and the turn
      ends the game with a win. */
  lemma SingleCellScenario(draw: (int, int) -> bool, after: Grid, done: bool, report: Report)
    requires Turned(Prepared(Fresh(1, 1), false, Pos(0, 0), draw), Pos(0, 0), after, false, done, report)
    ensures after == [[Empty(true, 0)]]
    ensures report == Reported(false, Won) && done
  {
    var o, e := Pos(0, 0), [[Empty(false, 0)]];
    var p := Placed(Fresh(1, 1), o, draw);
    PlacedCells(Fresh(1, 1), o, draw, o);
    BoardExt(p, e);
    CountedAt(e, o);
    NeighborMinesIsMinedAround(e, o);
    assert MinedAround(e, o) == {};
    BoardExt(Counted(e), e);
    ReachSelf(e, o);
    RevealFromAt(e, o, o);
    BoardExt(RevealFrom(e, o), [[Empty(true, 0)]]);
  }

  /** The win check runs before the loss message, so tripping the last
      untripped mine on the board ends the game as a win. */
  lemma LastMineWins(b: Grid, pos: Pos, after: Grid, d0: bool, done: bool, report: Report)
    requires Rect(b) && InBounds(b, pos) && Get(b, pos) == Mine(false)
    requires forall q | InBounds(b, q) && q != pos :: Get(b, q) != Mine(false)
    requires Turned(b, pos, after, d0, done, report)
    ensures report == Reported(false, Won) && done
  {
    forall y, x | 0 <= y < |after| && 0 <= x < |after[y]| ensures after[y][x] != Mine(false) {
      assert Get(after, Pos(x, y)) == after[y][x];
    }
  }
}
