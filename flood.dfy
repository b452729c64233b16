/** What the flood-fill reveal does, stated without the recursion: the cells
    it uncovers are exactly those reachable from the start by orthogonal
    steps through hidden empty cells, every step leaving a zero-count cell. */
module Flood {
  import opened Board

  /** An in-bounds empty cell that is not yet revealed. */
  predicate Hidden(g: Grid, p: Pos)
    requires Rect(g)
  {
    InBounds(g, p) && Get(g, p).Empty? && !Get(g, p).visible
  }

  /** The four orthogonal neighbours, in the order reveal visits them:
      left, right, up, down. */
  function Orth(p: Pos, d: int): Pos {
    if d == 0 then Pos(p.x - 1, p.y)
    else if d == 1 then Pos(p.x + 1, p.y)
    else if d == 2 then Pos(p.x, p.y - 1)
    else Pos(p.x, p.y + 1)
  }

  /** `a` and `b` share an edge. */
  predicate Adjacent(a: Pos, b: Pos) {
    (a.y == b.y && (b.x == a.x - 1 || b.x == a.x + 1)) ||
    (a.x == b.x && (b.y == a.y - 1 || b.y == a.y + 1))
  }

  /** A cascade path: hidden empty cells, each edge-adjacent to the next,
      and every cell before the last has count 0. */
  ghost predicate IsPath(g: Grid, path: seq<Pos>)
    requires Rect(g)
  {
    |path| > 0 &&
    (forall i | 0 <= i < |path| :: Hidden(g, path[i])) &&
    (forall i | 0 <= i < |path| - 1 ::
       Hidden(g, path[i]) && Get(g, path[i]).count == 0 && Adjacent(path[i], path[i + 1]))
  }

  /** Revealing `p` uncovers `q`. */
  ghost predicate Reach(g: Grid, p: Pos, q: Pos)
    requires Rect(g)
  {
    exists path :: IsPath(g, path) && path[0] == p && path[|path| - 1] == q
  }

  /** A cell as it looks once revealed. */
  function Shown(s: Slot): Slot {
    match s
    case Empty(_, c) => Empty(true, c)
    case Mine(t) => Mine(t)
  }

  /** The board after revealing `p`: every cell `p` reaches is shown. */
  ghost function RevealFrom(g: Grid, p: Pos): (r: Grid)
    requires Rect(g)
    ensures Rect(r) && |r| == |g| && Width(r) == Width(g)
  {
    seq(|g|, y requires 0 <= y < |g| =>
      seq(Width(g), x requires 0 <= x < Width(g) =>
        if Reach(g, p, Pos(x, y)) then Shown(g[y][x]) else g[y][x]))
  }

  lemma RevealFromAt(g: Grid, p: Pos, q: Pos)
    requires Rect(g) && InBounds(g, q)
    ensures Get(RevealFrom(g, p), q) == if Reach(g, p, q) then Shown(Get(g, q)) else Get(g, q)
  {
  }

  /** `b` is `a` with some hidden empty cells revealed and nothing else changed. */
  ghost predicate Uncovers(a: Grid, b: Grid) {
    Rect(a) && Rect(b) && |a| == |b| && Width(a) == Width(b) &&
    forall q | InBounds(a, q) ::
      Get(b, q) == Get(a, q) || (Hidden(a, q) && Get(b, q) == Shown(Get(a, q)))
  }

  /** Revealed between `a` and `b`. */
  ghost predicate NewlyShown(a: Grid, b: Grid, q: Pos)
    requires Uncovers(a, b)
  {
    Hidden(a, q) && !Hidden(b, q)
  }

  /** Every change from `a` to `b` is a cell `p` reaches in `a`. */
  ghost predicate Sound(a: Grid, b: Grid, p: Pos)
    requires Uncovers(a, b)
  {
    forall q | InBounds(a, q) && Get(b, q) != Get(a, q) :: Reach(a, p, q)
  }

  /** No cascade stopped early: every zero-count cell revealed between `a`
      and `b` has its orthogonal empty neighbours revealed in `b`, except
      the neighbours `d >= k` of `p` (`k == 4` excludes nothing). */
  ghost predicate ClosedBut(a: Grid, b: Grid, p: Pos, k: int)
    requires Uncovers(a, b)
  {
    forall q, d | NewlyShown(a, b, q) && Get(a, q).count == 0 && 0 <= d < 4 && (q == p ==> d < k)
                  && InBounds(b, Orth(q, d)) && Get(b, Orth(q, d)).Empty? ::
      Get(b, Orth(q, d)).visible
  }

  ghost predicate Closed(a: Grid, b: Grid)
    requires Uncovers(a, b)
  {
    ClosedBut(a, b, Pos(0, 0), 4)
  }

  /** The set of hidden empty cells, which each reveal step shrinks. */
  ghost function HiddenSet(g: Grid): set<Pos>
    requires Rect(g)
  {
    set y, x | 0 <= y < |g| && 0 <= x < Width(g) && Hidden(g, Pos(x, y)) :: Pos(x, y)
  }

  lemma HiddenSetShrinks(a: Grid, b: Grid)
    requires Uncovers(a, b)
    ensures HiddenSet(b) <= HiddenSet(a)
  {
    forall q | q in HiddenSet(b) ensures q in HiddenSet(a) {
      assert Hidden(b, q);
    }
  }

  lemma UncoversRefl(a: Grid)
    requires Rect(a)
    ensures Uncovers(a, a)
  {
  }

  lemma UncoversTrans(a: Grid, b: Grid, c: Grid)
    requires Uncovers(a, b) && Uncovers(b, c)
    ensures Uncovers(a, c)
  {
    forall q | InBounds(a, q)
      ensures Get(c, q) == Get(a, q) || (Hidden(a, q) && Get(c, q) == Shown(Get(a, q)))
    {
      assert InBounds(b, q);
    }
  }

  /** A path through hidden cells of a more revealed board is a path of the less revealed one. */
  lemma ReachWeaken(a: Grid, b: Grid, s: Pos, q: Pos)
    requires Uncovers(a, b) && Reach(b, s, q)
    ensures Reach(a, s, q)
  {
    var path :| IsPath(b, path) && path[0] == s && path[|path| - 1] == q;
    forall i | 0 <= i < |path| ensures Hidden(a, path[i]) && Get(a, path[i]) == Get(b, path[i]) {
      assert Hidden(b, path[i]);
    }
    assert IsPath(a, path);
  }

  lemma ReachSelf(g: Grid, p: Pos)
    requires Rect(g) && Hidden(g, p)
    ensures Reach(g, p, p)
  {
    assert IsPath(g, [p]);
  }

  lemma ReachEnds(g: Grid, p: Pos, q: Pos)
    requires Rect(g) && Reach(g, p, q)
    ensures Hidden(g, p) && Hidden(g, q)
  {
  }

  /** A cascade may start one zero-count step earlier. */
  lemma ReachPrepend(g: Grid, p: Pos, s: Pos, q: Pos)
    requires Rect(g) && Hidden(g, p) && Get(g, p).count == 0 && Adjacent(p, s)
    requires Reach(g, s, q)
    ensures Reach(g, p, q)
  {
    var path :| IsPath(g, path) && path[0] == s && path[|path| - 1] == q;
    var longer := [p] + path;
    forall i | 0 <= i < |longer| - 1
      ensures Hidden(g, longer[i]) && Get(g, longer[i]).count == 0 && Adjacent(longer[i], longer[i + 1])
    {
      if i > 0 {
        assert longer[i] == path[i - 1] && longer[i + 1] == path[i];
      }
    }
    assert IsPath(g, longer);
  }

  /** A cascade continues from a zero-count cell into a hidden neighbour. */
  lemma ReachExtend(g: Grid, p: Pos, q: Pos, r: Pos)
    requires Rect(g) && Reach(g, p, q) && Get(g, q).count == 0 && Adjacent(q, r) && Hidden(g, r)
    ensures Reach(g, p, r)
  {
    ReachEnds(g, p, q);
    var path :| IsPath(g, path) && path[0] == p && path[|path| - 1] == q;
    var longer := path + [r];
    assert IsPath(g, longer);
  }

  lemma OrthAdjacent(p: Pos, d: int)
    requires 0 <= d < 4
    ensures Adjacent(p, Orth(p, d))
  {
  }

  lemma AdjacentOrth(p: Pos, q: Pos)
    requires Adjacent(p, q)
    ensures exists d :: 0 <= d < 4 && q == Orth(p, d)
  {
    if q == Orth(p, 0) {
    } else if q == Orth(p, 1) {
      assert 0 <= 1 < 4 && q == Orth(p, 1);
    } else if q == Orth(p, 2) {
      assert 0 <= 2 < 4 && q == Orth(p, 2);
    } else {
      assert 0 <= 3 < 4 && q == Orth(p, 3);
    }
  }

  /** Along any cascade path from `p`, a closed and uncovering change that
      shows `p` has shown every cell of the path. */
  lemma {:induction false} PathShown(a: Grid, b: Grid, p: Pos, path: seq<Pos>, n: nat)
    requires Uncovers(a, b) && Closed(a, b) && NewlyShown(a, b, p)
    requires IsPath(a, path) && path[0] == p && n < |path|
    ensures NewlyShown(a, b, path[n])
  {
    if n > 0 {
      PathShown(a, b, p, path, n - 1);
      var q, r := path[n - 1], path[n];
      assert Hidden(a, q) && Get(a, q).count == 0 && Adjacent(q, r);
      AdjacentOrth(q, r);
      var d :| 0 <= d < 4 && r == Orth(q, d);
      assert Hidden(a, r);
      assert InBounds(b, r) && Get(b, r).Empty?;
    }
  }

  /** The characterisation: a board that uncovers only cells `p` reaches,
      leaves no cascade unfinished and shows `p` itself (when hidden) is
      exactly `RevealFrom(a, p)`. */
  lemma RevealFromUnique(a: Grid, b: Grid, p: Pos)
    requires Uncovers(a, b) && Closed(a, b) && Sound(a, b, p)
    requires Hidden(a, p) ==> !Hidden(b, p)
    ensures b == RevealFrom(a, p)
  {
    var r := RevealFrom(a, p);
    forall q | InBounds(a, q) ensures Get(b, q) == Get(r, q) {
      RevealFromAt(a, p, q);
      if Reach(a, p, q) {
        var path :| IsPath(a, path) && path[0] == p && path[|path| - 1] == q;
        PathShown(a, b, p, path, |path| - 1);
      }
    }
    BoardExt(b, r);
  }

  /** `RevealFrom(a, p)` uncovers only cells `p` reaches, leaves no cascade
      unfinished, and shows `p` itself when it was hidden. */
  lemma RevealFromProps(a: Grid, p: Pos)
    requires Rect(a)
    ensures Uncovers(a, RevealFrom(a, p))
    ensures Closed(a, RevealFrom(a, p))
    ensures Sound(a, RevealFrom(a, p), p)
    ensures Hidden(a, p) ==> !Hidden(RevealFrom(a, p), p)
  {
    var r := RevealFrom(a, p);
    forall q | InBounds(a, q)
      ensures Get(r, q) == Get(a, q) || (Hidden(a, q) && Get(r, q) == Shown(Get(a, q)))
      ensures Get(r, q) != Get(a, q) ==> Reach(a, p, q)
    {
      RevealFromAt(a, p, q);
      if Reach(a, p, q) {
        ReachEnds(a, p, q);
      }
    }
    assert Uncovers(a, r);
    forall q, d | NewlyShown(a, r, q) && Get(a, q).count == 0 && 0 <= d < 4
                  && InBounds(r, Orth(q, d)) && Get(r, Orth(q, d)).Empty?
      ensures Get(r, Orth(q, d)).visible
    {
      var n := Orth(q, d);
      RevealFromAt(a, p, q);
      RevealFromAt(a, p, n);
      if Hidden(a, n) {
        OrthAdjacent(q, d);
        ReachExtend(a, p, q, n);
      }
    }
    if Hidden(a, p) {
      ReachSelf(a, p);
      RevealFromAt(a, p, p);
    }
  }

  /** Revealing a second time changes nothing. */
  lemma RevealFromIdempotent(g: Grid, p: Pos)
    requires Rect(g)
    ensures RevealFrom(RevealFrom(g, p), p) == RevealFrom(g, p)
  {
    var r := RevealFrom(g, p);
    RevealFromProps(g, p);
    if !Hidden(g, p) && InBounds(g, p) {
      assert Get(r, p) == Get(g, p);
    }
    RevealNothing(r, p);
  }

  /** Revealing a position that is off the board, a mine or already shown changes nothing. */
  lemma RevealNothing(g: Grid, p: Pos)
    requires Rect(g) && !Hidden(g, p)
    ensures RevealFrom(g, p) == g
  {
    UncoversRefl(g);
    RevealFromUnique(g, g, p);
  }

  /** From a cell with a nonzero count only that cell is revealed. */
  lemma RevealSingle(g: Grid, p: Pos)
    requires Rect(g) && Hidden(g, p) && Get(g, p).count != 0
    ensures RevealFrom(g, p) == SetCell(g, p, Shown(Get(g, p)))
  {
    var b := SetCell(g, p, Shown(Get(g, p)));
    ReachSelf(g, p);
    RevealFromUnique(g, b, p);
  }

  /** Revealing is monotone: nothing hidden appears, no count or mine changes. */
  lemma RevealFromMonotone(g: Grid, p: Pos)
    requires Rect(g)
    ensures SameLayout(g, RevealFrom(g, p))
    ensures forall q | InBounds(g, q) && Get(g, q).Empty? ::
              Get(RevealFrom(g, p), q).Empty? && Get(RevealFrom(g, p), q).count == Get(g, q).count
              && (Get(g, q).visible ==> Get(RevealFrom(g, p), q).visible)
    ensures forall q | InBounds(g, q) && Get(g, q).Mine? :: Get(RevealFrom(g, p), q) == Get(g, q)
  {
    RevealFromProps(g, p);
  }

  /** What holds of the board after the recursive reveal has shown `p`
      (hidden, count 0, in `g0`) and cascaded into its first `k` neighbours. */
  ghost predicate Cascading(g0: Grid, a: Grid, p: Pos, k: int)
  {
    Uncovers(g0, a) && Hidden(g0, p) && Get(g0, p).count == 0 && !Hidden(a, p) &&
    Sound(g0, a, p) && ClosedBut(g0, a, p, k)
  }

  /** Showing a hidden zero-count cell starts the cascade. */
  lemma CascadeStart(g0: Grid, p: Pos)
    requires Rect(g0) && Hidden(g0, p) && Get(g0, p).count == 0
    ensures Cascading(g0, SetCell(g0, p, Shown(Get(g0, p))), p, 0)
  {
    ReachSelf(g0, p);
  }

  /** Revealing the next neighbour `Orth(p, k)` extends the cascade. */
  lemma CascadeStep(g0: Grid, a: Grid, p: Pos, k: int)
    requires 0 <= k < 4 && Cascading(g0, a, p, k)
    ensures Cascading(g0, RevealFrom(a, Orth(p, k)), p, k + 1)
  {
    var n := Orth(p, k);
    var b := RevealFrom(a, n);
    RevealFromProps(a, n);
    UncoversTrans(g0, a, b);
    OrthAdjacent(p, k);
    forall q | InBounds(g0, q) && Get(b, q) != Get(g0, q) ensures Reach(g0, p, q) {
      if Get(a, q) == Get(g0, q) {
        ReachWeaken(g0, a, n, q);
        ReachPrepend(g0, p, n, q);
      }
    }
    forall q, d | NewlyShown(g0, b, q) && Get(g0, q).count == 0 && 0 <= d < 4 && (q == p ==> d < k + 1)
                  && InBounds(b, Orth(q, d)) && Get(b, Orth(q, d)).Empty?
      ensures Get(b, Orth(q, d)).visible
    {
      var r := Orth(q, d);
      if Hidden(a, q) {
        assert NewlyShown(a, b, q);
      } else if q == p && d == k {
        if Hidden(a, n) {
          ReachSelf(a, n);
          RevealFromAt(a, n, n);
        }
      } else {
        assert NewlyShown(g0, a, q);
      }
    }
  }

  /** Once all four neighbours are done, the result is `RevealFrom(g0, p)`. */
  lemma CascadeDone(g0: Grid, a: Grid, p: Pos)
    requires Cascading(g0, a, p, 4)
    ensures a == RevealFrom(g0, p)
  {
    RevealFromUnique(g0, a, p);
  }

  /** The recursion's shape is right: showing a hidden zero-count cell and
      then revealing from its left, right, upper and lower neighbours in turn
      reveals exactly what `RevealFrom` reveals from the cell. */
  lemma CascadeFromZero(g0: Grid, p: Pos)
    requires Rect(g0) && Hidden(g0, p) && Get(g0, p).count == 0
    ensures RevealFrom(RevealFrom(RevealFrom(RevealFrom(
              SetCell(g0, p, Shown(Get(g0, p))), Orth(p, 0)), Orth(p, 1)), Orth(p, 2)), Orth(p, 3))
            == RevealFrom(g0, p)
  {
    var g1 := SetCell(g0, p, Shown(Get(g0, p)));
    CascadeStart(g0, p);
    var g2 := RevealFrom(g1, Orth(p, 0));
    CascadeStep(g0, g1, p, 0);
    var g3 := RevealFrom(g2, Orth(p, 1));
    CascadeStep(g0, g2, p, 1);
    var g4 := RevealFrom(g3, Orth(p, 2));
    CascadeStep(g0, g3, p, 2);
    CascadeStep(g0, g4, p, 3);
    CascadeDone(g0, RevealFrom(g4, Orth(p, 3)), p);
  }

  /** Showing a hidden cell removes it from the hidden set. */
  lemma RevealShows(g: Grid, p: Pos)
    requires Rect(g) && Hidden(g, p)
    ensures HiddenSet(SetCell(g, p, Shown(Get(g, p)))) < HiddenSet(g)
  {
    var b := SetCell(g, p, Shown(Get(g, p)));
    assert Uncovers(g, b);
    HiddenSetShrinks(g, b);
    assert p in HiddenSet(g) && p !in HiddenSet(b);
  }

  /** Revealing never hides anything. */
  lemma RevealShrinks(g: Grid, p: Pos)
    requires Rect(g)
    ensures HiddenSet(RevealFrom(g, p)) <= HiddenSet(g)
  {
    RevealFromProps(g, p);
    HiddenSetShrinks(g, RevealFrom(g, p));
  }
}
