/** Grid cells, 4-adjacency, row-major scan order and 4-connectivity through a set of cells. */
module Connectivity {

  /** A grid position. `row` is OpenCV's `y`, `col` its `x`. */
  datatype Cell = Cell(row: int, col: int)

  predicate InGrid(h: int, w: int, c: Cell) {
    0 <= c.row < h && 0 <= c.col < w
  }

  /** Row-major scan order: `a` is visited strictly before `b`. */
  predicate Before(a: Cell, b: Cell) {
    a.row < b.row || (a.row == b.row && a.col < b.col)
  }

  /** 4-adjacency: the cells differ by one in exactly one coordinate (no diagonals). */
  predicate Adjacent(a: Cell, b: Cell) {
    (a.row == b.row && (a.col + 1 == b.col || b.col + 1 == a.col)) ||
    (a.col == b.col && (a.row + 1 == b.row || b.row + 1 == a.row))
  }

  /** All cells of an h-by-w grid. */
  ghost function Cells(h: int, w: int): (s: set<Cell>)
    ensures forall c :: c in s <==> InGrid(h, w, c)
  {
    set r, k | 0 <= r < h && 0 <= k < w :: Cell(r, k)
  }

  /** `p` is a walk of 4-adjacent cells that all lie in `z`. */
  ghost predicate IsPath(z: set<Cell>, p: seq<Cell>) {
    (forall i :: 0 <= i < |p| ==> p[i] in z) &&
    (forall i :: 0 < i < |p| ==> Adjacent(p[i - 1], p[i]))
  }

  ghost predicate PathBetween(z: set<Cell>, p: seq<Cell>, a: Cell, b: Cell) {
    IsPath(z, p) && |p| > 0 && p[0] == a && p[|p| - 1] == b
  }

  /** `a` and `b` are joined by a 4-connected walk through `z`. */
  ghost predicate Connected(z: set<Cell>, a: Cell, b: Cell) {
    exists p :: PathBetween(z, p, a, b)
  }

  /** The cells of `z` that `a` reaches: its 4-connected component when `a` is in `z`. */
  ghost function Component(z: set<Cell>, a: Cell): set<Cell> {
    set c | c in z && Connected(z, a, c)
  }

  /** Every cell of `z` adjacent to a cell of `s` is in `s`. */
  ghost predicate ClosedIn(z: set<Cell>, s: set<Cell>) {
    forall c, d :: c in s && d in z && Adjacent(c, d) ==> d in s
  }

  lemma ConnectedRefl(z: set<Cell>, a: Cell)
    requires a in z
    ensures Connected(z, a, a)
  {
    assert PathBetween(z, [a], a, a);
  }

  lemma ConnectedEnds(z: set<Cell>, a: Cell, b: Cell)
    requires Connected(z, a, b)
    ensures a in z && b in z
  {
    var p :| PathBetween(z, p, a, b);
    assert p[|p| - 1] in z;
  }

  /** A walk can be extended by one adjacent cell of `z`. */
  lemma ConnectedStep(z: set<Cell>, a: Cell, b: Cell, c: Cell)
    requires Connected(z, a, b) && c in z && Adjacent(b, c)
    ensures Connected(z, a, c)
  {
    var p :| PathBetween(z, p, a, b);
    assert PathBetween(z, p + [c], a, c);
  }

  lemma AdjacentConnected(z: set<Cell>, a: Cell, b: Cell)
    requires a in z && b in z && Adjacent(a, b)
    ensures Connected(z, a, b)
  {
    ConnectedRefl(z, a);
    ConnectedStep(z, a, a, b);
  }

  ghost function Reverse(p: seq<Cell>): (q: seq<Cell>)
    ensures |q| == |p| && forall i :: 0 <= i < |p| ==> q[i] == p[|p| - 1 - i]
  {
    seq(|p|, i requires 0 <= i < |p| => p[|p| - 1 - i])
  }

  /** 4-connectivity is symmetric: a walk can be walked backwards. */
  lemma ConnectedSym(z: set<Cell>, a: Cell, b: Cell)
    requires Connected(z, a, b)
    ensures Connected(z, b, a)
  {
    var p :| PathBetween(z, p, a, b);
    var q := Reverse(p);
    forall i | 0 < i < |q|
      ensures Adjacent(q[i - 1], q[i])
    {
      assert Adjacent(p[|p| - 1 - i], p[|p| - i]);
    }
    assert PathBetween(z, q, b, a);
  }

  /** 4-connectivity is transitive: two walks that meet can be joined. */
  lemma ConnectedTrans(z: set<Cell>, a: Cell, b: Cell, c: Cell)
    requires Connected(z, a, b) && Connected(z, b, c)
    ensures Connected(z, a, c)
  {
    var p :| PathBetween(z, p, a, b);
    var q :| PathBetween(z, q, b, c);
    var r := p + q[1..];
    forall i | 0 < i < |r|
      ensures Adjacent(r[i - 1], r[i])
    {
      if i >= |p| {
        assert r[i - 1] == q[i - |p|] && r[i] == q[i - |p| + 1];
      }
    }
    assert PathBetween(z, r, a, c);
  }

  /** Two cells reaching a common cell reach each other. */
  lemma ConnectedJoin(z: set<Cell>, a: Cell, b: Cell, c: Cell)
    ensures Connected(z, a, b) && Connected(z, b, c) ==> Connected(z, a, c)
  {
    if Connected(z, a, b) && Connected(z, b, c) {
      ConnectedTrans(z, a, b, c);
    }
  }

  /** Every cell on a walk from `a` is reached from `a` (through the walk's prefix). */
  lemma PathPrefixConnected(z: set<Cell>, p: seq<Cell>, a: Cell, b: Cell, i: int)
    requires PathBetween(z, p, a, b) && 0 <= i < |p|
    ensures Connected(z, a, p[i])
  {
    assert PathBetween(z, p[..i + 1], a, p[i]);
  }

  /** A walk from `a` stays within any set that contains `a` and is closed under
      adjacency inside `z`. */
  lemma {:induction false} ReachClosed(z: set<Cell>, s: set<Cell>, a: Cell, b: Cell)
    requires a in s && ClosedIn(z, s) && Connected(z, a, b)
    ensures b in s
  {
    var p :| PathBetween(z, p, a, b);
    var i := 0;
    while i < |p| - 1
      invariant 0 <= i < |p| && p[i] in s
    {
      assert Adjacent(p[i], p[i + 1]) && p[i + 1] in z;
      i := i + 1;
    }
  }

  /** Connectivity inside `z` is kept by any subset `y` of `z` that holds `a`'s
      whole component: the walks from `a` never leave it. */
  lemma ConnectedWithin(z: set<Cell>, y: set<Cell>, a: Cell, b: Cell)
    requires Component(z, a) <= y <= z
    ensures Connected(y, a, b) <==> Connected(z, a, b)
  {
    if Connected(z, a, b) {
      var p :| PathBetween(z, p, a, b);
      forall i | 0 <= i < |p|
        ensures p[i] in y
      {
        PathPrefixConnected(z, p, a, b, i);
      }
      assert PathBetween(y, p, a, b);
    }
    if Connected(y, a, b) {
      var p :| PathBetween(y, p, a, b);
      assert PathBetween(z, p, a, b);
    }
  }

  /** Connected cells have the same component. */
  lemma ComponentOfConnected(z: set<Cell>, a: Cell, b: Cell)
    requires Connected(z, a, b)
    ensures Component(z, a) == Component(z, b)
  {
    ConnectedSym(z, a, b);
    forall c | c in z
      ensures Connected(z, a, c) <==> Connected(z, b, c)
    {
      if Connected(z, a, c) { ConnectedTrans(z, b, a, c); }
      if Connected(z, b, c) { ConnectedTrans(z, a, b, c); }
    }
  }
}
