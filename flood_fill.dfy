/** The flood-fill labeller of src/tpConnectedComponents.cpp: `parcoursCC` explores one
    component with an explicit stack, `ccLabel` seeds one exploration per component. */
module FloodFillLabelling {
  import opened Connectivity
  import opened LabellingSpec

  /** `voisins`: the OpenCV offsets {-1,0}, {0,-1}, {0,1}, {1,0} are Point(x, y), so
      as (row, col) offsets they are left, up, down and right, in that order. */
  const Neighbours: seq<(int, int)> := [(0, -1), (-1, 0), (1, 0), (0, 1)]

  function Shift(c: Cell, d: (int, int)): Cell {
    Cell(c.row + d.0, c.col + d.1)
  }

  /** The four offsets reach exactly the 4-adjacent cells. */
  lemma NeighboursAreAdjacent(c: Cell, d: Cell)
    ensures Adjacent(c, d) <==> exists i :: 0 <= i < |Neighbours| && d == Shift(c, Neighbours[i])
  {
    if Adjacent(c, d) {
      if d.row == c.row && d.col + 1 == c.col {
        assert d == Shift(c, Neighbours[0]);
      } else if d.row + 1 == c.row {
        assert d == Shift(c, Neighbours[1]);
      } else if d.row == c.row + 1 {
        assert d == Shift(c, Neighbours[2]);
      } else {
        assert d == Shift(c, Neighbours[3]);
      }
    }
  }

  /** The cells that pass the push-time test: the present pixels still labelled 0. */
  ghost function Unlabelled(image: array2<real>, res: array2<int>): (z: set<Cell>)
    reads image, res
    requires res.Length0 == image.Length0 && res.Length1 == image.Length1
    ensures forall c :: c in z <==> c in Present(image) && res[c.row, c.col] == 0
  {
    set c | c in Cells(image.Length0, image.Length1) && Pushable(image, res, c)
  }

  /** Number of stack entries whose cell has already been written. */
  ghost function Stale(s: seq<Cell>, done: set<Cell>): nat {
    if s == [] then 0 else Stale(s[..|s| - 1], done) + (if s[|s| - 1] in done then 1 else 0)
  }

  /** Pushing cells that have not been written leaves the stale count alone. */
  lemma {:induction false} StaleFresh(s: seq<Cell>, t: seq<Cell>, done: set<Cell>)
    requires |s| <= |t| && t[..|s|] == s
    requires forall k :: |s| <= k < |t| ==> t[k] !in done
    ensures Stale(t, done) == Stale(s, done)
  {
    if |s| < |t| {
      StaleFresh(s, t[..|t| - 1], done);
    } else {
      assert t == s;
    }
  }

  /** The state of the exploration from `start` through `z`, with `done` the cells
      written so far and `s` the stack: everything written or stacked is reachable from
      `start`, `start` has been written unless nothing has happened yet, and every
      neighbour in `z` of a written cell is written or still stacked. */
  ghost predicate Exploring(z: set<Cell>, start: Cell, done: set<Cell>, s: seq<Cell>) {
    && done <= z
    && (forall c :: c in done ==> Connected(z, start, c))
    && (forall x :: x in s ==> x in z && Connected(z, start, x))
    && (start in done || (done == {} && s == [start]))
    && (forall c, d {:trigger Adjacent(c, d)} :: c in done && d in z && Adjacent(c, d) ==> d in done || d in s)
  }

  /** One iteration of the exploration loop: `r` is popped from `s` and written, and `t`
      is the stack after the pushes, whose new entries are unwritten cells of `z`
      adjacent to `r` and which holds every unwritten neighbour of `r` in `z`. The
      exploration state is kept, and the pair (unwritten cells of `z`, stale stack
      entries) decreases lexicographically. */
  lemma PopStep(z: set<Cell>, start: Cell, done: set<Cell>, s: seq<Cell>, r: Cell, t: seq<Cell>)
    requires Exploring(z, start, done, s)
    requires s != [] && r == s[|s| - 1]
    requires |s| - 1 <= |t| && t[..|s| - 1] == s[..|s| - 1]
    requires forall k :: |s| - 1 <= k < |t| ==> t[k] in z && t[k] !in done + {r} && Adjacent(r, t[k])
    requires forall d :: d in z && Adjacent(r, d) ==> d in done + {r} || d in t
    ensures Exploring(z, start, done + {r}, t)
    ensures r !in done ==> |z - (done + {r})| < |z - done|
    ensures r in done ==> done + {r} == done && Stale(t, done + {r}) < Stale(s, done)
  {
    var s0 := s[..|s| - 1];
    assert s == s0 + [r];
    assert r in s;
    forall x | x in t
      ensures x in z && Connected(z, start, x)
    {
      var k :| 0 <= k < |t| && t[k] == x;
      if k < |s0| {
        assert s0[k] == x && x in s;
      } else {
        ConnectedStep(z, start, r, x);
      }
    }
    forall c, d | c in done + {r} && d in z && Adjacent(c, d)
      ensures d in done + {r} || d in t
    {
      if c != r && d !in done + {r} {
        assert d in s0;
        var k :| 0 <= k < |s0| && s0[k] == d;
        assert t[k] == d;
      }
    }
    if r !in done {
      assert z - (done + {r}) == (z - done) - {r};
    } else {
      StaleFresh(s0, t, done);
    }
  }

  /** The push-time test of `parcoursCC`: the cell is in the grid, present, and still
      labelled 0. */
  predicate Pushable(image: array2<real>, res: array2<int>, v: Cell)
    reads image, res
    requires res.Length0 == image.Length0 && res.Length1 == image.Length1
  {
    0 <= v.col < image.Length1 && 0 <= v.row < image.Length0 &&
    image[v.row, v.col] != 0.0 && res[v.row, v.col] == 0
  }

  /** The inner loop of `parcoursCC` over `voisins`: push, in the order left, up, down,
      right, every 4-neighbour of `r` that passes the push-time test. */
  method PushNeighbours(image: array2<real>, res: array2<int>, s: seq<Cell>, r: Cell) returns (t: seq<Cell>)
    requires res.Length0 == image.Length0 && res.Length1 == image.Length1
    ensures |s| <= |t| <= |s| + 4 && t[..|s|] == s
    ensures forall k :: |s| <= k < |t| ==> Adjacent(r, t[k]) && Pushable(image, res, t[k])
    ensures forall x :: x in t ==> x in s || (Adjacent(r, x) && Pushable(image, res, x))
    ensures forall d :: Adjacent(r, d) && Pushable(image, res, d) ==> d in t[|s|..]
  {
    t := s;
    for i := 0 to |Neighbours|
      invariant |s| <= |t| <= |s| + i && t[..|s|] == s
      invariant forall k :: |s| <= k < |t| ==> Adjacent(r, t[k]) && Pushable(image, res, t[k])
      invariant forall k :: 0 <= k < i && Pushable(image, res, Shift(r, Neighbours[k])) ==>
                  Shift(r, Neighbours[k]) in t[|s|..]
    {
      var v := Shift(r, Neighbours[i]);
      if Pushable(image, res, v) {
        assert (t + [v])[|s|..] == t[|s|..] + [v];
        t := t + [v];
      }
    }
    forall d | Adjacent(r, d) && Pushable(image, res, d)
      ensures d in t[|s|..]
    {
      NeighboursAreAdjacent(r, d);
    }
    forall x | x in t
      ensures x in s || (Adjacent(r, x) && Pushable(image, res, x))
    {
      var k :| 0 <= k < |t| && t[k] == x;
      if k < |s| { assert s[k] == x; }
    }
  }

  /** `res` holds `lbl` on the written cells and its original value `orig` elsewhere. */
  ghost predicate Painted(res: array2<int>, done: set<Cell>, lbl: int, orig: map<Cell, int>)
    reads res
  {
    forall c :: InGrid(res.Length0, res.Length1, c) ==>
      c in orig && res[c.row, c.col] == if c in done then lbl else orig[c]
  }

  /** `z` is the region an exploration from `start` may enter: `start` itself and the
      pixels of `p` (the present ones) originally labelled 0. */
  ghost predicate Region(p: set<Cell>, orig: map<Cell, int>, start: Cell, z: set<Cell>) {
    forall c :: c in z <==> c == start || (c in p && c in orig && orig[c] == 0)
  }

  /** One iteration of the loop of `parcoursCC`: pop the top cell, write `lbl` into it
      and push its unwritten present neighbours. */
  method Visit(image: array2<real>, res: array2<int>, lbl: int, start: Cell, s: seq<Cell>,
               ghost z: set<Cell>, ghost orig: map<Cell, int>, ghost done: set<Cell>)
    returns (t: seq<Cell>, ghost done': set<Cell>)
    requires res.Length0 == image.Length0 && res.Length1 == image.Length1
    requires lbl != 0 && s != []
    requires Region(Present(image), orig, start, z) && InGrid(res.Length0, res.Length1, start)
    requires Exploring(z, start, done, s) && Painted(res, done, lbl, orig)
    modifies res
    ensures done' == done + {s[|s| - 1]}
    ensures |s| - 1 <= |t| <= |s| + 3 && t[..|s| - 1] == s[..|s| - 1]
    ensures forall k :: |s| - 1 <= k < |t| ==> Adjacent(s[|s| - 1], t[k]) && Pushable(image, res, t[k])
    ensures forall d :: Adjacent(s[|s| - 1], d) && Pushable(image, res, d) ==> d in t[|s| - 1..]
    ensures Region(Present(image), orig, start, z)
    ensures Exploring(z, start, done', t) && Painted(res, done', lbl, orig)
    ensures |z - done'| < |z - done| || (done' == done && Stale(t, done') < Stale(s, done))
  {
    var r := s[|s| - 1];
    assert r in s && r in z;
    res[r.row, r.col] := lbl;
    done' := done + {r};
    forall c | InGrid(res.Length0, res.Length1, c)
      ensures c in orig && res[c.row, c.col] == if c in done' then lbl else orig[c]
    {
      if c != r {
        assert res[c.row, c.col] == old(res[c.row, c.col]);
      }
    }
    t := PushNeighbours(image, res, s[..|s| - 1], r);
    forall d | d in z && Adjacent(r, d)
      ensures d in done' || d in t
    {
      if d != start && !Pushable(image, res, d) {
        assert d in Present(image) && orig[d] == 0;
        assert res[d.row, d.col] != 0;
      }
    }
    PopStep(z, start, done, s, r, t);
  }

  /** `parcoursCC`: depth-first exploration from `start` with an explicit stack.
      A popped cell is written with `label` (here `lbl`, `label` being a keyword); each
      in-grid 4-neighbour that is present and still labelled 0 is pushed. Exactly the
      cells reachable from `start` through present pixels that were labelled 0 get
      `lbl`; every other cell keeps its value. */
  method FloodFill(image: array2<real>, res: array2<int>, lbl: int, start: Cell)
    requires res.Length0 == image.Length0 && res.Length1 == image.Length1
    requires InGrid(res.Length0, res.Length1, start) && lbl != 0
    modifies res
    ensures forall c :: InGrid(res.Length0, res.Length1, c) ==>
              res[c.row, c.col] ==
                if Connected(old(Unlabelled(image, res)) + {start}, start, c) then lbl
                else old(res[c.row, c.col])
  {
    ghost var z := Unlabelled(image, res) + {start};
    ghost var orig := map c | c in Cells(res.Length0, res.Length1) :: res[c.row, c.col];
    var s := [start];
    ghost var done: set<Cell> := {};
    ConnectedRefl(z, start);
    while s != []
      invariant Region(Present(image), orig, start, z)
      invariant Exploring(z, start, done, s)
      invariant Painted(res, done, lbl, orig)
      decreases |z - done|, Stale(s, done)
    {
      s, done := Visit(image, res, lbl, start, s, z, orig, done);
    }
    Explored(z, start, done);
    forall c | InGrid(res.Length0, res.Length1, c)
      ensures old(res[c.row, c.col]) == orig[c]
    {
    }
  }

  /** With the stack empty, the written cells are exactly those reachable from
      `start`: they are closed under adjacency inside `z`. */
  lemma Explored(z: set<Cell>, start: Cell, done: set<Cell>)
    requires Exploring(z, start, done, [])
    ensures forall c :: c in done <==> Connected(z, start, c)
  {
    forall c | Connected(z, start, c)
      ensures c in done
    {
      ReachClosed(z, done, start, c);
    }
  }

  /** The state of `ccLabel`'s scan before position `pos`: `res` labels with j+1
      exactly the cells 4-connected to `seeds[j]` and is 0 elsewhere, every present
      pixel scanned so far is labelled, and the seeds are leaders of their components,
      found in row-major order before `pos`. */
  ghost predicate ScannedUpTo(image: array2<real>, res: array2<int>, seeds: seq<Cell>, pos: Cell)
    reads image, res
  {
    var p := Present(image);
    && res.Length0 == image.Length0 && res.Length1 == image.Length1
    && (forall j :: 0 <= j < |seeds| ==> seeds[j] in p && Before(seeds[j], pos))
    && SeedsLead(p, seeds)
    && (forall c :: InGrid(res.Length0, res.Length1, c) ==> 0 <= res[c.row, c.col] <= |seeds|)
    && (forall j, c :: 0 <= j < |seeds| && InGrid(res.Length0, res.Length1, c) ==>
          (res[c.row, c.col] == j + 1 <==> Connected(p, seeds[j], c)))
    && (forall c :: c in p && Before(c, pos) ==> res[c.row, c.col] != 0)
  }

  /** A labelled cell during the scan is 4-connected to the seed of its label. */
  lemma LabelOwner(image: array2<real>, res: array2<int>, seeds: seq<Cell>, pos: Cell, c: Cell)
    requires ScannedUpTo(image, res, seeds, pos) && InGrid(res.Length0, res.Length1, c)
    ensures res[c.row, c.col] == 0 ||
            (1 <= res[c.row, c.col] <= |seeds| && Connected(Present(image), seeds[res[c.row, c.col] - 1], c))
  {
  }

  /** A present pixel the scan reaches unlabelled starts a new component: no labelled
      pixel is 4-connected to it, so the unlabelled pixels hold its whole component,
      and none of the component precedes it. */
  lemma FreshComponent(image: array2<real>, res: array2<int>, seeds: seq<Cell>, cur: Cell)
    requires ScannedUpTo(image, res, seeds, cur)
    requires cur in Present(image) && res[cur.row, cur.col] == 0
    ensures forall c :: Connected(Unlabelled(image, res) + {cur}, cur, c) <==> Connected(Present(image), cur, c)
    ensures forall c :: Connected(Present(image), cur, c) ==> !Before(c, cur)
    ensures forall j, c :: 0 <= j < |seeds| && Connected(Present(image), cur, c) ==>
              !Connected(Present(image), seeds[j], c)
  {
    var p := Present(image);
    var u := Unlabelled(image, res) + {cur};
    forall j, c | 0 <= j < |seeds| && Connected(p, cur, c)
      ensures Connected(p, seeds[j], c) ==> Connected(p, seeds[j], cur)
    {
      ConnectedSym(p, cur, c);
      ConnectedJoin(p, seeds[j], c, cur);
    }
    forall c | Connected(p, cur, c)
      ensures c in u && !Before(c, cur)
    {
      ConnectedEnds(p, cur, c);
      LabelOwner(image, res, seeds, cur, c);
    }
    forall c
      ensures Connected(u, cur, c) <==> Connected(p, cur, c)
    {
      ConnectedWithin(p, u, cur, c);
    }
  }

  /** One step of `ccLabel`'s scan, at pixel (y, x): if it is present and still
      labelled 0, flood-fill its component with the next label, which adds the pixel
      to the seeds. */
  method ScanPixel(image: array2<real>, res: array2<int>, lbl: int, y: int, x: int, ghost seeds: seq<Cell>)
    returns (lbl': int, ghost seeds': seq<Cell>)
    requires 0 <= y < image.Length0 && 0 <= x < image.Length1
    requires lbl == |seeds| + 1 && ScannedUpTo(image, res, seeds, Cell(y, x))
    modifies res
    ensures lbl' == |seeds'| + 1 && ScannedUpTo(image, res, seeds', Cell(y, x + 1))
    ensures seeds' == seeds || seeds' == seeds + [Cell(y, x)]
  {
    lbl', seeds' := lbl, seeds;
    if image[y, x] != 0.0 && res[y, x] == 0 {
      seeds' := NewComponent(image, res, lbl, y, x, seeds);
      lbl' := lbl + 1;
    } else {
      forall c | Before(c, Cell(y, x + 1))
        ensures c == Cell(y, x) || Before(c, Cell(y, x))
      {
      }
    }
  }

  /** The scan meets an unlabelled present pixel: its whole component, and nothing
      else, gets the next label, and the pixel becomes that label's seed. */
  method NewComponent(image: array2<real>, res: array2<int>, lbl: int, y: int, x: int, ghost seeds: seq<Cell>)
    returns (ghost seeds': seq<Cell>)
    requires 0 <= y < image.Length0 && 0 <= x < image.Length1
    requires lbl == |seeds| + 1 && ScannedUpTo(image, res, seeds, Cell(y, x))
    requires image[y, x] != 0.0 && res[y, x] == 0
    modifies res
    ensures seeds' == seeds + [Cell(y, x)] && ScannedUpTo(image, res, seeds', Cell(y, x + 1))
  {
    var cur := Cell(y, x);
    ghost var p := Present(image);
    FreshComponent(image, res, seeds, cur);
    FloodFill(image, res, lbl, cur);
    seeds' := seeds + [cur];
    ConnectedRefl(p, cur);
    forall j, c | 0 <= j < |seeds'| && InGrid(res.Length0, res.Length1, c)
      ensures res[c.row, c.col] == j + 1 <==> Connected(p, seeds'[j], c)
    {
      if j < |seeds| {
        assert seeds'[j] == seeds[j];
      }
    }
    forall c | InGrid(res.Length0, res.Length1, c)
      ensures 0 <= res[c.row, c.col] <= |seeds'|
    {
    }
    assert SeedsLead(p, seeds');
    forall c | c in p && Before(c, Cell(y, x + 1))
      ensures res[c.row, c.col] != 0
    {
    }
  }

  /** The end of a row is the start of the next one. */
  lemma NextRow(image: array2<real>, res: array2<int>, seeds: seq<Cell>, y: int)
    requires ScannedUpTo(image, res, seeds, Cell(y, image.Length1))
    ensures ScannedUpTo(image, res, seeds, Cell(y + 1, 0))
  {
    forall c | c in Present(image) && Before(c, Cell(y + 1, 0))
      ensures Before(c, Cell(y, image.Length1))
    {
    }
  }

  /** A scan that has passed every row is a canonical labelling. */
  lemma ScanComplete(image: array2<real>, res: array2<int>, seeds: seq<Cell>)
    requires ScannedUpTo(image, res, seeds, Cell(image.Length0, 0))
    ensures Canonical(image, res, seeds)
  {
    var p := Present(image);
    forall c | InGrid(res.Length0, res.Length1, c) && image[c.row, c.col] == 0.0
      ensures res[c.row, c.col] == 0
    {
      LabelOwner(image, res, seeds, Cell(image.Length0, 0), c);
      if res[c.row, c.col] != 0 {
        ConnectedEnds(p, seeds[res[c.row, c.col] - 1], c);
      }
    }
  }

  /** One row of `ccLabel`'s scan. */
  method ScanRow(image: array2<real>, res: array2<int>, lbl: int, y: int, ghost seeds: seq<Cell>)
    returns (lbl': int, ghost seeds': seq<Cell>)
    requires 0 <= y < image.Length0
    requires lbl == |seeds| + 1 && ScannedUpTo(image, res, seeds, Cell(y, 0))
    modifies res
    ensures lbl' == |seeds'| + 1 && ScannedUpTo(image, res, seeds', Cell(y + 1, 0))
  {
    lbl', seeds' := lbl, seeds;
    var x := 0;
    while x < image.Length1
      invariant 0 <= x <= image.Length1
      invariant lbl' == |seeds'| + 1
      invariant ScannedUpTo(image, res, seeds', Cell(y, x))
    {
      lbl', seeds' := ScanPixel(image, res, lbl', y, x, seeds');
      x := x + 1;
    }
    NextRow(image, res, seeds', y);
  }

  /** `ccLabel`: scan the image in row-major order and start a flood fill with the
      next label (1, 2, ...) from every present pixel still labelled 0. The result is
      the canonical labelling: background 0, labels 1..K, one per 4-connected
      component, numbered in the row-major order of the components' first pixels. */
  method Label(image: array2<real>) returns (res: array2<int>, ghost seeds: seq<Cell>)
    ensures fresh(res)
    ensures res.Length0 == image.Length0 && res.Length1 == image.Length1
    ensures forall c :: InGrid(image.Length0, image.Length1, c) ==>
              (res[c.row, c.col] == 0 <==> image[c.row, c.col] == 0.0)
    ensures forall a, b :: a in Present(image) && b in Present(image) ==>
              (res[a.row, a.col] == res[b.row, b.col] <==> Connected(Present(image), a, b))
    ensures Canonical(image, res, seeds)
  {
    res := new int[image.Length0, image.Length1]((r, c) => 0);
    seeds := [];
    var lbl := 1;
    var y := 0;
    while y < image.Length0
      invariant 0 <= y <= image.Length0
      invariant lbl == |seeds| + 1
      invariant ScannedUpTo(image, res, seeds, Cell(y, 0))
    {
      lbl, seeds := ScanRow(image, res, lbl, y, seeds);
      y := y + 1;
    }
    ScanComplete(image, res, seeds);
    CanonicalPartition(image, res, seeds);
  }
}
