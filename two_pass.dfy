/** The two-pass labeller `ccLabel2pass` of src/tpConnectedComponents.cpp. The first
    pass gives every present pixel a provisional label taken from its left and upper
    neighbours (or a fresh one) and records merged labels in the equivalence table;
    the second pass replaces each provisional label by its root, renumbered 1, 2, ...
    in the order the roots are first met. */
module TwoPassLabelling {
  import opened Connectivity
  import opened LabellingSpec
  import opened Forest

  /** The least label of a non-empty list of neighbouring labels. */
  function MinOf(s: seq<int>): (m: int)
    requires s != []
    ensures m in s && forall x :: x in s ==> m <= x
  {
    if |s| == 1 then s[0]
    else
      var m' := MinOf(s[1..]);
      assert forall x :: x in s ==> x == s[0] || x in s[1..];
      if s[0] <= m' then s[0] else m'
  }

  // ---------------------------------------------------------------- first pass

  /** Labels sharing a root were given to 4-connected pixels: the first pixels to
      carry them (`birth`) are joined through `p`. */
  ghost predicate RootsSound(p: set<Cell>, eq: map<int, int>, rank: map<int, nat>, birth: seq<Cell>)
    requires Ranked(eq, rank)
  {
    forall i, j :: 0 <= i < |birth| && 0 <= j < |birth| && Root(eq, rank, i + 1) == Root(eq, rank, j + 1) ==>
      Connected(p, birth[i], birth[j])
  }

  /** `g` holds the contents of the label grid `labels`, cell by cell. */
  ghost predicate Mirrors(labels: array2<int>, g: map<Cell, int>)
    reads labels
  {
    && (forall c {:trigger c in g} :: c in g <==> InGrid(labels.Length0, labels.Length1, c))
    && (forall c {:trigger g[c]} :: c in g ==> g[c] == labels[c.row, c.col])
  }

  /** The contents of a label grid, as a map from its cells. */
  ghost function Grid(labels: array2<int>): (g: map<Cell, int>)
    reads labels
    ensures Mirrors(labels, g)
  {
    map c | c in Cells(labels.Length0, labels.Length1) :: labels[c.row, c.col]
  }

  /** `labels[y, x] := v`, with the grid contents it leaves. */
  method Store(labels: array2<int>, y: int, x: int, v: int, ghost g: map<Cell, int>) returns (ghost g': map<Cell, int>)
    requires 0 <= y < labels.Length0 && 0 <= x < labels.Length1 && Mirrors(labels, g)
    modifies labels
    ensures g' == g[Cell(y, x) := v] && Mirrors(labels, g')
  {
    labels[y, x] := v;
    g' := g[Cell(y, x) := v];
  }

  /** 4-adjacent labelled pixels have labels with a common root. */
  ghost predicate Complete(g: map<Cell, int>, eq: map<int, int>, rank: map<int, nat>)
    requires Ranked(eq, rank)
  {
    forall a, b {:trigger Adjacent(a, b)} ::
      a in g && b in g && Adjacent(a, b) && g[a] != 0 && g[b] != 0 ==> Root(eq, rank, g[a]) == Root(eq, rank, g[b])
  }

  /** The state of the first pass before `pos`, on the grid contents `g`: exactly the
      present pixels already scanned carry a provisional label 1..n (n = |birth|, the
      label counter); each is 4-connected to the first pixel given its label; and the
      table is a ranked forest on 1..n that is sound and complete for 4-connectivity
      so far. */
  ghost predicate FirstPassState(p: set<Cell>, g: map<Cell, int>, eq: map<int, int>, rank: map<int, nat>,
                                 birth: seq<Cell>, pos: Cell)
  {
    && Ranked(eq, rank) && Within(eq, |birth|)
    && (forall i :: 0 <= i < |birth| ==> birth[i] in p)
    && RootsSound(p, eq, rank, birth)
    && Scanned(p, g, |birth|, pos)
    && LabelsJoined(p, g, birth)
    && Complete(g, eq, rank)
  }

  /** Exactly the present pixels before `pos` carry a label, and labels are in 0..n. */
  ghost predicate Scanned(p: set<Cell>, g: map<Cell, int>, n: int, pos: Cell) {
    forall c :: c in g ==> 0 <= g[c] <= n && (g[c] != 0 <==> c in p && Before(c, pos))
  }

  /** Every labelled pixel is 4-connected to the first pixel given its label. */
  ghost predicate LabelsJoined(p: set<Cell>, g: map<Cell, int>, birth: seq<Cell>) {
    forall c :: c in g && 0 < g[c] <= |birth| ==> Connected(p, birth[g[c] - 1], c)
  }

  ghost predicate FirstPassUpTo(image: array2<real>, labels: array2<int>, g: map<Cell, int>, eq: map<int, int>,
                                rank: map<int, nat>, birth: seq<Cell>, pos: Cell)
    reads image, labels
  {
    && labels.Length0 == image.Length0 && labels.Length1 == image.Length1
    && Mirrors(labels, g)
    && FirstPassState(Present(image), g, eq, rank, birth, pos)
  }

  /** A fresh label n+1 given to a present pixel is its own root and shares it with
      no older label. */
  lemma {:induction false} FreshLabelSound(p: set<Cell>, eq: map<int, int>, rank: map<int, nat>, birth: seq<Cell>, cur: Cell)
    requires Ranked(eq, rank) && Within(eq, |birth|) && RootsSound(p, eq, rank, birth) && cur in p
    ensures Within(eq, |birth| + 1) && RootsSound(p, eq, rank, birth + [cur])
  {
    var n := |birth|;
    var b := birth + [cur];
    forall i, j | 0 <= i < |b| && 0 <= j < |b| && Root(eq, rank, i + 1) == Root(eq, rank, j + 1)
      ensures Connected(p, b[i], b[j])
    {
      if i < n {
        RootWithin(eq, rank, n, i + 1);
      }
      if j < n {
        RootWithin(eq, rank, n, j + 1);
      }
      if i == n && j == n {
        ConnectedRefl(p, cur);
      } else {
        assert i < n && j < n;
        assert b[i] == birth[i] && b[j] == birth[j];
      }
    }
  }

  /** One merge keeps the table sound when the births of the two merged labels are
      4-connected. */
  lemma {:induction false} UnionSound(p: set<Cell>, eq: map<int, int>, rank: map<int, nat>, eq': map<int, int>,
                   rank': map<int, nat>, birth: seq<Cell>, a: int, b: int)
    requires Ranked(eq, rank) && Ranked(eq', rank') && RootsSound(p, eq, rank, birth)
    requires 1 <= a <= |birth| && 1 <= b <= |birth| && Connected(p, birth[a - 1], birth[b - 1])
    requires Merged(eq, rank, eq', rank', a, b)
    ensures RootsSound(p, eq', rank', birth)
  {
    var ra := Root(eq, rank, a);
    var rb := Root(eq, rank, b);
    forall i, j | 0 <= i < |birth| && 0 <= j < |birth| && Root(eq', rank', i + 1) == Root(eq', rank', j + 1)
      ensures Connected(p, birth[i], birth[j])
    {
      var ri := Root(eq, rank, i + 1);
      var rj := Root(eq, rank, j + 1);
      if ri == ra && rj != ra {
        assert rj == rb;
        ConnectedTrans(p, birth[i], birth[a - 1], birth[b - 1]);
        ConnectedTrans(p, birth[i], birth[b - 1], birth[j]);
      } else if ri != ra && rj == ra {
        assert ri == rb;
        ConnectedTrans(p, birth[i], birth[b - 1], birth[a - 1]) by {
          ConnectedSym(p, birth[a - 1], birth[b - 1]);
        }
        ConnectedTrans(p, birth[i], birth[a - 1], birth[j]);
      }
    }
  }

  /** The loop of the first pass over the neighbouring labels: merge every one that
      differs from the chosen label `m` into it. Afterwards the classes of `m` and of
      the neighbouring labels form one class, every other label keeps its root, and
      the table stays sound. */
  method MergeLabels(eq: map<int, int>, ghost rank: map<int, nat>, ghost p: set<Cell>, ghost birth: seq<Cell>,
                     m: int, nbs: seq<int>)
    returns (eq': map<int, int>, ghost rank': map<int, nat>)
    requires Ranked(eq, rank) && Within(eq, |birth|) && RootsSound(p, eq, rank, birth)
    requires 1 <= m <= |birth| && forall i :: 0 <= i < |nbs| ==> 1 <= nbs[i] <= |birth|
    requires forall i :: 0 <= i < |nbs| ==> Connected(p, birth[m - 1], birth[nbs[i] - 1])
    ensures Ranked(eq', rank') && Within(eq', |birth|) && RootsSound(p, eq', rank', birth)
    ensures JoinedInto(eq, rank, eq', rank', m, JoinedRoots(eq, rank, m, nbs))
    ensures forall i :: 0 <= i < |nbs| ==> Root(eq', rank', nbs[i]) == Root(eq', rank', m)
    ensures Coarsens(eq, rank, eq', rank')
  {
    eq', rank' := eq, rank;
    assert JoinedRoots(eq, rank, m, nbs[..0]) == {Root(eq, rank, m)};
    for i := 0 to |nbs|
      invariant Ranked(eq', rank') && Within(eq', |birth|) && RootsSound(p, eq', rank', birth)
      invariant JoinedInto(eq, rank, eq', rank', m, JoinedRoots(eq, rank, m, nbs[..i]))
    {
      ghost var (e0, r0) := (eq', rank');
      if nbs[i] != m {
        eq', rank' := Union(eq', rank', |birth|, m, nbs[i]);
        UnionSound(p, e0, r0, eq', rank', birth, m, nbs[i]);
      }
      JoinedIntoStep(eq, rank, e0, r0, eq', rank', m, nbs, i);
    }
    assert nbs[..|nbs|] == nbs;
    JoinedIntoCoarsens(eq, rank, eq', rank', m, nbs);
  }

  /** The left and upper neighbours of (y, x), in that order, that lie in the grid
      contents `g` and carry a non-zero label. */
  ghost function NbCells(g: map<Cell, int>, y: int, x: int): seq<Cell> {
    (if x > 0 && Cell(y, x - 1) in g && g[Cell(y, x - 1)] != 0 then [Cell(y, x - 1)] else []) +
    (if y > 0 && Cell(y - 1, x) in g && g[Cell(y - 1, x)] != 0 then [Cell(y - 1, x)] else [])
  }

  /** The labels of those neighbours: the list the first pass builds for (y, x). */
  ghost function NbLabels(g: map<Cell, int>, y: int, x: int): seq<int> {
    (if x > 0 && Cell(y, x - 1) in g && g[Cell(y, x - 1)] != 0 then [g[Cell(y, x - 1)]] else []) +
    (if y > 0 && Cell(y - 1, x) in g && g[Cell(y - 1, x)] != 0 then [g[Cell(y - 1, x)]] else [])
  }

  /** The labels of the left and upper neighbours of (y, x), in that order, when they
      are in the grid and non-zero, with the neighbours they come from. */
  method NeighbourLabels(labels: array2<int>, y: int, x: int, ghost g: map<Cell, int>) returns (nbs: seq<int>, ghost cells: seq<Cell>)
    requires 0 <= y < labels.Length0 && 0 <= x < labels.Length1 && Mirrors(labels, g)
    ensures nbs == NbLabels(g, y, x) && cells == NbCells(g, y, x)
    ensures |nbs| <= 2 && forall i :: 0 <= i < |nbs| ==> nbs[i] != 0
    ensures |nbs| == |cells|
    ensures forall i :: 0 <= i < |cells| ==>
              cells[i] in g && Adjacent(cells[i], Cell(y, x)) && g[cells[i]] == nbs[i] && nbs[i] != 0
    ensures forall d :: d in g && Adjacent(d, Cell(y, x)) && Before(d, Cell(y, x)) && g[d] != 0 ==> d in cells
  {
    nbs, cells := [], [];
    if x > 0 && labels[y, x - 1] != 0 {
      nbs, cells := nbs + [labels[y, x - 1]], cells + [Cell(y, x - 1)];
    }
    if y > 0 && labels[y - 1, x] != 0 {
      nbs, cells := nbs + [labels[y - 1, x]], cells + [Cell(y - 1, x)];
    }
    assert forall i :: 0 <= i < |cells| ==> g[cells[i]] == labels[cells[i].row, cells[i].col];
    assert x > 0 ==> Cell(y, x - 1) in g && g[Cell(y, x - 1)] == labels[y, x - 1];
    assert y > 0 ==> Cell(y - 1, x) in g && g[Cell(y - 1, x)] == labels[y - 1, x];
  }

  /** The present pixel `cur` is 4-connected to the births of all its neighbours'
      labels, and so are those births to one another through `cur`. */
  lemma {:induction false} NeighboursJoined(p: set<Cell>, birth: seq<Cell>, cur: Cell, nbs: seq<int>, cells: seq<Cell>, m: int)
    requires cur in p && |nbs| == |cells| && m in nbs
    requires forall i :: 0 <= i < |nbs| ==>
               1 <= nbs[i] <= |birth| && Connected(p, birth[nbs[i] - 1], cells[i]) && Adjacent(cells[i], cur)
    ensures Connected(p, birth[m - 1], cur)
    ensures forall i :: 0 <= i < |nbs| ==> Connected(p, birth[m - 1], birth[nbs[i] - 1])
  {
    forall i | 0 <= i < |nbs|
      ensures Connected(p, birth[nbs[i] - 1], cur) && Connected(p, cur, birth[nbs[i] - 1])
    {
      ConnectedStep(p, birth[nbs[i] - 1], cells[i], cur);
      ConnectedSym(p, birth[nbs[i] - 1], cur);
    }
    forall i | 0 <= i < |nbs|
      ensures Connected(p, birth[m - 1], birth[nbs[i] - 1])
    {
      ConnectedTrans(p, birth[m - 1], cur, birth[nbs[i] - 1]);
    }
  }

  /** Scanning a pixel moves the frontier past it: it is labelled (with some label
      in 1..n') when present, and stays unlabelled otherwise. */
  lemma {:induction false} ScannedStep(p: set<Cell>, g: map<Cell, int>, n: int, n': int, y: int, x: int, v: int)
    requires Scanned(p, g, n, Cell(y, x)) && n <= n' && Cell(y, x) in g
    requires if Cell(y, x) in p then 1 <= v <= n' else v == 0
    ensures Scanned(p, g[Cell(y, x) := v], n', Cell(y, x + 1))
  {
    var cur := Cell(y, x);
    forall c | c in g[cur := v]
      ensures Before(c, Cell(y, x + 1)) <==> Before(c, cur) || c == cur
    {
    }
  }

  /** A present pixel with no labelled 4-neighbour may take any label: no
      adjacency constrains the table. */
  lemma {:induction false} CompleteFresh(g: map<Cell, int>, eq: map<int, int>, rank: map<int, nat>, cur: Cell, v: int)
    requires Ranked(eq, rank) && Complete(g, eq, rank)
    requires forall d :: d in g && Adjacent(d, cur) ==> g[d] == 0
    ensures Complete(g[cur := v], eq, rank)
  {
  }

  /** A pixel labelled `m` whose labelled 4-neighbours all share `m`'s root keeps the
      table complete, also after merges that separate no labels. */
  lemma {:induction false} CompleteJoin(g: map<Cell, int>, eq: map<int, int>, rank: map<int, nat>,
                                        eq': map<int, int>, rank': map<int, nat>, cur: Cell, m: int)
    requires Ranked(eq, rank) && Ranked(eq', rank') && Complete(g, eq, rank) && Coarsens(eq, rank, eq', rank')
    requires forall d :: d in g && Adjacent(d, cur) && g[d] != 0 ==> Root(eq', rank', g[d]) == Root(eq', rank', m)
    ensures Complete(g[cur := m], eq', rank')
  {
    var g' := g[cur := m];
    forall a, b | a in g' && b in g' && Adjacent(a, b) && g'[a] != 0 && g'[b] != 0
      ensures Root(eq', rank', g'[a]) == Root(eq', rank', g'[b])
    {
      if a != cur && b != cur {
        assert Root(eq, rank, g[a]) == Root(eq, rank, g[b]);
        assert Root(eq', rank', g[a]) == Root(eq', rank', Root(eq, rank, g[a]));
        assert Root(eq', rank', g[b]) == Root(eq', rank', Root(eq, rank, g[b]));
      }
    }
  }

  /** Giving `cur` a label whose first pixel it is 4-connected to keeps every labelled
      pixel joined to its label's first pixel. */
  lemma {:induction false} JoinedStep(p: set<Cell>, g: map<Cell, int>, birth: seq<Cell>, cur: Cell, v: int)
    requires LabelsJoined(p, g, birth) && 1 <= v <= |birth| && Connected(p, birth[v - 1], cur)
    ensures LabelsJoined(p, g[cur := v], birth)
  {
  }

  /** A new label's first pixel is appended to the births. */
  lemma {:induction false} JoinedFresh(p: set<Cell>, g: map<Cell, int>, birth: seq<Cell>, cur: Cell)
    requires LabelsJoined(p, g, birth) && forall c :: c in g ==> g[c] <= |birth|
    ensures LabelsJoined(p, g, birth + [cur])
  {
    var b := birth + [cur];
    forall c | c in g && 0 < g[c] <= |b|
      ensures Connected(p, b[g[c] - 1], c)
    {
      assert b[g[c] - 1] == birth[g[c] - 1];
    }
  }

  /** Before merging: the least neighbouring label `m` and every neighbouring label are
      labels in use whose first pixels are 4-connected, through the present pixel `cur`. */
  lemma {:induction false} JoinReady(p: set<Cell>, g: map<Cell, int>, eq: map<int, int>, rank: map<int, nat>,
                                     birth: seq<Cell>, cur: Cell, nbs: seq<int>, cells: seq<Cell>, m: int)
    requires FirstPassState(p, g, eq, rank, birth, cur) && cur in p
    requires |nbs| == |cells| && m in nbs
    requires forall i :: 0 <= i < |cells| ==>
               cells[i] in g && Adjacent(cells[i], cur) && g[cells[i]] == nbs[i] && nbs[i] != 0
    ensures 1 <= m <= |birth| && forall i :: 0 <= i < |nbs| ==> 1 <= nbs[i] <= |birth|
    ensures Connected(p, birth[m - 1], cur)
    ensures forall i :: 0 <= i < |nbs| ==> Connected(p, birth[m - 1], birth[nbs[i] - 1])
  {
    forall i | 0 <= i < |nbs|
      ensures 1 <= nbs[i] <= |birth| && Connected(p, birth[nbs[i] - 1], cells[i])
    {
      assert g[cells[i]] == nbs[i];
    }
    NeighboursJoined(p, birth, cur, nbs, cells, m);
  }

  /** Scanning a background pixel changes nothing. */
  lemma {:induction false} SkipStep(p: set<Cell>, g: map<Cell, int>, eq: map<int, int>, rank: map<int, nat>,
                 birth: seq<Cell>, y: int, x: int)
    requires FirstPassState(p, g, eq, rank, birth, Cell(y, x)) && Cell(y, x) !in p && Cell(y, x) in g
    ensures FirstPassState(p, g, eq, rank, birth, Cell(y, x + 1))
  {
    ScannedStep(p, g, |birth|, |birth|, y, x, 0);
    assert g[Cell(y, x) := 0] == g;
  }

  /** A present pixel without labelled left or upper neighbour gets the fresh label n+1. */
  lemma {:induction false} FreshStep(p: set<Cell>, g: map<Cell, int>, eq: map<int, int>, rank: map<int, nat>,
                  birth: seq<Cell>, y: int, x: int)
    requires FirstPassState(p, g, eq, rank, birth, Cell(y, x)) && Cell(y, x) in p && Cell(y, x) in g
    requires forall d :: d in g && Adjacent(d, Cell(y, x)) && Before(d, Cell(y, x)) ==> g[d] == 0
    ensures FirstPassState(p, g[Cell(y, x) := |birth| + 1], eq, rank, birth + [Cell(y, x)], Cell(y, x + 1))
  {
    var cur := Cell(y, x);
    var n := |birth|;
    FreshLabelSound(p, eq, rank, birth, cur);
    ScannedStep(p, g, n, n + 1, y, x, n + 1);
    CompleteFresh(g, eq, rank, cur, n + 1);
    JoinedFresh(p, g, birth, cur);
    ConnectedRefl(p, cur);
    JoinedStep(p, g, birth + [cur], cur, n + 1);
  }

  /** A present pixel with labelled neighbours takes the least of their labels `m`
      once they have all been merged with it. */
  lemma {:induction false} JoinStep(p: set<Cell>, g: map<Cell, int>, eq: map<int, int>, rank: map<int, nat>,
                 eq': map<int, int>, rank': map<int, nat>, birth: seq<Cell>, y: int, x: int,
                 nbs: seq<int>, cells: seq<Cell>, m: int)
    requires FirstPassState(p, g, eq, rank, birth, Cell(y, x)) && Cell(y, x) in p && Cell(y, x) in g
    requires |nbs| == |cells| && m in nbs
    requires forall i :: 0 <= i < |cells| ==>
               cells[i] in g && Adjacent(cells[i], Cell(y, x)) && g[cells[i]] == nbs[i] && nbs[i] != 0
    requires forall d :: d in g && Adjacent(d, Cell(y, x)) && Before(d, Cell(y, x)) && g[d] != 0 ==> d in cells
    requires Ranked(eq', rank') && Within(eq', |birth|) && RootsSound(p, eq', rank', birth)
    requires forall i :: 0 <= i < |nbs| ==> Root(eq', rank', nbs[i]) == Root(eq', rank', m)
    requires Coarsens(eq, rank, eq', rank')
    requires 1 <= m <= |birth| && Connected(p, birth[m - 1], Cell(y, x))
    ensures FirstPassState(p, g[Cell(y, x) := m], eq', rank', birth, Cell(y, x + 1))
  {
    var cur := Cell(y, x);
    ScannedStep(p, g, |birth|, |birth|, y, x, m);
    JoinedStep(p, g, birth, cur, m);
    forall d | d in g && Adjacent(d, cur) && g[d] != 0
      ensures Root(eq', rank', g[d]) == Root(eq', rank', m)
    {
      assert Before(d, cur);
      var i :| 0 <= i < |cells| && cells[i] == d;
    }
    CompleteJoin(g, eq, rank, eq', rank', cur, m);
  }

  /** The provisional label the first pass gives a present pixel (y, x), on the grid
      contents `g` with label counter `n`: the fresh label n+1 when neither its left
      nor its upper neighbour carries a label, else the least of their labels. */
  ghost function PassOneLabel(g: map<Cell, int>, n: int, y: int, x: int): int {
    if NbLabels(g, y, x) == [] then n + 1 else MinOf(NbLabels(g, y, x))
  }

  /** One pixel of the first pass. A background pixel is skipped. A present pixel
      with no labelled left or upper neighbour gets a fresh label; otherwise it gets
      the least of their labels, and every other one is merged with it. */
  method FirstPassPixel(image: array2<real>, labels: array2<int>, eq: map<int, int>, ghost rank: map<int, nat>,
                        counter: int, y: int, x: int, ghost birth: seq<Cell>, ghost g: map<Cell, int>)
    returns (eq': map<int, int>, ghost rank': map<int, nat>, counter': int, ghost birth': seq<Cell>,
             ghost g': map<Cell, int>)
    requires 0 <= y < image.Length0 && 0 <= x < image.Length1
    requires FirstPassUpTo(image, labels, g, eq, rank, birth, Cell(y, x)) && counter == |birth|
    modifies labels
    ensures FirstPassUpTo(image, labels, g', eq', rank', birth', Cell(y, x + 1)) && counter' == |birth'|
    ensures g' == if image[y, x] == 0.0 then g else g[Cell(y, x) := PassOneLabel(g, counter, y, x)]
    ensures counter' == if image[y, x] != 0.0 && NbLabels(g, y, x) == [] then counter + 1 else counter
    ensures birth' == if image[y, x] != 0.0 && NbLabels(g, y, x) == [] then birth + [Cell(y, x)] else birth
    ensures image[y, x] == 0.0 || NbLabels(g, y, x) == [] ==> eq' == eq && rank' == rank
    ensures image[y, x] != 0.0 && NbLabels(g, y, x) != [] ==>
              var m := MinOf(NbLabels(g, y, x));
              JoinedInto(eq, rank, eq', rank', m, JoinedRoots(eq, rank, m, NbLabels(g, y, x)))
    ensures Coarsens(eq, rank, eq', rank')
  {
    ghost var p := Present(image);
    ghost var cur := Cell(y, x);
    eq', rank', counter', birth', g' := eq, rank, counter, birth, g;
    assert cur in g;
    if image[y, x] != 0.0 {
      assert cur in p;
      var nbs, cells := NeighbourLabels(labels, y, x, g);
      if nbs == [] {
        counter' := counter + 1;
        g' := FreshPixel(image, labels, eq, rank, y, x, birth, g, counter');
        birth' := birth + [cur];
      } else {
        eq', rank', g' := JoinPixel(image, labels, eq, rank, y, x, birth, g, nbs, cells);
      }
    } else {
      SkipStep(p, g, eq, rank, birth, y, x);
    }
    if eq' == eq && rank' == rank {
      CoarsensRefl(eq, rank);
    }
  }

  /** A present pixel without labelled left or upper neighbour takes the fresh label
      `n` = |birth| + 1 and becomes its first pixel. */
  method FreshPixel(image: array2<real>, labels: array2<int>, eq: map<int, int>, ghost rank: map<int, nat>,
                    y: int, x: int, ghost birth: seq<Cell>, ghost g: map<Cell, int>, n: int)
    returns (ghost g': map<Cell, int>)
    requires 0 <= y < image.Length0 && 0 <= x < image.Length1 && image[y, x] != 0.0
    requires FirstPassUpTo(image, labels, g, eq, rank, birth, Cell(y, x)) && n == |birth| + 1
    requires NbLabels(g, y, x) == []
    modifies labels
    ensures FirstPassUpTo(image, labels, g', eq, rank, birth + [Cell(y, x)], Cell(y, x + 1))
    ensures g' == g[Cell(y, x) := n]
  {
    ghost var p := Present(image);
    assert Cell(y, x) in g && Cell(y, x) in p;
    forall d | d in g && Adjacent(d, Cell(y, x)) && Before(d, Cell(y, x))
      ensures g[d] == 0
    {
      assert d == Cell(y, x - 1) || d == Cell(y - 1, x);
    }
    g' := Store(labels, y, x, n, g);
    FreshStep(p, g, eq, rank, birth, y, x);
  }

  /** A present pixel with labelled left or upper neighbours: it takes the least of
      their labels `m`, and every other one is merged with `m`. */
  method JoinPixel(image: array2<real>, labels: array2<int>, eq: map<int, int>, ghost rank: map<int, nat>,
                   y: int, x: int, ghost birth: seq<Cell>, ghost g: map<Cell, int>, nbs: seq<int>, ghost cells: seq<Cell>)
    returns (eq': map<int, int>, ghost rank': map<int, nat>, ghost g': map<Cell, int>)
    requires 0 <= y < image.Length0 && 0 <= x < image.Length1 && image[y, x] != 0.0
    requires FirstPassUpTo(image, labels, g, eq, rank, birth, Cell(y, x))
    requires nbs == NbLabels(g, y, x) && nbs != [] && |nbs| == |cells|
    requires forall i :: 0 <= i < |cells| ==>
               cells[i] in g && Adjacent(cells[i], Cell(y, x)) && g[cells[i]] == nbs[i] && nbs[i] != 0
    requires forall d :: d in g && Adjacent(d, Cell(y, x)) && Before(d, Cell(y, x)) && g[d] != 0 ==> d in cells
    modifies labels
    ensures FirstPassUpTo(image, labels, g', eq', rank', birth, Cell(y, x + 1))
    ensures g' == g[Cell(y, x) := MinOf(nbs)]
    ensures JoinedInto(eq, rank, eq', rank', MinOf(nbs), JoinedRoots(eq, rank, MinOf(nbs), nbs))
    ensures Coarsens(eq, rank, eq', rank')
  {
    ghost var p := Present(image);
    ghost var cur := Cell(y, x);
    assert cur in g && cur in p;
    var m := MinOf(nbs);
    JoinReady(p, g, eq, rank, birth, cur, nbs, cells, m);
    g' := Store(labels, y, x, m, g);
    eq', rank' := MergeLabels(eq, rank, p, birth, m, nbs);
    JoinStep(p, g, eq, rank, eq', rank', birth, y, x, nbs, cells, m);
  }

  /** A table trivially only joins its own classes. */
  lemma CoarsensRefl(eq: map<int, int>, rank: map<int, nat>)
    requires Ranked(eq, rank)
    ensures Coarsens(eq, rank, eq, rank)
  {
    forall k
      ensures Root(eq, rank, k) == Root(eq, rank, Root(eq, rank, k))
    {
      var r := Root(eq, rank, k);
      assert Root(eq, rank, r) == r;
    }
  }

  /** Row `y` of the grid contents `g` before column `upto` follows the first-pass
      rule, with `n0` the label counter at the start of the row: a present pixel with
      a labelled left or upper neighbour holds the least of their labels, and any other
      present pixel holds a fresh label above `n0` whose first pixel it is; every label
      above `n0` was given fresh to such a pixel. */
  ghost predicate RowLabelled(p: set<Cell>, g: map<Cell, int>, n0: int, birth: seq<Cell>, y: int, upto: int) {
    0 <= n0 && RowJoined(p, g, n0, birth, y, upto) && RowFresh(p, g, n0, birth, y, upto)
  }

  ghost predicate RowJoined(p: set<Cell>, g: map<Cell, int>, n0: int, birth: seq<Cell>, y: int, upto: int)
    requires 0 <= n0
  {
    forall c :: c in g && c.row == y && c.col < upto && c in p ==>
      if NbLabels(g, y, c.col) != [] then g[c] == MinOf(NbLabels(g, y, c.col))
      else n0 < g[c] <= |birth| && birth[g[c] - 1] == c
  }

  ghost predicate RowFresh(p: set<Cell>, g: map<Cell, int>, n0: int, birth: seq<Cell>, y: int, upto: int)
    requires 0 <= n0
  {
    forall i :: n0 <= i < |birth| ==>
      birth[i] in p && birth[i] in g && birth[i].row == y && birth[i].col < upto &&
      NbLabels(g, y, birth[i].col) == []
  }

  /** The first pass has gone from (g0, birth0, eq0) at the start of row `y` to
      (g, birth, eq) before column `x`: other rows are unchanged, labels were only
      added, row `y` follows the first-pass rule, and classes were only joined. */
  ghost predicate RowProgress(p: set<Cell>, g0: map<Cell, int>, birth0: seq<Cell>, eq0: map<int, int>,
                              rank0: map<int, nat>, g: map<Cell, int>, birth: seq<Cell>, eq: map<int, int>,
                              rank: map<int, nat>, y: int, x: int)
  {
    && Ranked(eq0, rank0) && Ranked(eq, rank)
    && (forall c :: c in g0 && c.row != y ==> c in g && g[c] == g0[c])
    && |birth0| <= |birth| && birth[..|birth0|] == birth0
    && RowLabelled(p, g, |birth0|, birth, y, x)
    && Coarsens(eq0, rank0, eq, rank)
  }

  /** One pixel of the first pass, as `FirstPassPixel` states it, extends the progress
      over row `y` by one column. */
  lemma RowProgressStep(p: set<Cell>, g0: map<Cell, int>, birth0: seq<Cell>, eq0: map<int, int>,
                        rank0: map<int, nat>, g: map<Cell, int>, birth: seq<Cell>, eq: map<int, int>,
                        rank: map<int, nat>, g': map<Cell, int>, birth': seq<Cell>, eq': map<int, int>,
                        rank': map<int, nat>, y: int, x: int)
    requires RowProgress(p, g0, birth0, eq0, rank0, g, birth, eq, rank, y, x) && Cell(y, x) in g
    requires Ranked(eq', rank') && Coarsens(eq, rank, eq', rank')
    requires g' == if Cell(y, x) !in p then g else g[Cell(y, x) := PassOneLabel(g, |birth|, y, x)]
    requires birth' == if Cell(y, x) in p && NbLabels(g, y, x) == [] then birth + [Cell(y, x)] else birth
    ensures RowProgress(p, g0, birth0, eq0, rank0, g', birth', eq', rank', y, x + 1)
  {
    RowStep(p, g, g', |birth0|, birth, birth', y, x);
    CoarsensTrans(eq0, rank0, eq, rank, eq', rank');
    RowOthers(g0, birth0, g, birth, g', birth', y, x, PassOneLabel(g, |birth|, y, x), Cell(y, x));
  }

  /** A write to (y, x) and a possible new first pixel leave other rows and the older
      first pixels alone. */
  lemma RowOthers(g0: map<Cell, int>, birth0: seq<Cell>, g: map<Cell, int>, birth: seq<Cell>,
                  g': map<Cell, int>, birth': seq<Cell>, y: int, x: int, v: int, b: Cell)
    requires forall c :: c in g0 && c.row != y ==> c in g && g[c] == g0[c]
    requires |birth0| <= |birth| && birth[..|birth0|] == birth0
    requires g' == g || g' == g[Cell(y, x) := v]
    requires birth' == birth || birth' == birth + [b]
    ensures forall c :: c in g0 && c.row != y ==> c in g' && g'[c] == g0[c]
    ensures |birth0| <= |birth'| && birth'[..|birth0|] == birth0
  {
    assert birth'[..|birth|] == birth;
  }

  /** Writing cell `d` leaves the neighbour list of any other cell than its right and
      lower neighbours alone. */
  lemma NbLabelsFrame(g: map<Cell, int>, d: Cell, v: int, y: int, x: int)
    requires d in g && d != Cell(y, x - 1) && d != Cell(y - 1, x)
    ensures NbLabels(g[d := v], y, x) == NbLabels(g, y, x)
  {
  }

  /** One pixel of row `y` extends the first-pass rule over the row by one column. */
  lemma RowStep(p: set<Cell>, g: map<Cell, int>, g': map<Cell, int>, n0: int,
                birth: seq<Cell>, birth': seq<Cell>, y: int, x: int)
    requires RowLabelled(p, g, n0, birth, y, x) && n0 <= |birth| && Cell(y, x) in g
    requires g' == if Cell(y, x) !in p then g else g[Cell(y, x) := PassOneLabel(g, |birth|, y, x)]
    requires birth' == if Cell(y, x) in p && NbLabels(g, y, x) == [] then birth + [Cell(y, x)] else birth
    ensures RowLabelled(p, g', n0, birth', y, x + 1)
  {
    if Cell(y, x) in p {
      RowJoinedStep(p, g, n0, birth, y, x);
      RowFreshStep(p, g, n0, birth, y, x);
    } else {
      assert RowJoined(p, g, n0, birth, y, x + 1);
    }
  }

  lemma {:induction false} RowJoinedStep(p: set<Cell>, g: map<Cell, int>, n0: int, birth: seq<Cell>, y: int, x: int)
    requires 0 <= n0 <= |birth| && RowJoined(p, g, n0, birth, y, x) && Cell(y, x) in g && Cell(y, x) in p
    ensures RowJoined(p, g[Cell(y, x) := PassOneLabel(g, |birth|, y, x)], n0,
                      if NbLabels(g, y, x) == [] then birth + [Cell(y, x)] else birth, y, x + 1)
  {
    var cur := Cell(y, x);
    var v := PassOneLabel(g, |birth|, y, x);
    var g' := g[cur := v];
    var birth' := if NbLabels(g, y, x) == [] then birth + [cur] else birth;
    NbLabelsFrame(g, cur, v, y, x);
    forall c | c in g' && c.row == y && c.col < x + 1 && c in p
      ensures if NbLabels(g', y, c.col) != [] then g'[c] == MinOf(NbLabels(g', y, c.col))
              else n0 < g'[c] <= |birth'| && birth'[g'[c] - 1] == c
    {
      if c != cur {
        NbLabelsFrame(g, cur, v, y, c.col);
      }
    }
  }

  lemma {:induction false} RowFreshStep(p: set<Cell>, g: map<Cell, int>, n0: int, birth: seq<Cell>, y: int, x: int)
    requires 0 <= n0 <= |birth| && RowFresh(p, g, n0, birth, y, x) && Cell(y, x) in g && Cell(y, x) in p
    ensures RowFresh(p, g[Cell(y, x) := PassOneLabel(g, |birth|, y, x)], n0,
                     if NbLabels(g, y, x) == [] then birth + [Cell(y, x)] else birth, y, x + 1)
  {
    var cur := Cell(y, x);
    var v := PassOneLabel(g, |birth|, y, x);
    var g' := g[cur := v];
    var birth' := if NbLabels(g, y, x) == [] then birth + [cur] else birth;
    NbLabelsFrame(g, cur, v, y, x);
    forall i | n0 <= i < |birth'|
      ensures birth'[i] in p && birth'[i] in g' && birth'[i].row == y && birth'[i].col < x + 1 &&
              NbLabels(g', y, birth'[i].col) == []
    {
      if i < |birth| {
        assert birth'[i] == birth[i];
        NbLabelsFrame(g, cur, v, y, birth[i].col);
      }
    }
  }

  /** At the end of a row the state is the state at the start of the next one. */
  lemma {:induction false} NextRowState(p: set<Cell>, g: map<Cell, int>, eq: map<int, int>, rank: map<int, nat>,
                                        birth: seq<Cell>, y: int, w: int)
    requires FirstPassState(p, g, eq, rank, birth, Cell(y, w))
    requires forall c :: c in g ==> 0 <= c.col < w
    ensures FirstPassState(p, g, eq, rank, birth, Cell(y + 1, 0))
  {
    forall c | c in g
      ensures Before(c, Cell(y, w)) <==> Before(c, Cell(y + 1, 0))
    {
    }
  }

  /** The inner loop of the first pass, over the pixels of row `y`. */
  method FirstPassRow(image: array2<real>, labels: array2<int>, eq: map<int, int>, ghost rank: map<int, nat>,
                      counter: int, y: int, ghost birth: seq<Cell>, ghost g: map<Cell, int>)
    returns (eq': map<int, int>, ghost rank': map<int, nat>, counter': int, ghost birth': seq<Cell>,
             ghost g': map<Cell, int>)
    requires 0 <= y < image.Length0
    requires FirstPassUpTo(image, labels, g, eq, rank, birth, Cell(y, 0)) && counter == |birth|
    modifies labels
    ensures FirstPassUpTo(image, labels, g', eq', rank', birth', Cell(y + 1, 0)) && counter' == |birth'|
    ensures RowProgress(Present(image), g, birth, eq, rank, g', birth', eq', rank', y, image.Length1)
  {
    eq', rank', counter', birth', g' := eq, rank, counter, birth, g;
    CoarsensRefl(eq, rank);
    assert birth[..|birth|] == birth;
    for x := 0 to image.Length1
      invariant FirstPassUpTo(image, labels, g', eq', rank', birth', Cell(y, x)) && counter' == |birth'|
      invariant RowProgress(Present(image), g, birth, eq, rank, g', birth', eq', rank', y, x)
    {
      ghost var (e0, r0, b0, g0) := (eq', rank', birth', g');
      eq', rank', counter', birth', g' := FirstPassPixel(image, labels, eq', rank', counter', y, x, birth', g');
      assert Cell(y, x) in Present(image) <==> image[y, x] != 0.0;
      RowProgressStep(Present(image), g, birth, eq, rank, g0, b0, e0, r0, g', birth', eq', rank', y, x);
    }
    NextRowState(Present(image), g', eq', rank', birth', y, image.Length1);
  }

  /** Before the first pass: nothing labelled, an empty table. */
  lemma FirstPassInit(image: array2<real>, labels: array2<int>)
    requires labels.Length0 == image.Length0 && labels.Length1 == image.Length1
    requires forall i, j :: 0 <= i < labels.Length0 && 0 <= j < labels.Length1 ==> labels[i, j] == 0
    ensures FirstPassUpTo(image, labels, Grid(labels), map[], map[], [], Cell(0, 0))
  {
  }

  /** The first pass: afterwards exactly the present pixels carry a provisional label,
      and two present pixels have labels with a common root exactly when they are
      4-connected. */
  method FirstPass(image: array2<real>, labels: array2<int>)
    returns (eq: map<int, int>, ghost rank: map<int, nat>, ghost g: map<Cell, int>)
    requires labels.Length0 == image.Length0 && labels.Length1 == image.Length1
    requires forall i, j :: 0 <= i < labels.Length0 && 0 <= j < labels.Length1 ==> labels[i, j] == 0
    modifies labels
    ensures Mirrors(labels, g) && FirstPassDone(Present(image), g, eq, rank)
  {
    var counter := 0;
    ghost var birth: seq<Cell> := [];
    g := Grid(labels);
    eq, rank := map[], map[];
    FirstPassInit(image, labels);
    for y := 0 to image.Length0
      invariant FirstPassUpTo(image, labels, g, eq, rank, birth, Cell(y, 0)) && counter == |birth|
    {
      eq, rank, counter, birth, g := FirstPassRow(image, labels, eq, rank, counter, y, birth, g);
    }
    FirstPassPartition(Present(image), g, eq, rank, birth, image.Length0);
  }

  /** The outcome of the first pass on the present pixels `p`: exactly they carry a
      label, and labels have a common root exactly for 4-connected pixels. */
  ghost predicate FirstPassDone(p: set<Cell>, g: map<Cell, int>, eq: map<int, int>, rank: map<int, nat>) {
    && Ranked(eq, rank)
    && LabelledExactly(p, g)
    && (forall c, d {:trigger Connected(p, c, d)} :: c in p && d in p ==>
          (Root(eq, rank, g[c]) == Root(eq, rank, g[d]) <==> Connected(p, c, d)))
  }

  /** Exactly the pixels of `p` carry a non-zero label. */
  ghost predicate LabelledExactly(p: set<Cell>, g: map<Cell, int>) {
    && p <= g.Keys
    && (forall c :: c in g ==> (g[c] != 0 <==> c in p))
  }

  /** The state after the last row is the outcome of the first pass. */
  lemma {:induction false} FirstPassPartition(p: set<Cell>, g: map<Cell, int>, eq: map<int, int>, rank: map<int, nat>,
                                              birth: seq<Cell>, h: int)
    requires FirstPassState(p, g, eq, rank, birth, Cell(h, 0))
    requires forall c :: c in p ==> c in g && c.row < h
    ensures FirstPassDone(p, g, eq, rank)
  {
    forall c, d | c in p && d in p
      ensures Root(eq, rank, g[c]) == Root(eq, rank, g[d]) <==> Connected(p, c, d)
    {
      SameRootConnected(p, g, eq, rank, birth, h, c, d);
      ConnectedSameRoot(p, g, eq, rank, birth, h, c, d);
    }
  }

  /** Pixels whose labels share a root are 4-connected, through their labels' births. */
  lemma {:induction false} SameRootConnected(p: set<Cell>, g: map<Cell, int>, eq: map<int, int>, rank: map<int, nat>,
                                             birth: seq<Cell>, h: int, c: Cell, d: Cell)
    requires FirstPassState(p, g, eq, rank, birth, Cell(h, 0))
    requires forall c :: c in p ==> c in g && c.row < h
    requires c in p && d in p
    ensures Root(eq, rank, g[c]) == Root(eq, rank, g[d]) ==> Connected(p, c, d)
  {
    var i, j := g[c] - 1, g[d] - 1;
    assert Connected(p, birth[i], c) && Connected(p, birth[j], d);
    if Root(eq, rank, i + 1) == Root(eq, rank, j + 1) {
      assert Connected(p, birth[i], birth[j]);
      ConnectedSym(p, birth[i], c);
      ConnectedTrans(p, c, birth[i], birth[j]);
      ConnectedTrans(p, c, birth[j], d);
    }
  }

  /** 4-connected pixels have labels sharing a root: the pixels whose label shares
      `c`'s root are closed under adjacency, by completeness of the table. */
  lemma {:induction false} ConnectedSameRoot(p: set<Cell>, g: map<Cell, int>, eq: map<int, int>, rank: map<int, nat>,
                                             birth: seq<Cell>, h: int, c: Cell, d: Cell)
    requires FirstPassState(p, g, eq, rank, birth, Cell(h, 0))
    requires forall c :: c in p ==> c in g && c.row < h
    requires c in p && d in p
    ensures Connected(p, c, d) ==> Root(eq, rank, g[c]) == Root(eq, rank, g[d])
  {
    var s := set e | e in p && Root(eq, rank, g[e]) == Root(eq, rank, g[c]);
    forall e, f | e in s && f in p && Adjacent(e, f)
      ensures f in s
    {
      assert g[e] != 0 && g[f] != 0;
    }
    if Connected(p, c, d) {
      ReachClosed(p, s, c, d);
    }
  }

  // --------------------------------------------------------------- second pass

  /** The state of the second pass before `pos`. `g1` is the grid after the first
      pass and `g2` the grid now; `nl` is `newLabels`, sending the roots met so far to
      1, 2, ... in the order `order` they were met, at the pixels `seeds`. Each seed
      is the first pixel of its root met, every scanned present pixel holds its root's
      new label, and the pixels not yet scanned are unchanged. */
  ghost predicate SecondPassState(p: set<Cell>, g1: map<Cell, int>, eq: map<int, int>, rank: map<int, nat>,
                                  g2: map<Cell, int>, nl: map<int, int>, order: seq<int>, seeds: seq<Cell>, pos: Cell)
  {
    && Ranked(eq, rank)
    && Numbering(nl, order)
    && SeedsFirst(p, g1, eq, rank, order, seeds, pos)
    && (forall c :: c in p && c in g1 && Before(c, pos) ==> Root(eq, rank, g1[c]) in nl)
    && Renumbered(p, g1, eq, rank, g2, nl, pos)
  }

  /** `nl` numbers the roots of `order` 1, 2, ... and no others. */
  ghost predicate Numbering(nl: map<int, int>, order: seq<int>) {
    && (forall j :: 0 <= j < |order| ==> order[j] in nl && nl[order[j]] == j + 1)
    && (forall r :: r in nl ==> r in order)
  }

  /** `seeds[j]`, scanned before `pos`, is the first present pixel with root `order[j]`,
      and the seeds come in scan order. */
  ghost predicate SeedsFirst(p: set<Cell>, g1: map<Cell, int>, eq: map<int, int>, rank: map<int, nat>,
                             order: seq<int>, seeds: seq<Cell>, pos: Cell)
    requires Ranked(eq, rank)
  {
    && |seeds| == |order|
    && (forall j :: 0 <= j < |seeds| ==>
          seeds[j] in p && seeds[j] in g1 && Before(seeds[j], pos) && Root(eq, rank, g1[seeds[j]]) == order[j])
    && (forall j, c :: 0 <= j < |seeds| && c in p && c in g1 && Root(eq, rank, g1[c]) == order[j] ==>
          !Before(c, seeds[j]))
    && (forall i, j :: 0 <= i < j < |seeds| ==> Before(seeds[i], seeds[j]))
  }

  /** The scanned present pixels hold their root's new label; the others are as the
      first pass left them. */
  ghost predicate Renumbered(p: set<Cell>, g1: map<Cell, int>, eq: map<int, int>, rank: map<int, nat>,
                             g2: map<Cell, int>, nl: map<int, int>, pos: Cell)
    requires Ranked(eq, rank)
  {
    && g2.Keys == g1.Keys
    && (forall c :: c in g2 ==>
          if c in p && Before(c, pos) then Root(eq, rank, g1[c]) in nl && g2[c] == nl[Root(eq, rank, g1[c])]
          else g2[c] == g1[c])
  }

  /** Before the second pass: nothing renumbered. */
  lemma SecondPassInit(p: set<Cell>, g1: map<Cell, int>, eq: map<int, int>, rank: map<int, nat>)
    requires Ranked(eq, rank) && forall c :: c in g1 ==> 0 <= c.row && 0 <= c.col
    ensures SecondPassState(p, g1, eq, rank, g1, map[], [], [], Cell(0, 0))
  {
  }

  /** A pixel without a provisional label is left alone. */
  lemma {:induction false} SecondSkip(p: set<Cell>, g1: map<Cell, int>, eq: map<int, int>, rank: map<int, nat>,
                                      g2: map<Cell, int>, nl: map<int, int>, order: seq<int>, seeds: seq<Cell>,
                                      y: int, x: int)
    requires SecondPassState(p, g1, eq, rank, g2, nl, order, seeds, Cell(y, x)) && Cell(y, x) !in p
    ensures SecondPassState(p, g1, eq, rank, g2, nl, order, seeds, Cell(y, x + 1))
  {
    forall c | c in p && c in g1 && Before(c, Cell(y, x + 1))
      ensures Before(c, Cell(y, x))
    {
    }
  }

  /** A pixel whose root was met before takes that root's new label. */
  lemma {:induction false} SecondSeen(p: set<Cell>, g1: map<Cell, int>, eq: map<int, int>, rank: map<int, nat>,
                                      g2: map<Cell, int>, nl: map<int, int>, order: seq<int>, seeds: seq<Cell>,
                                      y: int, x: int)
    requires SecondPassState(p, g1, eq, rank, g2, nl, order, seeds, Cell(y, x))
    requires Cell(y, x) in p && Cell(y, x) in g1 && Root(eq, rank, g1[Cell(y, x)]) in nl
    ensures SecondPassState(p, g1, eq, rank, g2[Cell(y, x) := nl[Root(eq, rank, g1[Cell(y, x)])]], nl, order, seeds,
                            Cell(y, x + 1))
  {
    var cur := Cell(y, x);
    forall c | c in g1
      ensures Before(c, Cell(y, x + 1)) <==> Before(c, cur) || c == cur
    {
    }
  }

  /** A pixel whose root is met for the first time makes that root the next new label,
      and becomes its seed: no pixel of the root scanned before it, none after. */
  lemma {:induction false} SecondNew(p: set<Cell>, g1: map<Cell, int>, eq: map<int, int>, rank: map<int, nat>,
                                     g2: map<Cell, int>, nl: map<int, int>, order: seq<int>, seeds: seq<Cell>,
                                     y: int, x: int)
    requires SecondPassState(p, g1, eq, rank, g2, nl, order, seeds, Cell(y, x))
    requires Cell(y, x) in p && Cell(y, x) in g1 && Root(eq, rank, g1[Cell(y, x)]) !in nl
    ensures var r := Root(eq, rank, g1[Cell(y, x)]);
            SecondPassState(p, g1, eq, rank, g2[Cell(y, x) := |order| + 1], nl[r := |order| + 1], order + [r],
                            seeds + [Cell(y, x)], Cell(y, x + 1))
  {
    var cur := Cell(y, x);
    var r := Root(eq, rank, g1[cur]);
    NumberingNew(nl, order, r);
    SeedsNew(p, g1, eq, rank, nl, order, seeds, y, x);
    forall c | c in g1
      ensures Before(c, Cell(y, x + 1)) <==> Before(c, cur) || c == cur
    {
    }
  }

  /** Numbering a new root next keeps the numbering. */
  lemma {:induction false} NumberingNew(nl: map<int, int>, order: seq<int>, r: int)
    requires Numbering(nl, order) && r !in nl
    ensures Numbering(nl[r := |order| + 1], order + [r])
  {
    var nl', order' := nl[r := |order| + 1], order + [r];
    forall j | 0 <= j < |order'|
      ensures order'[j] in nl' && nl'[order'[j]] == j + 1
    {
      if j < |order| {
        assert order'[j] == order[j] != r;
      }
    }
  }

  /** The first pixel of a root not met before is the root's seed. */
  lemma {:induction false} SeedsNew(p: set<Cell>, g1: map<Cell, int>, eq: map<int, int>, rank: map<int, nat>,
                                    nl: map<int, int>, order: seq<int>, seeds: seq<Cell>, y: int, x: int)
    requires Ranked(eq, rank) && SeedsFirst(p, g1, eq, rank, order, seeds, Cell(y, x))
    requires forall c :: c in p && c in g1 && Before(c, Cell(y, x)) ==> Root(eq, rank, g1[c]) in nl
    requires Cell(y, x) in p && Cell(y, x) in g1 && Root(eq, rank, g1[Cell(y, x)]) !in nl
    ensures SeedsFirst(p, g1, eq, rank, order + [Root(eq, rank, g1[Cell(y, x)])], seeds + [Cell(y, x)], Cell(y, x + 1))
  {
    var cur := Cell(y, x);
    var r := Root(eq, rank, g1[cur]);
    var order', seeds' := order + [r], seeds + [cur];
    forall j, c | 0 <= j < |seeds'| && c in p && c in g1 && Root(eq, rank, g1[c]) == order'[j]
      ensures !Before(c, seeds'[j])
    {
      if j < |seeds| {
        assert seeds'[j] == seeds[j] && order'[j] == order[j];
      }
    }
  }

  /** At the end of a row the state is the state at the start of the next one. */
  lemma {:induction false} SecondNextRow(p: set<Cell>, g1: map<Cell, int>, eq: map<int, int>, rank: map<int, nat>,
                                         g2: map<Cell, int>, nl: map<int, int>, order: seq<int>, seeds: seq<Cell>,
                                         y: int, w: int)
    requires SecondPassState(p, g1, eq, rank, g2, nl, order, seeds, Cell(y, w))
    requires forall c :: c in g1 ==> 0 <= c.col < w
    ensures SecondPassState(p, g1, eq, rank, g2, nl, order, seeds, Cell(y + 1, 0))
  {
    forall c | c in g1
      ensures Before(c, Cell(y, w)) <==> Before(c, Cell(y + 1, 0))
    {
    }
  }

  /** One pixel of the second pass: a labelled pixel's label is chased to its root,
      a root met for the first time gets the next new label, and the pixel takes its
      root's new label. */
  method SecondPassPixel(labels: array2<int>, eq: map<int, int>, ghost rank: map<int, nat>, nl: map<int, int>,
                         newLabel: int, y: int, x: int, ghost p: set<Cell>, ghost g1: map<Cell, int>,
                         ghost g2: map<Cell, int>, ghost order: seq<int>, ghost seeds: seq<Cell>)
    returns (nl': map<int, int>, newLabel': int, ghost g2': map<Cell, int>, ghost order': seq<int>,
             ghost seeds': seq<Cell>)
    requires 0 <= y < labels.Length0 && 0 <= x < labels.Length1
    requires Mirrors(labels, g2) && LabelledExactly(p, g1) && newLabel == |order| + 1
    requires SecondPassState(p, g1, eq, rank, g2, nl, order, seeds, Cell(y, x))
    modifies labels
    ensures Mirrors(labels, g2') && newLabel' == |order'| + 1
    ensures SecondPassState(p, g1, eq, rank, g2', nl', order', seeds', Cell(y, x + 1))
  {
    ghost var cur := Cell(y, x);
    nl', newLabel', g2', order', seeds' := nl, newLabel, g2, order, seeds;
    assert cur in g2 && g2[cur] == g1[cur];
    if labels[y, x] != 0 {
      var r := Resolve(eq, rank, labels[y, x]);
      if r !in nl {
        SecondNew(p, g1, eq, rank, g2, nl, order, seeds, y, x);
        nl' := nl[r := newLabel];
        newLabel' := newLabel + 1;
        order', seeds' := order + [r], seeds + [cur];
      } else {
        SecondSeen(p, g1, eq, rank, g2, nl, order, seeds, y, x);
      }
      g2' := Store(labels, y, x, nl'[r], g2);
    } else {
      SecondSkip(p, g1, eq, rank, g2, nl, order, seeds, y, x);
    }
  }

  /** The inner loop of the second pass, over the pixels of row `y`. */
  method SecondPassRow(labels: array2<int>, eq: map<int, int>, ghost rank: map<int, nat>, nl: map<int, int>,
                       newLabel: int, y: int, ghost p: set<Cell>, ghost g1: map<Cell, int>,
                       ghost g2: map<Cell, int>, ghost order: seq<int>, ghost seeds: seq<Cell>)
    returns (nl': map<int, int>, newLabel': int, ghost g2': map<Cell, int>, ghost order': seq<int>,
             ghost seeds': seq<Cell>)
    requires 0 <= y < labels.Length0
    requires Mirrors(labels, g2) && LabelledExactly(p, g1) && newLabel == |order| + 1
    requires SecondPassState(p, g1, eq, rank, g2, nl, order, seeds, Cell(y, 0))
    modifies labels
    ensures Mirrors(labels, g2') && newLabel' == |order'| + 1
    ensures SecondPassState(p, g1, eq, rank, g2', nl', order', seeds', Cell(y + 1, 0))
  {
    nl', newLabel', g2', order', seeds' := nl, newLabel, g2, order, seeds;
    for x := 0 to labels.Length1
      invariant Mirrors(labels, g2') && newLabel' == |order'| + 1
      invariant SecondPassState(p, g1, eq, rank, g2', nl', order', seeds', Cell(y, x))
    {
      nl', newLabel', g2', order', seeds' := SecondPassPixel(labels, eq, rank, nl', newLabel', y, x, p, g1, g2', order', seeds');
    }
    SecondNextRow(p, g1, eq, rank, g2', nl', order', seeds', y, labels.Length1);
  }

  /** After the last row the renumbered grid is a canonical labelling: background 0,
      every present pixel labelled 1..|seeds|, label j+1 on exactly the pixels
      4-connected to `seeds[j]`, each seed first in its component, seeds in scan order. */
  lemma {:induction false} SecondPassLabels(p: set<Cell>, g1: map<Cell, int>, eq: map<int, int>, rank: map<int, nat>,
                                            g2: map<Cell, int>, nl: map<int, int>, order: seq<int>,
                                            seeds: seq<Cell>, h: int)
    requires FirstPassDone(p, g1, eq, rank)
    requires SecondPassState(p, g1, eq, rank, g2, nl, order, seeds, Cell(h, 0))
    requires forall c :: c in g1 ==> c.row < h
    ensures forall c :: c in g2 && c !in p ==> g2[c] == 0
    ensures forall c :: c in p ==> c in g2 && 1 <= g2[c] <= |seeds|
    ensures forall j :: 0 <= j < |seeds| ==> seeds[j] in p
    ensures forall j, c :: 0 <= j < |seeds| && c in p ==> (g2[c] == j + 1 <==> Connected(p, seeds[j], c))
    ensures SeedsLead(p, seeds)
  {
    SecondPassNumbers(p, g1, eq, rank, g2, nl, order, seeds, h);
    forall j, c | 0 <= j < |seeds| && c in p
      ensures g2[c] == j + 1 <==> Connected(p, seeds[j], c)
    {
      assert Root(eq, rank, g1[seeds[j]]) == Root(eq, rank, g1[c]) <==> Connected(p, seeds[j], c);
      SecondPassLabel(p, g1, eq, rank, g2, nl, order, seeds, j, c);
    }
    forall j, c | 0 <= j < |seeds| && Connected(p, seeds[j], c)
      ensures !Before(c, seeds[j])
    {
      ConnectedEnds(p, seeds[j], c);
      assert Root(eq, rank, g1[seeds[j]]) == Root(eq, rank, g1[c]);
    }
  }

  /** After the last row every present pixel holds the number of its root. */
  lemma {:induction false} SecondPassNumbers(p: set<Cell>, g1: map<Cell, int>, eq: map<int, int>, rank: map<int, nat>,
                                             g2: map<Cell, int>, nl: map<int, int>, order: seq<int>,
                                             seeds: seq<Cell>, h: int)
    requires LabelledExactly(p, g1) && SecondPassState(p, g1, eq, rank, g2, nl, order, seeds, Cell(h, 0))
    requires forall c :: c in g1 ==> c.row < h
    ensures forall c :: c in g2 && c !in p ==> g2[c] == 0
    ensures forall c :: c in p ==> c in g2 && 1 <= g2[c] <= |seeds|
    ensures forall c :: c in p ==> 0 <= g2[c] - 1 < |order| && order[g2[c] - 1] == Root(eq, rank, g1[c])
  {
    forall c | c in p
      ensures c in g2 && 0 <= g2[c] - 1 < |order| && order[g2[c] - 1] == Root(eq, rank, g1[c])
    {
      var r := Root(eq, rank, g1[c]);
      assert r in nl;
      var k :| 0 <= k < |order| && order[k] == r;
      assert nl[order[k]] == k + 1;
    }
  }

  /** A present pixel holds j+1 exactly when its root is that of `seeds[j]`, that is
      when it is 4-connected to `seeds[j]`. */
  lemma {:induction false} SecondPassLabel(p: set<Cell>, g1: map<Cell, int>, eq: map<int, int>, rank: map<int, nat>,
                                           g2: map<Cell, int>, nl: map<int, int>, order: seq<int>,
                                           seeds: seq<Cell>, j: int, c: Cell)
    requires Ranked(eq, rank) && Numbering(nl, order) && 0 <= j < |seeds| == |order|
    requires seeds[j] in g1 && Root(eq, rank, g1[seeds[j]]) == order[j]
    requires c in g1 && c in g2 && 0 <= g2[c] - 1 < |order| && order[g2[c] - 1] == Root(eq, rank, g1[c])
    requires Root(eq, rank, g1[seeds[j]]) == Root(eq, rank, g1[c]) <==> Connected(p, seeds[j], c)
    ensures g2[c] == j + 1 <==> Connected(p, seeds[j], c)
  {
    var k := g2[c] - 1;
    assert nl[order[j]] == j + 1 && nl[order[k]] == k + 1;
  }

  /** The grid facts of `SecondPassLabels`, read on the label array. */
  lemma TwoPassCanonical(image: array2<real>, labels: array2<int>, g2: map<Cell, int>, seeds: seq<Cell>)
    requires labels.Length0 == image.Length0 && labels.Length1 == image.Length1 && Mirrors(labels, g2)
    requires forall c :: c in g2 && c !in Present(image) ==> g2[c] == 0
    requires forall c :: c in Present(image) ==> c in g2 && 1 <= g2[c] <= |seeds|
    requires forall j :: 0 <= j < |seeds| ==> seeds[j] in Present(image)
    requires forall j, c :: 0 <= j < |seeds| && c in Present(image) ==>
               (g2[c] == j + 1 <==> Connected(Present(image), seeds[j], c))
    requires SeedsLead(Present(image), seeds)
    ensures Canonical(image, labels, seeds)
  {
    var p := Present(image);
    forall c | InGrid(image.Length0, image.Length1, c)
      ensures labels[c.row, c.col] == g2[c]
    {
      assert c in g2;
    }
  }

  /** The second pass: every provisional label is replaced by the number of its root,
      roots being numbered 1, 2, ... in the order the scan meets them. Afterwards the
      grid is a canonical labelling of the present pixels `p`. */
  method SecondPass(labels: array2<int>, eq: map<int, int>, ghost rank: map<int, nat>, ghost p: set<Cell>,
                    ghost g1: map<Cell, int>)
    returns (ghost g2: map<Cell, int>, ghost seeds: seq<Cell>)
    requires Mirrors(labels, g1) && FirstPassDone(p, g1, eq, rank)
    modifies labels
    ensures Mirrors(labels, g2)
    ensures forall c :: c in g2 && c !in p ==> g2[c] == 0
    ensures forall c :: c in p ==> c in g2 && 1 <= g2[c] <= |seeds|
    ensures forall j :: 0 <= j < |seeds| ==> seeds[j] in p
    ensures forall j, c :: 0 <= j < |seeds| && c in p ==> (g2[c] == j + 1 <==> Connected(p, seeds[j], c))
    ensures SeedsLead(p, seeds)
  {
    var nl: map<int, int> := map[];
    var newLabel := 1;
    ghost var order := [];
    g2, seeds := g1, [];
    SecondPassInit(p, g1, eq, rank);
    for y := 0 to labels.Length0
      invariant Mirrors(labels, g2) && newLabel == |order| + 1
      invariant SecondPassState(p, g1, eq, rank, g2, nl, order, seeds, Cell(y, 0))
    {
      nl, newLabel, g2, order, seeds := SecondPassRow(labels, eq, rank, nl, newLabel, y, p, g1, g2, order, seeds);
    }
    SecondPassLabels(p, g1, eq, rank, g2, nl, order, seeds, labels.Length0);
  }

  /** `ccLabel2pass`: the first pass, the second pass, then the copy of the label grid
      into the result. The result is the canonical labelling, so it agrees pixel for
      pixel with the flood-fill labeller (`CanonicalUnique`). */
  method LabelTwoPass(image: array2<real>) returns (result: array2<int>, ghost seeds: seq<Cell>)
    ensures fresh(result)
    ensures result.Length0 == image.Length0 && result.Length1 == image.Length1
    ensures forall c :: InGrid(image.Length0, image.Length1, c) ==>
              (result[c.row, c.col] == 0 <==> image[c.row, c.col] == 0.0)
    ensures forall a, b :: a in Present(image) && b in Present(image) ==>
              (result[a.row, a.col] == result[b.row, b.col] <==> Connected(Present(image), a, b))
    ensures Canonical(image, result, seeds)
  {
    var labels := new int[image.Length0, image.Length1]((i, j) => 0);
    var eq, rank, g1 := FirstPass(image, labels);
    ghost var g2;
    g2, seeds := SecondPass(labels, eq, rank, Present(image), g1);
    TwoPassCanonical(image, labels, g2, seeds);
    result := CopyOut(labels);
    CanonicalCopy(image, labels, result, seeds);
    CanonicalPartition(image, result, seeds);
  }

  /** The final copy of the label grid into a new result grid. */
  method CopyOut(labels: array2<int>) returns (result: array2<int>)
    ensures fresh(result)
    ensures result.Length0 == labels.Length0 && result.Length1 == labels.Length1
    ensures forall i, j :: 0 <= i < labels.Length0 && 0 <= j < labels.Length1 ==> result[i, j] == labels[i, j]
  {
    result := new int[labels.Length0, labels.Length1];
    for y := 0 to labels.Length0
      invariant forall i, j :: 0 <= i < y && 0 <= j < labels.Length1 ==> result[i, j] == labels[i, j]
    {
      for x := 0 to labels.Length1
        invariant forall i, j :: 0 <= i < y && 0 <= j < labels.Length1 ==> result[i, j] == labels[i, j]
        invariant forall j :: 0 <= j < x ==> result[y, j] == labels[y, j]
      {
        result[y, x] := labels[y, x];
      }
    }
  }
}
