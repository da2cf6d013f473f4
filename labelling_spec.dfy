/** What a correct labelling of an image is: the contract shared by the flood-fill
    labeller (`ccLabel`) and the two-pass labeller (`ccLabel2pass`). */
module LabellingSpec {
  import opened Connectivity

  /** The present pixels: in-grid cells whose value is non-zero (exact test, no tolerance). */
  ghost function Present(image: array2<real>): (p: set<Cell>)
    reads image
    ensures forall c :: c in p <==> InGrid(image.Length0, image.Length1, c) && image[c.row, c.col] != 0.0
  {
    set c | c in Cells(image.Length0, image.Length1) && image[c.row, c.col] != 0.0
  }

  /** The 4-connected components of the present pixels. */
  ghost function Components(image: array2<real>): set<set<Cell>>
    reads image
  {
    set c | c in Present(image) :: Component(Present(image), c)
  }

  /** `res` labels `image` with dense labels 1..|seeds| in row-major discovery order:
      background is 0 and every present pixel is positive; the pixels labelled j+1 are
      exactly those 4-connected to `seeds[j]`; each seed is the first pixel of its
      component in row-major order, and the seeds come in row-major order. */
  ghost predicate Canonical(image: array2<real>, res: array2<int>, seeds: seq<Cell>)
    reads image, res
  {
    && res.Length0 == image.Length0 && res.Length1 == image.Length1
    && (forall c :: InGrid(image.Length0, image.Length1, c) && image[c.row, c.col] == 0.0 ==>
          res[c.row, c.col] == 0)
    && (forall c :: InGrid(image.Length0, image.Length1, c) && image[c.row, c.col] != 0.0 ==>
          1 <= res[c.row, c.col] <= |seeds|)
    && SeedsLabel(image, res, seeds)
    && SeedsLead(Present(image), seeds)
  }

  /** Each seed is present, and the present pixels labelled j+1 are exactly those
      4-connected to `seeds[j]`. */
  ghost predicate SeedsLabel(image: array2<real>, res: array2<int>, seeds: seq<Cell>)
    reads image, res
    requires res.Length0 == image.Length0 && res.Length1 == image.Length1
  {
    var p := Present(image);
    && (forall j :: 0 <= j < |seeds| ==> seeds[j] in p)
    && (forall j, c :: 0 <= j < |seeds| && c in p ==>
          (res[c.row, c.col] == j + 1 <==> Connected(p, seeds[j], c)))
  }

  /** Each seed is the first pixel of its component in row-major order, and the seeds
      come in row-major order. */
  ghost predicate SeedsLead(p: set<Cell>, seeds: seq<Cell>) {
    && (forall j, c :: 0 <= j < |seeds| && Connected(p, seeds[j], c) ==> !Before(c, seeds[j]))
    && (forall i, j :: 0 <= i < j < |seeds| ==> Before(seeds[i], seeds[j]))
  }

  /** Two present pixels share a label exactly when a 4-connected walk of present
      pixels joins them; background pixels, and only they, are labelled 0. */
  lemma CanonicalPartition(image: array2<real>, res: array2<int>, seeds: seq<Cell>)
    requires Canonical(image, res, seeds)
    ensures forall c :: InGrid(image.Length0, image.Length1, c) ==>
              (res[c.row, c.col] == 0 <==> image[c.row, c.col] == 0.0)
    ensures forall a, b :: a in Present(image) && b in Present(image) ==>
              (res[a.row, a.col] == res[b.row, b.col] <==> Connected(Present(image), a, b))
  {
    var p := Present(image);
    forall a, b | a in p && b in p
      ensures res[a.row, a.col] == res[b.row, b.col] <==> Connected(p, a, b)
    {
      var j := res[a.row, a.col] - 1;
      assert Connected(p, seeds[j], a);
      if res[b.row, b.col] == j + 1 {
        assert Connected(p, seeds[j], b);
        ConnectedSym(p, seeds[j], a);
        ConnectedTrans(p, a, seeds[j], b);
      }
      if Connected(p, a, b) {
        ConnectedTrans(p, seeds[j], a, b);
      }
    }
  }

  /** Label j+1 (0 <= j < |seeds|) is in use and its first pixel in row-major order
      is `seeds[j]`, which comes before the first pixel of label j+2; no other
      positive label occurs. */
  lemma CanonicalDense(image: array2<real>, res: array2<int>, seeds: seq<Cell>)
    requires Canonical(image, res, seeds)
    ensures forall c :: InGrid(image.Length0, image.Length1, c) ==> 0 <= res[c.row, c.col] <= |seeds|
    ensures forall j :: 0 <= j < |seeds| ==>
              InGrid(image.Length0, image.Length1, seeds[j]) && res[seeds[j].row, seeds[j].col] == j + 1
    ensures forall j, c :: 0 <= j < |seeds| && InGrid(image.Length0, image.Length1, c) ==>
              (res[c.row, c.col] == j + 1 ==> !Before(c, seeds[j]))
    ensures forall j :: 0 <= j < |seeds| - 1 ==> Before(seeds[j], seeds[j + 1])
  {
    var p := Present(image);
    forall j | 0 <= j < |seeds|
      ensures res[seeds[j].row, seeds[j].col] == j + 1
    {
      ConnectedRefl(p, seeds[j]);
    }
  }

  /** The pixels carrying label j+1 form exactly the component of `seeds[j]`. */
  lemma CanonicalLabelCells(image: array2<real>, res: array2<int>, seeds: seq<Cell>, j: int)
    requires Canonical(image, res, seeds) && 0 <= j < |seeds|
    ensures (set c | c in Cells(image.Length0, image.Length1) && res[c.row, c.col] == j + 1)
            == Component(Present(image), seeds[j])
  {
    var p := Present(image);
    var s := set c | c in Cells(image.Length0, image.Length1) && res[c.row, c.col] == j + 1;
    forall c
      ensures c in s <==> c in Component(p, seeds[j])
    {
      if Connected(p, seeds[j], c) {
        ConnectedEnds(p, seeds[j], c);
      }
    }
  }

  /** There are exactly |seeds| components: one per label. */
  lemma CanonicalCountsComponents(image: array2<real>, res: array2<int>, seeds: seq<Cell>)
    requires Canonical(image, res, seeds)
    ensures |Components(image)| == |seeds|
  {
    var p := Present(image);
    var comps := seq(|seeds|, j requires 0 <= j < |seeds| => Component(p, seeds[j]));
    forall i, j | 0 <= i < j < |comps|
      ensures comps[i] != comps[j]
    {
      ConnectedRefl(p, seeds[j]);
      assert seeds[j] in comps[j];
      assert res[seeds[j].row, seeds[j].col] == j + 1;
      assert seeds[j] !in comps[i];
    }
    DistinctCard(comps);
    forall x | x in Components(image)
      ensures x in comps
    {
      var c :| c in p && x == Component(p, c);
      var j := res[c.row, c.col] - 1;
      assert Connected(p, seeds[j], c);
      ComponentOfConnected(p, seeds[j], c);
      assert comps[j] == x;
    }
    assert Components(image) == set x | x in comps;
  }

  /** A sequence without repetitions has as many distinct elements as entries. */
  lemma {:induction false} DistinctCard<T>(s: seq<T>)
    requires forall i, j :: 0 <= i < j < |s| ==> s[i] != s[j]
    ensures |set x | x in s| == |s|
  {
    if s != [] {
      var t := s[..|s| - 1];
      DistinctCard(t);
      assert (set x | x in s) == (set x | x in t) + {s[|s| - 1]};
    }
  }

  /** A canonical labelling is determined by the image alone: two of them agree
      pixel for pixel, and so do their seeds. */
  lemma CanonicalUnique(image: array2<real>, res1: array2<int>, seeds1: seq<Cell>,
                        res2: array2<int>, seeds2: seq<Cell>)
    requires Canonical(image, res1, seeds1) && Canonical(image, res2, seeds2)
    ensures seeds1 == seeds2
    ensures forall c :: InGrid(image.Length0, image.Length1, c) ==> res1[c.row, c.col] == res2[c.row, c.col]
  {
    var p := Present(image);
    SeedsAreLeaders(image, res1, seeds1);
    SeedsAreLeaders(image, res2, seeds2);
    SortedUnique(seeds1, seeds2);
    forall c | c in p
      ensures res1[c.row, c.col] == res2[c.row, c.col]
    {
      var j := res1[c.row, c.col] - 1;
      assert Connected(p, seeds1[j], c);
    }
  }

  /** A canonical labelling copied cell by cell is canonical. */
  lemma CanonicalCopy(image: array2<real>, res: array2<int>, copy: array2<int>, seeds: seq<Cell>)
    requires Canonical(image, res, seeds)
    requires copy.Length0 == res.Length0 && copy.Length1 == res.Length1
    requires forall i, j :: 0 <= i < res.Length0 && 0 <= j < res.Length1 ==> copy[i, j] == res[i, j]
    ensures Canonical(image, copy, seeds)
  {
  }

  /** A leader is a present pixel that no pixel of its component precedes. */
  ghost predicate Leader(p: set<Cell>, c: Cell) {
    c in p && forall d :: Connected(p, c, d) ==> !Before(d, c)
  }

  /** The seeds of a canonical labelling are exactly the leaders. */
  lemma SeedsAreLeaders(image: array2<real>, res: array2<int>, seeds: seq<Cell>)
    requires Canonical(image, res, seeds)
    ensures forall c :: c in seeds <==> Leader(Present(image), c)
  {
    var p := Present(image);
    forall c
      ensures c in seeds <==> Leader(p, c)
    {
      if c in seeds {
        var j :| 0 <= j < |seeds| && seeds[j] == c;
        assert Leader(p, c);
      }
      if Leader(p, c) {
        var j := res[c.row, c.col] - 1;
        assert Connected(p, seeds[j], c);
        ConnectedSym(p, seeds[j], c);
        assert !Before(c, seeds[j]) && !Before(seeds[j], c);
        assert c == seeds[j];
      }
    }
  }

  /** Two sequences strictly increasing in row-major order with the same elements are equal. */
  lemma {:induction false} SortedUnique(s: seq<Cell>, t: seq<Cell>)
    requires forall i, j :: 0 <= i < j < |s| ==> Before(s[i], s[j])
    requires forall i, j :: 0 <= i < j < |t| ==> Before(t[i], t[j])
    requires forall c :: c in s <==> c in t
    ensures s == t
  {
    DistinctCard(s);
    DistinctCard(t);
    assert (set x | x in s) == (set x | x in t);
    if s != [] {
      assert s[0] in t && t[0] in s;
      assert s[0] == t[0];
      forall c
        ensures c in s[1..] <==> c in t[1..]
      {
        if c in s[1..] {
          var i :| 1 <= i < |s| && s[i] == c;
          assert Before(s[0], c);
          assert c in t;
        }
        if c in t[1..] {
          var i :| 1 <= i < |t| && t[i] == c;
          assert Before(t[0], c);
          assert c in s;
        }
      }
      SortedUnique(s[1..], t[1..]);
      assert s == [s[0]] + s[1..] && t == [t[0]] + t[1..];
    }
  }
}
