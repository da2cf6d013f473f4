/** `ccAreaFilter` of src/tpConnectedComponents.cpp: keep the 4-connected components
    of at least `size` pixels, blank the others. */
module AreaFilter {
  import opened Connectivity
  import opened LabellingSpec
  import opened FloodFillLabelling

  /** The count of a label in the `compSizes` map; a label never counted reads 0, as
      a missing key of a `std::map` does. */
  function CountOf(sizes: map<int, int>, k: int): int {
    if k in sizes then sizes[k] else 0
  }

  /** The cells labelled `k` that the row-major scan has passed before `pos`. */
  ghost function Counted(labels: array2<int>, k: int, pos: Cell): set<Cell>
    reads labels
  {
    set c | c in Cells(labels.Length0, labels.Length1) && Before(c, pos) && labels[c.row, c.col] == k
  }

  /** The specification of the filter: `out` has the shape of `image`, keeps the value
      of every present pixel whose 4-connected component has at least `size` pixels,
      and is 0 everywhere else. */
  ghost predicate Filtered(image: array2<real>, out: array2<real>, size: int)
    reads image, out
  {
    && out.Length0 == image.Length0 && out.Length1 == image.Length1
    && forall c :: InGrid(image.Length0, image.Length1, c) ==>
         out[c.row, c.col] ==
           if image[c.row, c.col] != 0.0 && |Component(Present(image), c)| >= size then image[c.row, c.col]
           else 0.0
  }

  /** Passing pixel (y, x) adds it to the cells counted for its own label only. */
  lemma CountedStep(labels: array2<int>, k: int, y: int, x: int)
    requires 0 <= y < labels.Length0 && 0 <= x < labels.Length1
    ensures |Counted(labels, k, Cell(y, x + 1))| ==
              |Counted(labels, k, Cell(y, x))| + if labels[y, x] == k then 1 else 0
  {
    if labels[y, x] == k {
      assert Counted(labels, k, Cell(y, x + 1)) == Counted(labels, k, Cell(y, x)) + {Cell(y, x)};
    } else {
      assert Counted(labels, k, Cell(y, x + 1)) == Counted(labels, k, Cell(y, x));
    }
  }

  /** One row of the counting pass: every positive label has its count incremented. */
  method CountRow(labels: array2<int>, y: int, sizes: map<int, int>) returns (sizes': map<int, int>)
    requires 0 <= y < labels.Length0
    requires forall k :: k > 0 ==> CountOf(sizes, k) == |Counted(labels, k, Cell(y, 0))|
    ensures forall k :: k > 0 ==> CountOf(sizes', k) == |Counted(labels, k, Cell(y + 1, 0))|
  {
    sizes' := sizes;
    var x := 0;
    while x < labels.Length1
      invariant 0 <= x <= labels.Length1
      invariant forall k :: k > 0 ==> CountOf(sizes', k) == |Counted(labels, k, Cell(y, x))|
    {
      var lbl := labels[y, x];
      ghost var prev := sizes';
      if lbl > 0 {
        sizes' := sizes'[lbl := CountOf(sizes', lbl) + 1];
      }
      forall k | k > 0
        ensures CountOf(sizes', k) == |Counted(labels, k, Cell(y, x + 1))|
      {
        CountedStep(labels, k, y, x);
      }
      x := x + 1;
    }
    forall k | k > 0
      ensures Counted(labels, k, Cell(y + 1, 0)) == Counted(labels, k, Cell(y, labels.Length1))
    {
    }
  }

  /** The counting pass of `ccAreaFilter`: the number of pixels carrying each positive label. */
  method CountSizes(labels: array2<int>) returns (sizes: map<int, int>)
    ensures forall k :: k > 0 ==> CountOf(sizes, k) == |Counted(labels, k, Cell(labels.Length0, 0))|
  {
    sizes := map[];
    var y := 0;
    while y < labels.Length0
      invariant 0 <= y <= labels.Length0
      invariant forall k :: k > 0 ==> CountOf(sizes, k) == |Counted(labels, k, Cell(y, 0))|
    {
      sizes := CountRow(labels, y, sizes);
      y := y + 1;
    }
  }

  /** Whether the pixel with label `lbl` survives the filter. */
  predicate Keep(sizes: map<int, int>, lbl: int, size: int) {
    lbl > 0 && CountOf(sizes, lbl) >= size
  }

  /** `out` holds the result of the copying pass for the pixels before `pos` and 0 after. */
  ghost predicate CopiedUpTo(image: array2<real>, labels: array2<int>, sizes: map<int, int>, size: int,
                             out: array2<real>, pos: Cell)
    reads image, labels, out
    requires labels.Length0 == image.Length0 && labels.Length1 == image.Length1
    requires out.Length0 == image.Length0 && out.Length1 == image.Length1
  {
    forall c :: InGrid(image.Length0, image.Length1, c) ==>
      out[c.row, c.col] ==
        if Before(c, pos) && Keep(sizes, labels[c.row, c.col], size) then image[c.row, c.col] else 0.0
  }

  /** One row of the copying pass. */
  method CopyRow(image: array2<real>, labels: array2<int>, sizes: map<int, int>, size: int,
                 out: array2<real>, y: int)
    requires labels.Length0 == image.Length0 && labels.Length1 == image.Length1
    requires out.Length0 == image.Length0 && out.Length1 == image.Length1
    requires 0 <= y < image.Length0
    requires CopiedUpTo(image, labels, sizes, size, out, Cell(y, 0))
    modifies out
    ensures CopiedUpTo(image, labels, sizes, size, out, Cell(y + 1, 0))
  {
    var x := 0;
    while x < image.Length1
      invariant 0 <= x <= image.Length1
      invariant CopiedUpTo(image, labels, sizes, size, out, Cell(y, x))
    {
      var lbl := labels[y, x];
      if lbl > 0 && CountOf(sizes, lbl) >= size {
        out[y, x] := image[y, x];
      }
      x := x + 1;
    }
  }

  /** With a canonical labelling, a pixel's label is kept exactly when the pixel is
      present and its component has at least `size` pixels. */
  lemma KeepIff(image: array2<real>, labels: array2<int>, seeds: seq<Cell>, sizes: map<int, int>,
                size: int, c: Cell)
    requires Canonical(image, labels, seeds) && InGrid(image.Length0, image.Length1, c)
    requires forall k :: k > 0 ==> CountOf(sizes, k) == |Counted(labels, k, Cell(labels.Length0, 0))|
    ensures Keep(sizes, labels[c.row, c.col], size) <==>
              image[c.row, c.col] != 0.0 && |Component(Present(image), c)| >= size
  {
    var p := Present(image);
    if image[c.row, c.col] != 0.0 {
      var j := labels[c.row, c.col] - 1;
      CanonicalLabelCells(image, labels, seeds, j);
      assert Counted(labels, j + 1, Cell(labels.Length0, 0)) ==
             (set d | d in Cells(image.Length0, image.Length1) && labels[d.row, d.col] == j + 1);
      ComponentOfConnected(p, seeds[j], c);
    }
  }

  /** The copying pass of `ccAreaFilter`, into the zero image `out`. */
  method CopyKept(image: array2<real>, labels: array2<int>, sizes: map<int, int>, size: int, out: array2<real>)
    requires labels.Length0 == image.Length0 && labels.Length1 == image.Length1
    requires out.Length0 == image.Length0 && out.Length1 == image.Length1
    requires forall c :: InGrid(out.Length0, out.Length1, c) ==> out[c.row, c.col] == 0.0
    modifies out
    ensures CopiedUpTo(image, labels, sizes, size, out, Cell(image.Length0, 0))
  {
    var y := 0;
    while y < image.Length0
      invariant 0 <= y <= image.Length0
      invariant CopiedUpTo(image, labels, sizes, size, out, Cell(y, 0))
    {
      CopyRow(image, labels, sizes, size, out, y);
      y := y + 1;
    }
  }

  /** `ccAreaFilter`: label the image, count the pixels of each label, then copy the
      pixels whose label has at least `size` of them into a zero image. */
  method Filter(image: array2<real>, size: int) returns (out: array2<real>)
    requires size > 0
    ensures fresh(out)
    ensures Filtered(image, out, size)
  {
    out := new real[image.Length0, image.Length1]((r, c) => 0.0);
    var labels, seeds := Label(image);
    var sizes := CountSizes(labels);
    CopyKept(image, labels, sizes, size, out);
    CopyComplete(image, labels, seeds, sizes, size, out);
  }

  /** After both passes over a canonical labelling, `out` is the filtered image. */
  lemma CopyComplete(image: array2<real>, labels: array2<int>, seeds: seq<Cell>, sizes: map<int, int>,
                     size: int, out: array2<real>)
    requires Canonical(image, labels, seeds)
    requires forall k :: k > 0 ==> CountOf(sizes, k) == |Counted(labels, k, Cell(labels.Length0, 0))|
    requires out.Length0 == image.Length0 && out.Length1 == image.Length1
    requires CopiedUpTo(image, labels, sizes, size, out, Cell(image.Length0, 0))
    ensures Filtered(image, out, size)
  {
    forall c | InGrid(image.Length0, image.Length1, c)
      ensures out[c.row, c.col] ==
                if image[c.row, c.col] != 0.0 && |Component(Present(image), c)| >= size then image[c.row, c.col]
                else 0.0
    {
      KeepIff(image, labels, seeds, sizes, size, c);
    }
  }

  /** Filtering keeps components whole: a pixel left in the output has the same
      component there as in the input, and that component has at least `size` pixels. */
  lemma KeptComponent(image: array2<real>, out: array2<real>, size: int, c: Cell)
    requires Filtered(image, out, size) && c in Present(out)
    ensures Component(Present(out), c) == Component(Present(image), c)
    ensures |Component(Present(out), c)| >= size
  {
    var p := Present(image);
    var q := Present(out);
    assert q <= p;
    forall d | d in Component(p, c)
      ensures d in q
    {
      ConnectedEnds(p, c, d);
      ComponentOfConnected(p, c, d);
    }
    forall d
      ensures d in Component(q, c) <==> d in Component(p, c)
    {
      ConnectedWithin(p, q, c, d);
    }
  }

  /** With `size` 1 the filter returns the image unchanged: every present pixel's
      component holds at least the pixel itself. */
  lemma FilterSizeOne(image: array2<real>, out: array2<real>)
    requires Filtered(image, out, 1)
    ensures forall c :: InGrid(image.Length0, image.Length1, c) ==> out[c.row, c.col] == image[c.row, c.col]
  {
    var p := Present(image);
    forall c | c in p
      ensures |Component(p, c)| >= 1
    {
      ConnectedRefl(p, c);
      assert c in Component(p, c);
    }
  }

  function Max(a: int, b: int): int {
    if a < b then b else a
  }

  /** Filtering by `s1` and then by `s2` is filtering by the larger of the two. */
  lemma FilterCompose(image: array2<real>, out1: array2<real>, out2: array2<real>, s1: int, s2: int)
    requires Filtered(image, out1, s1) && Filtered(out1, out2, s2)
    ensures Filtered(image, out2, Max(s1, s2))
  {
    forall c | InGrid(image.Length0, image.Length1, c) && out1[c.row, c.col] != 0.0
      ensures |Component(Present(out1), c)| == |Component(Present(image), c)|
    {
      KeptComponent(image, out1, s1, c);
    }
  }

  /** The filter is idempotent: filtering its output again by the same size changes nothing. */
  lemma FilterIdempotent(image: array2<real>, out1: array2<real>, out2: array2<real>, size: int)
    requires Filtered(image, out1, size) && Filtered(out1, out2, size)
    ensures forall c :: InGrid(image.Length0, image.Length1, c) ==> out2[c.row, c.col] == out1[c.row, c.col]
  {
    FilterCompose(image, out1, out2, size, size);
  }
}
