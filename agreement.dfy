/** The two labellers of src/tpConnectedComponents.cpp compute the same image. */
module Agreement {
  import opened Connectivity
  import opened LabellingSpec
  import FloodFillLabelling
  import TwoPassLabelling

  /** `ccLabel(image)` and `ccLabel2pass(image)` agree pixel for pixel: both number
      the 4-connected components 1, 2, ... in the order their first pixels are met
      in a row-major scan, and leave the background 0. */
  method LabelsAgree(image: array2<real>) returns (flood: array2<int>, twoPass: array2<int>)
    ensures flood.Length0 == twoPass.Length0 == image.Length0
    ensures flood.Length1 == twoPass.Length1 == image.Length1
    ensures forall c :: InGrid(image.Length0, image.Length1, c) ==>
              flood[c.row, c.col] == twoPass[c.row, c.col]
  {
    ghost var seeds1, seeds2;
    flood, seeds1 := FloodFillLabelling.Label(image);
    twoPass, seeds2 := TwoPassLabelling.LabelTwoPass(image);
    CanonicalUnique(image, flood, seeds1, twoPass, seeds2);
  }
}
