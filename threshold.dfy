/**
 * Binary thresholding of the enhanced greyscale image: the numpy expression
 * `(img_array > 128) * 255` turned back into an 8-bit image.
 */
module Threshold {

  /** One 8-bit greyscale sample (PIL mode 'L'). */
  type Pixel = p: int | 0 <= p <= 255

  /** A greyscale image as rows of pixels, as `np.array(image)` gives it. */
  type Grid = seq<seq<Pixel>>

  /** The fixed threshold: samples strictly above it become white. */
  const Cutoff: Pixel := 128

  /** Every row has the same width: the shape of a real image. */
  predicate Rectangular(g: Grid)
  {
    forall i, j :: 0 <= i < |g| && 0 <= j < |g| ==> |g[i]| == |g[j]|
  }

  /** Only black (0) and white (255) samples. */
  predicate IsTwoLevel(g: Grid)
  {
    forall i, j :: 0 <= i < |g| && 0 <= j < |g[i]| ==> g[i][j] == 0 || g[i][j] == 255
  }

  /** The thresholded image, sample by sample. */
  function Binarize(g: Grid): (r: Grid)
    ensures |r| == |g|
    ensures forall i :: 0 <= i < |g| ==> |r[i]| == |g[i]|
  {
    seq(|g|, i requires 0 <= i < |g| =>
      seq(|g[i]|, j requires 0 <= j < |g[i]| => if g[i][j] > Cutoff then 255 else 0))
  }

  /**
   * Thresholding keeps the image's shape, and each output sample is white
   * exactly when the input sample exceeds 128 and black otherwise.
   */
  lemma {:induction false} BinarizeSamples(g: Grid)
    ensures Rectangular(g) ==> Rectangular(Binarize(g))
    ensures IsTwoLevel(Binarize(g))
    ensures forall i, j :: 0 <= i < |g| && 0 <= j < |g[i]| ==>
              (Binarize(g)[i][j] == 255 <==> g[i][j] > Cutoff)
              && (Binarize(g)[i][j] == 0 <==> g[i][j] <= Cutoff)
  {
  }

  /** A two-level image is left as it is by thresholding. */
  lemma {:induction false} BinarizeFixesTwoLevel(g: Grid)
    requires IsTwoLevel(g)
    ensures Binarize(g) == g
  {
    var r := Binarize(g);
    forall i | 0 <= i < |g| ensures r[i] == g[i] {
      assert |r[i]| == |g[i]|;
      forall j | 0 <= j < |g[i]| ensures r[i][j] == g[i][j] {
        assert g[i][j] == 0 || g[i][j] == 255;
      }
    }
  }

  /** Thresholding twice is thresholding once. */
  lemma {:induction false} BinarizeIdempotent(g: Grid)
    ensures Binarize(Binarize(g)) == Binarize(g)
  {
    BinarizeSamples(g);
    BinarizeFixesTwoLevel(Binarize(g));
  }
}
