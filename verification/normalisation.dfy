/** Pixel normalisation: `prepare_image` and `prepare_image2` divide every
    8-bit sample by 255 so that the models see values in [0, 1]. */
module Normalisation {

  /** An 8-bit sample as decoded from an image file. */
  type Sample = v: int | 0 <= v <= 255

  /** The divisor applied to every sample. */
  const Scale: real := 255.0

  /** One sample divided by 255. */
  function Normalize(v: Sample): (r: real)
    ensures 0.0 <= r <= 1.0
    ensures r == 0.0 <==> v == 0
    ensures r == 1.0 <==> v == 255
    ensures r * Scale == v as real
  {
    v as real / Scale
  }

  /** Normalisation keeps the order of samples, so distinct samples stay
      distinct and brighter stays brighter. */
  lemma NormalizeStrictlyMonotone(v: Sample, w: Sample)
    requires v < w
    ensures Normalize(v) < Normalize(w)
  {
    assert Normalize(v) * Scale < Normalize(w) * Scale;
  }

  /** The whole image divided by 255, sample by sample. */
  function NormalizeImage(pixels: seq<Sample>): (r: seq<real>)
    ensures |r| == |pixels|
    ensures forall i :: 0 <= i < |r| ==> 0.0 <= r[i] <= 1.0
    ensures forall i :: 0 <= i < |r| ==> r[i] * Scale == pixels[i] as real
  {
    if |pixels| == 0 then [] else [Normalize(pixels[0])] + NormalizeImage(pixels[1..])
  }

  /** An all-black image normalises to all zeros and an all-white one to all
      ones. */
  lemma ConstantImages(pixels: seq<Sample>)
    ensures (forall i :: 0 <= i < |pixels| ==> pixels[i] == 0) ==>
      forall i :: 0 <= i < |pixels| ==> NormalizeImage(pixels)[i] == 0.0
    ensures (forall i :: 0 <= i < |pixels| ==> pixels[i] == 255) ==>
      forall i :: 0 <= i < |pixels| ==> NormalizeImage(pixels)[i] == 1.0
  {
  }
}
