/** The pixel comparison of diff mode: two RGBA rasters of the same size in,
    a red-on-transparent mask of the pixels that differ out. */
module DiffMask {

  newtype byte = n: int | 0 <= n < 256

  /** A channel must differ by strictly more than this to count. */
  const Threshold := 30

  function AbsDiff(a: byte, b: byte): int {
    if a < b then (b - a) as int else (a - b) as int
  }

  /** The pixel whose red byte is at offset `i` differs: the overlay covers
      it (alpha > 0) and some colour channel differs by more than the
      threshold. Pixels the overlay does not cover never differ. */
  predicate Differs(page: seq<byte>, overlay: seq<byte>, i: nat)
    requires i + 3 < |page| && |page| == |overlay|
  {
    && overlay[i + 3] > 0
    && (AbsDiff(page[i], overlay[i]) > Threshold
        || AbsDiff(page[i + 1], overlay[i + 1]) > Threshold
        || AbsDiff(page[i + 2], overlay[i + 2]) > Threshold)
  }

  /** A mask pixel marked as different: opaque-ish red. */
  predicate IsMarked(mask: seq<byte>, i: nat)
    requires i + 3 < |mask|
  {
    mask[i] == 255 && mask[i + 1] == 0 && mask[i + 2] == 0 && mask[i + 3] == 200
  }

  /** A mask pixel left as created: all four bytes zero. */
  predicate IsClear(mask: seq<byte>, i: nat)
    requires i + 3 < |mask|
  {
    mask[i] == 0 && mask[i + 1] == 0 && mask[i + 2] == 0 && mask[i + 3] == 0
  }

  /** A mask whose every pixel is clear is zero throughout. */
  lemma ClearEverywhere(mask: seq<byte>)
    requires |mask| % 4 == 0
    requires forall i :: 0 <= i < |mask| && i % 4 == 0 ==> IsClear(mask, i)
    ensures forall k :: 0 <= k < |mask| ==> mask[k] == 0
  {
    forall k | 0 <= k < |mask|
      ensures mask[k] == 0
    {
      var i := k - k % 4;
      assert i % 4 == 0 && IsClear(mask, i);
    }
  }

  /** The comparison loop: a mask of the same size in which exactly the
      differing pixels are marked red and all others are left at zero.
      Identical rasters, or an overlay that covers nothing, give an
      all-transparent mask. */
  method ComputeDiffMask(page: seq<byte>, overlay: seq<byte>) returns (mask: seq<byte>)
    requires |page| == |overlay| && |page| % 4 == 0
    ensures |mask| == |page|
    ensures forall i :: 0 <= i < |page| && i % 4 == 0 ==>
      (Differs(page, overlay, i) ==> IsMarked(mask, i)) && (!Differs(page, overlay, i) ==> IsClear(mask, i))
    ensures page == overlay ==> forall k :: 0 <= k < |mask| ==> mask[k] == 0
    ensures (forall i :: 0 <= i < |overlay| && i % 4 == 3 ==> overlay[i] == 0) ==>
      forall k :: 0 <= k < |mask| ==> mask[k] == 0
  {
    mask := [];
    var i := 0;
    while i < |page|
      invariant 0 <= i <= |page| && i % 4 == 0 && |mask| == i
      invariant forall j :: 0 <= j < i && j % 4 == 0 ==>
        (Differs(page, overlay, j) ==> IsMarked(mask, j)) && (!Differs(page, overlay, j) ==> IsClear(mask, j))
    {
      var pixel: seq<byte> := [0, 0, 0, 0];
      if overlay[i + 3] > 0 {
        if AbsDiff(page[i], overlay[i]) > Threshold
          || AbsDiff(page[i + 1], overlay[i + 1]) > Threshold
          || AbsDiff(page[i + 2], overlay[i + 2]) > Threshold
        {
          pixel := [255, 0, 0, 200];
        }
      }
      mask := mask + pixel;
      i := i + 4;
    }
    if page == overlay || (forall i :: 0 <= i < |overlay| && i % 4 == 3 ==> overlay[i] == 0) {
      forall j | 0 <= j < |page| && j % 4 == 0
        ensures IsClear(mask, j)
      {
        assert !Differs(page, overlay, j) by {
          if page != overlay {
            assert (j + 3) % 4 == 3;
          }
        }
      }
      ClearEverywhere(mask);
    }
  }
}
