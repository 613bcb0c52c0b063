/** The frame allocator's bitmap: one bit a frame, set when the frame is taken. */
module FrameBitmap {

  type Bitmap = seq<bv8>

  function Mask(k: nat): bv8
    requires k < 8
  {
    (1 as bv8) << k
  }

  predicate TestBit(bm: Bitmap, bit: nat)
    requires bit < 8 * |bm|
  {
    bm[bit / 8] & Mask(bit % 8) != 0
  }

  function SetBit(bm: Bitmap, bit: nat): (r: Bitmap)
    requires bit < 8 * |bm|
    ensures |r| == |bm|
  {
    bm[bit / 8 := bm[bit / 8] | Mask(bit % 8)]
  }

  function UnsetBit(bm: Bitmap, bit: nat): (r: Bitmap)
    requires bit < 8 * |bm|
    ensures |r| == |bm|
  {
    bm[bit / 8 := bm[bit / 8] & !Mask(bit % 8)]
  }

  // ---- one byte ----

  lemma MaskIs(k: nat)
    requires k < 8
    ensures Mask(k) == match k case 0 => 1 case 1 => 2 case 2 => 4 case 3 => 8 case 4 => 16 case 5 => 32 case 6 => 64 case _ => 128
  {
  }

  lemma SetInByte(b: bv8, i: nat, j: nat)
    requires i < 8 && j < 8
    ensures (b | Mask(i)) & Mask(j) != 0 <==> i == j || b & Mask(j) != 0
  {
  }

  lemma UnsetInByte(b: bv8, i: nat, j: nat)
    requires i < 8 && j < 8
    ensures (b & !Mask(i)) & Mask(j) != 0 <==> i != j && b & Mask(j) != 0
  {
    MaskIs(i);
    MaskIs(j);
  }

  // ---- the whole bitmap ----

  lemma SetChangesOne(bm: Bitmap, bit: nat, other: nat)
    requires bit < 8 * |bm| && other < 8 * |bm|
    ensures TestBit(SetBit(bm, bit), other) <==> other == bit || TestBit(bm, other)
  {
    if bit / 8 == other / 8 {
      SetInByte(bm[bit / 8], bit % 8, other % 8);
    }
  }

  lemma UnsetChangesOne(bm: Bitmap, bit: nat, other: nat)
    requires bit < 8 * |bm| && other < 8 * |bm|
    ensures TestBit(UnsetBit(bm, bit), other) <==> other != bit && TestBit(bm, other)
  {
    if bit / 8 == other / 8 {
      UnsetInByte(bm[bit / 8], bit % 8, other % 8);
    }
  }

  /** Taking a free frame and giving it back restores the bitmap bit for bit. */
  lemma UnsetAfterSet(bm: Bitmap, bit: nat)
    requires bit < 8 * |bm| && !TestBit(bm, bit)
    ensures UnsetBit(SetBit(bm, bit), bit) == bm
  {
  }

  // ---- the set of free frames ----

  ghost function FreeFrames(bm: Bitmap): set<nat> {
    set bit: nat | bit < 8 * |bm| && !TestBit(bm, bit)
  }

  lemma SetTakes(bm: Bitmap, bit: nat)
    requires bit < 8 * |bm|
    ensures FreeFrames(SetBit(bm, bit)) == FreeFrames(bm) - {bit}
  {
    forall other: nat | other < 8 * |bm| ensures TestBit(SetBit(bm, bit), other) <==> other == bit || TestBit(bm, other) {
      SetChangesOne(bm, bit, other);
    }
  }

  lemma UnsetReleases(bm: Bitmap, bit: nat)
    requires bit < 8 * |bm|
    ensures FreeFrames(UnsetBit(bm, bit)) == FreeFrames(bm) + {bit}
  {
    forall other: nat | other < 8 * |bm| ensures TestBit(UnsetBit(bm, bit), other) <==> other != bit && TestBit(bm, other) {
      UnsetChangesOne(bm, bit, other);
    }
  }
}
