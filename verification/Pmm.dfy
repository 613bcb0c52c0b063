/** sys/src/mm/pmm.c: a bitmap of frames, carved out of the memory it describes, with first-fit allocation. */
module Pmm {
  import opened Bits
  import opened FrameBitmap
  import opened MemoryMap

  /** What is usable and large enough to have its frames released at initialisation. */
  ghost predicate Released(e: Entry, size: nat) {
    e.Usable() && e.length >= size
  }

  predicate InFrames(e: Entry, frame: nat) {
    e.base <= 0x1000 * frame < e.End()
  }

  /** The frame lies in a released entry among the first n of the map. */
  ghost predicate ReleasedFrame(es: seq<Entry>, n: nat, size: nat, frame: nat)
    requires n <= |es|
  {
    exists i :: 0 <= i < n && Released(es[i], size) && InFrames(es[i], frame)
  }

  /** The clear bits are those of the frames of the released entries among the first n. */
  ghost predicate Reflects(bm: Bitmap, es: seq<Entry>, n: nat, size: nat)
    requires n <= |es|
  {
    forall bit: nat :: bit < 8 * |bm| ==> (!TestBit(bm, bit) <==> ReleasedFrame(es, n, size, bit))
  }

  /** As Reflects, with the entry after those n released up to offset `upTo`. */
  ghost predicate ReflectsPart(bm: Bitmap, es: seq<Entry>, n: nat, size: nat, upTo: nat)
    requires n < |es|
  {
    forall bit: nat :: bit < 8 * |bm| ==>
      (!TestBit(bm, bit) <==> ReleasedFrame(es, n, size, bit) || es[n].base <= 0x1000 * bit < es[n].base + upTo)
  }

  lemma ReleaseOne(bm: Bitmap, es: seq<Entry>, n: nat, size: nat, upTo: nat, bit: nat)
    requires n < |es| && bit < 8 * |bm| && ReflectsPart(bm, es, n, size, upTo)
    requires es[n].base + upTo == 0x1000 * bit
    ensures ReflectsPart(UnsetBit(bm, bit), es, n, size, upTo + 0x1000)
  {
    forall b: nat | b < 8 * |bm| ensures TestBit(UnsetBit(bm, bit), b) <==> b != bit && TestBit(bm, b) {
      UnsetChangesOne(bm, bit, b);
    }
  }

  /** The frame at a whole number of pages into an entry. */
  lemma FrameAt(base: nat, j: nat, length: nat, bits: nat)
    requires base % 0x1000 == 0 && j % 0x1000 == 0 && length % 0x1000 == 0 && j < length && base + length <= 0x1000 * bits
    ensures base + j == 0x1000 * ((base + j) / 0x1000) && (base + j) / 0x1000 < bits
    ensures j + 0x1000 <= length && (j + 0x1000) % 0x1000 == 0
  {
  }

  lemma ReleaseFirst(bm: Bitmap, es: seq<Entry>, n: nat, size: nat)
    requires n < |es| && Reflects(bm, es, n, size)
    ensures ReflectsPart(bm, es, n, size, 0)
  {
  }

  lemma ReleaseLast(bm: Bitmap, es: seq<Entry>, n: nat, size: nat)
    requires n < |es| && Released(es[n], size) && ReflectsPart(bm, es, n, size, es[n].length)
    ensures Reflects(bm, es, n + 1, size)
  {
    forall bit: nat | bit < 8 * |bm| ensures !TestBit(bm, bit) <==> ReleasedFrame(es, n + 1, size, bit) {
      assert ReleasedFrame(es, n + 1, size, bit) <==> ReleasedFrame(es, n, size, bit) || InFrames(es[n], bit);
    }
  }

  /** Every usable entry ends at or below the end of the highest. */
  lemma HighestEndsLast(es: seq<Entry>, k: nat, i: nat)
    requires Regular(es) && Highest(es, k) && i < |es| && es[i].Usable()
    ensures es[i].End() <= es[k].End() && es[i].End() % 0x1000 == 0
  {
  }

  /** Entry i is the first that can hold a bitmap of the size. */
  ghost predicate CarvedAt(es: seq<Entry>, i: nat, size: nat) {
    i < |es| && Released(es[i], size) && forall j :: 0 <= j < i ==> !Released(es[j], size)
  }

  /** Each frame of an entry that is released has a bit. */
  ghost predicate Covered(es: seq<Entry>, size: nat) {
    forall i :: 0 <= i < |es| && Released(es[i], size) ==> es[i].End() <= 0x1000 * (8 * size)
  }

  /** The bitmap is large enough: once its own storage is cut off, each frame that initialisation releases has a bit. This
      is what the source takes for granted; SizeFits says when its size guarantees it. */
  ghost predicate Fits(es: seq<Entry>)
    requires SomeUsable(es)
  {
    var size := SizeFor(HighestAddress(es));
    forall i: nat :: CarvedAt(es, i, size) ==> Covered(Carve(es, i, size), size)
  }

  lemma PagesBelow(end: nat, highest: nat, bits: nat)
    requires end % 0x1000 == 0 && end <= highest && highest / 0x1000 <= bits
    ensures end <= 0x1000 * bits
  {
  }

  lemma CoveredBy(es: seq<Entry>, k: nat, size: nat)
    requires Regular(es) && Highest(es, k) && es[k].End() / 0x1000 <= 8 * size
    ensures Covered(es, size)
  {
    forall i | 0 <= i < |es| && Released(es[i], size) ensures es[i].End() <= 0x1000 * (8 * size) {
      HighestEndsLast(es, k, i);
      PagesBelow(es[i].End(), es[k].End(), 8 * size);
    }
  }

  lemma SizeFits(es: seq<Entry>)
    requires Regular(es) && SomeUsable(es) && !(1 <= HighestAddress(es) / 0x1000 % 32768 <= 7)
    ensures Fits(es)
  {
    HighestExists(es);
    var k: nat :| Highest(es, k);
    HighestIs(es, k);
    BitmapCovers(es[k].End());
    var size := SizeFor(HighestAddress(es));
    CoveredBy(es, k, size);
    forall i: nat | CarvedAt(es, i, size) ensures Covered(Carve(es, i, size), size) {
      CarveCovered(es, i, size);
    }
  }

  lemma CarveCovered(es: seq<Entry>, i: nat, size: nat)
    requires Covered(es, size) && i < |es| && Released(es[i], size)
    ensures Covered(Carve(es, i, size), size)
  {
  }

  lemma WholePages(base: nat, length: nat, size: nat)
    requires base % 0x1000 == 0 && length % 0x1000 == 0 && size % 0x1000 == 0 && size <= length
    ensures (base + size) % 0x1000 == 0 && (length - size) % 0x1000 == 0
  {
  }

  /** Entries of whole pages. */
  ghost predicate Paged(es: seq<Entry>) {
    forall i :: 0 <= i < |es| && es[i].Usable() ==> es[i].base % 0x1000 == 0 && es[i].length % 0x1000 == 0
  }

  lemma CarvePaged(es: seq<Entry>, i: nat, size: nat)
    requires Regular(es) && size % 0x1000 == 0 && i < |es| && Released(es[i], size)
    ensures Paged(Carve(es, i, size))
  {
    var cs := Carve(es, i, size);
    forall j | 0 <= j < |cs| && cs[j].Usable()
      ensures cs[j].base % 0x1000 == 0 && cs[j].length % 0x1000 == 0
    {
      if j == i {
        WholePages(es[i].base, es[i].length, size);
      }
    }
  }

  // ---- initialisation ----

  lemma PageMultiple(q: nat)
    ensures q * 0x1000 % 0x1000 == 0
  {
  }

  lemma SizeIsPaged(es: seq<Entry>)
    requires SomeUsable(es) && Regular(es)
    ensures SizeFor(HighestAddress(es)) % 0x1000 == 0
  {
    HighestExists(es);
    var k: nat :| Highest(es, k);
    HighestIs(es, k);
    AlignUpPage(HighestAddress(es) / 0x1000 / 8);
    PageMultiple((HighestAddress(es) / 0x1000 / 8 + 0x1000 - 1) / 0x1000);
  }

  lemma SkipEntry(bm: Bitmap, es: seq<Entry>, n: nat, size: nat)
    requires n < |es| && !Released(es[n], size) && Reflects(bm, es, n, size)
    ensures Reflects(bm, es, n + 1, size)
  {
  }

  lemma NoneReleased(bm: Bitmap, es: seq<Entry>, size: nat)
    requires forall i :: 0 <= i < |bm| ==> bm[i] == 0xFF
    ensures Reflects(bm, es, 0, size)
  {
  }

  // ---- what initialisation releases, entry by entry ----

  /** The frame lies in a usable entry, less the bytes cut from its front, that is then still at least `size` long. */
  predicate BootFrame(e: Entry, cut: nat, size: nat, frame: nat) {
    e.kind == 0 && e.length >= cut + size && e.base + cut <= 0x1000 * frame < e.base + e.length
  }

  /** Entry c is the first usable one that is at least `size` long. */
  predicate FirstToHold(es: seq<Entry>, c: nat, size: nat) {
    && c < |es| && es[c].kind == 0 && es[c].length >= size
    && forall j :: 0 <= j < c ==> !(es[j].kind == 0 && es[j].length >= size)
  }

  lemma CarvedFirst(es: seq<Entry>, c: nat, size: nat)
    requires CarvedAt(es, c, size)
    ensures FirstToHold(es, c, size)
  {
  }

  /** The frames that are free once those of each entry that is long enough have been released. */
  lemma ReleasesExactly(es: seq<Entry>, size: nat, bm: Bitmap, frame: nat)
    requires |bm| == size && Covered(es, size) && Reflects(bm, es, |es|, size)
    ensures frame in FreeFrames(bm) <==> exists i :: 0 <= i < |es| && BootFrame(es[i], 0, size, frame)
  {
    if frame in FreeFrames(bm) {
      assert ReleasedFrame(es, |es|, size, frame);
      var i :| 0 <= i < |es| && Released(es[i], size) && InFrames(es[i], frame);
      assert BootFrame(es[i], 0, size, frame);
    }
    if i :| 0 <= i < |es| && BootFrame(es[i], 0, size, frame) {
      assert Released(es[i], size) && InFrames(es[i], frame) && es[i].End() <= 0x1000 * (8 * size);
      assert ReleasedFrame(es, |es|, size, frame);
    }
  }

  /** The frames that are free after initialisation, in terms of the map as it was: those of every usable entry that is long
      enough, less the bitmap's own storage in the first of these. */
  ghost predicate BootsFrom(es: seq<Entry>, c: nat, size: nat, bm: Bitmap) {
    && FirstToHold(es, c, size)
    && forall frame :: frame in FreeFrames(bm) <==>
         exists i :: 0 <= i < |es| && BootFrame(es[i], if i == c then size else 0, size, frame)
  }

  lemma CutFrames(es: seq<Entry>, c: nat, size: nat, frame: nat)
    requires c < |es| && size <= es[c].length
    ensures var cs := Carve(es, c, size);
            (exists i :: 0 <= i < |es| && BootFrame(cs[i], 0, size, frame)) <==>
            exists i :: 0 <= i < |es| && BootFrame(es[i], if i == c then size else 0, size, frame)
  {
    var cs := Carve(es, c, size);
    if i :| 0 <= i < |es| && BootFrame(cs[i], 0, size, frame) {
      assert BootFrame(es[i], if i == c then size else 0, size, frame);
    }
    if i :| 0 <= i < |es| && BootFrame(es[i], if i == c then size else 0, size, frame) {
      assert BootFrame(cs[i], 0, size, frame);
    }
  }

  lemma BootsExactly(es: seq<Entry>, c: nat, size: nat, bm: Bitmap)
    requires CarvedAt(es, c, size) && |bm| == size && Covered(Carve(es, c, size), size)
    requires Reflects(bm, Carve(es, c, size), |es|, size)
    ensures BootsFrom(es, c, size, bm)
  {
    hide Reflects, Covered;
    CarvedFirst(es, c, size);
    var cs := Carve(es, c, size);
    forall frame ensures frame in FreeFrames(bm) <==>
                         exists i :: 0 <= i < |es| && BootFrame(es[i], if i == c then size else 0, size, frame)
    {
      ReleasesExactly(cs, size, bm, frame);
      CutFrames(es, c, size, frame);
    }
  }

  // ---- the bitmap never hands out its own storage ----

  /** A frame of a whole-page entry does not reach into storage that ends before the entry or starts after it. */
  lemma FrameApart(e: Entry, c: Entry, size: nat, frame: nat)
    requires e.End() % 0x1000 == 0 && InFrames(e, frame)
    requires e.End() <= c.base || c.base + size <= e.base
    ensures 0x1000 * frame + 0x1000 <= c.base || c.base + size <= 0x1000 * frame
  {
  }

  lemma EntriesApart(es: seq<Entry>, carved: nat, size: nat, i: nat)
    requires Regular(es) && carved < |es| && Released(es[carved], size) && size % 0x1000 == 0
    requires i < |es| && es[i].Usable()
    ensures var e, c := Carve(es, carved, size)[i], es[carved];
            e.End() % 0x1000 == 0 && (e.End() <= c.base || c.base + size <= e.base)
  {
    if i == carved {
      WholePages(es[i].base, es[i].length, size);
    }
  }

  /** No frame that overlaps the bitmap's storage is clear after initialisation. */
  lemma BitmapKeepsItself(es: seq<Entry>, carved: nat, size: nat, bm: Bitmap, frame: nat)
    requires Regular(es) && CarvedAt(es, carved, size) && size % 0x1000 == 0
    requires |bm| == size && Reflects(bm, Carve(es, carved, size), |es|, size)
    requires frame < 8 * |bm| && !TestBit(bm, frame)
    ensures 0x1000 * frame + 0x1000 <= es[carved].base || es[carved].base + size <= 0x1000 * frame
  {
    var cs := Carve(es, carved, size);
    var i :| 0 <= i < |es| && Released(cs[i], size) && InFrames(cs[i], frame);
    EntriesApart(es, carved, size, i);
    FrameApart(cs[i], es[carved], size, frame);
  }

  lemma RoundMonotone(a: nat, b: nat)
    requires a <= b
    ensures (a + 0x1000 - 1) / 0x1000 * 0x1000 <= (b + 0x1000 - 1) / 0x1000 * 0x1000
  {
  }

  lemma SizeMonotone(a: nat, b: nat)
    requires a <= b < U64
    ensures SizeFor(a) <= SizeFor(b)
  {
    AlignUpPage(a / 0x1000 / 8);
    AlignUpPage(b / 0x1000 / 8);
    assert a / 0x1000 / 8 <= b / 0x1000 / 8;
    RoundMonotone(a / 0x1000 / 8, b / 0x1000 / 8);
  }

  lemma SizeShrinks(address: nat, base: nat, end: nat)
    requires base <= end < U64 && (address == base || address == end)
    ensures SizeFor(address) <= SizeFor(end)
  {
    SizeMonotone(address, end);
  }

  /** The size that every allocation step recomputes from the carved map is the bitmap's own, or smaller when the
      carve emptied an entry that ended where the highest begins and stood before it. */
  lemma CarveKeepsSize(es: seq<Entry>, i: nat, k: nat)
    requires Regular(es) && Highest(es, k)
    requires i < |es| && Released(es[i], SizeFor(es[k].End()))
    ensures var size, cs := SizeFor(es[k].End()), Carve(es, i, SizeFor(es[k].End()));
            && SomeUsable(cs) && SizeFor(HighestAddress(cs)) <= size
            && (!(es[i].length == size && i < k && es[i].End() == es[k].base) ==> SizeFor(HighestAddress(cs)) == size)
  {
    var end := es[k].End();
    var size, cs := SizeFor(end), Carve(es, i, SizeFor(end));
    if size == 0 {
      assert cs == es;
      HighestIs(es, k);
    } else {
      CarveKeepsHighest(es, i, size, k);
      SizeShrinks(HighestAddress(cs), es[k].base, end);
    }
  }

  /** The one case in which the search for a free frame does not cover all of the bitmap. */
  ghost predicate EmptiesLast(es: seq<Entry>, c: nat, size: nat) {
    c < |es| && es[c].length == size && exists k: nat :: c < k && Highest(es, k) && es[c].End() == es[k].base
  }

  // ---- what one call does to the bitmap ----

  /** The lowest frame below the limit that is free. */
  ghost predicate LowestFree(bm: Bitmap, limit: nat, bit: nat)
    requires limit <= 8 * |bm|
  {
    bit < limit && !TestBit(bm, bit) && forall b: nat :: b < bit ==> TestBit(bm, b)
  }

  /** First fit: the address of the lowest free frame and the bitmap with it set, or 0 and the bitmap as it was. */
  ghost function Taken(bm: Bitmap, limit: nat): (nat, Bitmap)
    requires limit <= 8 * |bm|
  {
    if exists bit: nat :: LowestFree(bm, limit, bit) then
      var bit: nat :| LowestFree(bm, limit, bit);
      (0x1000 * bit, SetBit(bm, bit))
    else
      (0, bm)
  }

  lemma TakenIs(bm: Bitmap, limit: nat, bit: nat)
    requires limit <= 8 * |bm| && LowestFree(bm, limit, bit)
    ensures Taken(bm, limit) == (0x1000 * bit, SetBit(bm, bit))
  {
  }

  lemma {:induction false} NoneFreeBelow(bm: Bitmap, limit: nat, bit: nat)
    requires bit < limit <= 8 * |bm| && !exists b: nat :: LowestFree(bm, limit, b)
    ensures TestBit(bm, bit)
  {
    forall b: nat | b < bit ensures TestBit(bm, b) {
      NoneFreeBelow(bm, limit, b);
    }
    assert !LowestFree(bm, limit, bit);
  }

  /** The answer to an allocation out of a set of free frames: 0 exactly when none below the limit is free or the lowest is
      frame 0, and otherwise the address of the lowest. */
  ghost predicate AnswersLowest(free: set<nat>, limit: nat, ptr: nat) {
    && (ptr == 0 <==> 0 in free || forall frame :: frame in free ==> frame >= limit)
    && (ptr != 0 ==> exists frame :: frame in free && ptr == 0x1000 * frame
                                     && forall other :: other in free ==> frame <= other)
  }

  lemma TakenExactly(bm: Bitmap, limit: nat)
    requires limit <= 8 * |bm|
    ensures AnswersLowest(FreeFrames(bm), limit, Taken(bm, limit).0)
  {
    if exists bit: nat :: LowestFree(bm, limit, bit) {
      var bit: nat :| LowestFree(bm, limit, bit);
      TakenIs(bm, limit, bit);
      assert bit in FreeFrames(bm);
    } else {
      forall bit: nat | bit < limit ensures TestBit(bm, bit) {
        NoneFreeBelow(bm, limit, bit);
      }
    }
  }

  /** The bitmap after n frames from `frame` on are given back. */
  ghost function Given(bm: Bitmap, frame: nat, n: nat): (r: Bitmap)
    requires frame + n <= 8 * |bm|
    ensures |r| == |bm|
  {
    if n == 0 then bm else UnsetBit(Given(bm, frame, n - 1), frame + n - 1)
  }

  /** Those frames are then free, and no others that were not. */
  lemma {:induction false} GivenFrees(bm: Bitmap, frame: nat, n: nat)
    requires frame + n <= 8 * |bm|
    ensures forall bit :: bit in FreeFrames(Given(bm, frame, n)) <==> bit in FreeFrames(bm) || frame <= bit < frame + n
  {
    hide UnsetBit, FreeFrames;
    if n > 0 {
      GivenFrees(bm, frame, n - 1);
      UnsetReleases(Given(bm, frame, n - 1), frame + n - 1);
    }
  }

  lemma FrameAfter(ptr: nat, i: nat)
    ensures (ptr + 0x1000 * i) / 0x1000 == ptr / 0x1000 + i
  {
  }

  // ---- the code ----

  class FrameAllocator {
    var entries: array<Entry>
    var bitmap: array?<bv8>
    var bitmapBase: nat  // where the bitmap's storage lies in physical memory

    constructor (entries: array<Entry>)
      ensures this.entries == entries && bitmap == null
    {
      this.entries, bitmap, bitmapBase := entries, null, 0;
    }

    method BitmapSetBit(bit: nat)
      requires bitmap != null && bit < 8 * bitmap.Length
      modifies bitmap
      ensures bitmap[..] == SetBit(old(bitmap[..]), bit)
    {
      bitmap[bit / 8] := bitmap[bit / 8] | Mask(bit % 8);
    }

    method BitmapUnsetBit(bit: nat)
      requires bitmap != null && bit < 8 * bitmap.Length
      modifies bitmap
      ensures bitmap[..] == UnsetBit(old(bitmap[..]), bit)
    {
      bitmap[bit / 8] := bitmap[bit / 8] & !Mask(bit % 8);
    }

    method BitmapTest(bit: nat) returns (taken: bool)
      requires bitmap != null && bit < 8 * bitmap.Length
      ensures taken <==> TestBit(bitmap[..], bit)
    {
      taken := bitmap[bit / 8] & Mask(bit % 8) != 0;
    }

    method FindHighestMemChunk() returns (k: int)
      ensures k == -1 <==> !SomeUsable(entries[..])
      ensures k != -1 ==> 0 <= k && Highest(entries[..], k)
    {
      k := -1;
      for i := 0 to entries.Length
        invariant -1 <= k < i
        invariant k == -1 <==> forall j :: 0 <= j < i ==> !entries[j].Usable()
        invariant k != -1 ==> Highest(entries[..i], k)
      {
        if !entries[i].Usable() {
          continue;
        }
        if k == -1 {
          k := i;
        } else if entries[i].base > entries[k].base {
          k := i;
        }
      }
      assert entries[..entries.Length] == entries[..];
    }

    method GetBitmapSize() returns (size: nat)
      requires SomeUsable(entries[..])
      ensures size == SizeFor(HighestAddress(entries[..]))
    {
      var k := FindHighestMemChunk();
      HighestIs(entries[..], k);
      var highestAddress := entries[k].base + entries[k].length;
      size := AlignUp(highestAddress / 0x1000 / 8, 0x1000);
    }

    /** The inner loop of init_bitmap: release the frames of entry n. */
    method ReleaseEntry(n: nat, ghost size: nat)
      requires bitmap != null && bitmap as object != entries && n < entries.Length && Released(entries[n], size)
      requires Paged(entries[..]) && entries[n].End() <= 0x1000 * (8 * bitmap.Length)
      requires Reflects(bitmap[..], entries[..], n, size)
      modifies bitmap
      ensures Reflects(bitmap[..], entries[..], n + 1, size)
    {
      hide Reflects, ReflectsPart;
      var entry := entries[n];
      ghost var es := entries[..];
      ReleaseFirst(bitmap[..], es, n, size);
      var j := 0;
      while j < entry.length
        invariant 0 <= j <= entry.length && j % 0x1000 == 0 && entries[..] == es
        invariant ReflectsPart(bitmap[..], es, n, size, j)
      {
        FrameAt(entry.base, j, entry.length, 8 * bitmap.Length);
        ReleaseOne(bitmap[..], es, n, size, j, (entry.base + j) / 0x1000);
        BitmapUnsetBit((entry.base + j) / 0x1000);
        j := j + 0x1000;
      }
      ReleaseLast(bitmap[..], es, n, size);
    }

    /** The first loop of init_bitmap: take the storage from the front of the first usable entry that can hold it. */
    method CarveBitmap(size: nat) returns (ghost carved: nat)
      requires bitmap == null
      modifies this`bitmap, this`bitmapBase, entries
      ensures var es := old(entries[..]);
              if bitmap == null then
                entries[..] == es && forall i :: 0 <= i < |es| ==> !Released(es[i], size)
              else
                && fresh(bitmap) && bitmap[..] == seq(size, _ => 0xFF)
                && CarvedAt(es, carved, size) && bitmapBase == es[carved].base && entries[..] == Carve(es, carved, size)
      ensures bitmap != null ==> FirstToHold(old(entries[..]), carved, size)
    {
      carved := 0;
      ghost var es := entries[..];
      for i := 0 to entries.Length
        invariant bitmap == null && entries[..] == es
        invariant forall j :: 0 <= j < i ==> !Released(es[j], size)
      {
        var entry := entries[i];
        if entry.Usable() && entry.length >= size {
          bitmap := new bv8[size](_ => 0xFF);
          bitmapBase := entry.base;
          entries[i] := entry.(length := entry.length - size, base := entry.base + size);
          carved := i;
          assert entries[..] == Carve(es, carved, size);
          CarvedFirst(es, carved, size);
          break;
        }
      }
    }

    /** The second loop: clear the bits of the frames of every usable entry that is still as large as the bitmap. */
    method ReleaseAll(size: nat)
      requires bitmap != null ==>
                 && bitmap as object != entries && Paged(entries[..]) && Covered(entries[..], size)
                 && bitmap[..] == seq(size, _ => 0xFF)
      requires bitmap == null ==> forall i :: 0 <= i < entries.Length ==> !Released(entries[i], size)
      modifies bitmap
      ensures bitmap != null ==> Reflects(bitmap[..], entries[..], entries.Length, size)
      ensures bitmap != null ==> forall frame :: frame in FreeFrames(bitmap[..]) <==>
                exists i :: 0 <= i < |entries[..]| && BootFrame(entries[..][i], 0, size, frame)
    {
      ghost var es := entries[..];
      if bitmap != null {
        NoneReleased(bitmap[..], es, size);
      }
      for i := 0 to entries.Length
        invariant entries[..] == es
        invariant bitmap != null ==> bitmap.Length == size && Reflects(bitmap[..], es, i, size)
      {
        if entries[i].Usable() && entries[i].length >= size {
          ReleaseEntry(i, size);
        } else if bitmap != null {
          SkipEntry(bitmap[..], es, i, size);
        }
      }
      forall frame | bitmap != null
        ensures frame in FreeFrames(bitmap[..]) <==> exists i :: 0 <= i < |es| && BootFrame(es[i], 0, size, frame)
      {
        ReleasesExactly(es, size, bitmap[..], frame);
      }
    }

    /** After initialisation a bit is clear exactly when its frame lies in a usable entry, as shrunk by the carve, at
        least as long as the bitmap; with no entry to hold the bitmap there is none. */
    method InitBitmap() returns (ghost carved: nat)
      requires SomeUsable(entries[..]) && Regular(entries[..]) && Fits(entries[..]) && bitmap == null
      modifies this`bitmap, this`bitmapBase, entries
      ensures var size, es := SizeFor(HighestAddress(old(entries[..]))), old(entries[..]);
              if bitmap == null then
                entries[..] == es && forall i :: 0 <= i < |es| ==> !Released(es[i], size)
              else
                && fresh(bitmap) && bitmap.Length == size
                && CarvedAt(es, carved, size) && bitmapBase == es[carved].base && entries[..] == Carve(es, carved, size)
                && Reflects(bitmap[..], entries[..], entries.Length, size)
      ensures bitmap != null ==> BootsFrom(old(entries[..]), carved, bitmap.Length, bitmap[..])
    {
      ghost var es := entries[..];
      var size := GetBitmapSize();
      SizeIsPaged(es);
      carved := CarveBitmap(size);
      if bitmap != null {
        CarvePaged(es, carved, size);
      }
      ReleaseAll(size);
      if bitmap != null {
        BootsExactly(es, carved, size, bitmap[..]);
      }
    }

    /** Bring the allocator up; unless no entry can hold the bitmap it is then ready, and searches all of the bitmap or,
        in the one case the carve shrinks the map's end, less. */
    method PmmInit() returns (ghost carved: nat)
      requires SomeUsable(entries[..]) && Regular(entries[..]) && Fits(entries[..]) && bitmap == null
      modifies this`bitmap, this`bitmapBase, entries
      ensures var es, size := old(entries[..]), SizeFor(HighestAddress(old(entries[..])));
              if bitmap == null then
                entries[..] == es && forall i :: 0 <= i < |es| ==> !Released(es[i], size)
              else
                && fresh(bitmap) && bitmap.Length == size && size % 0x1000 == 0 && Ready()
                && CarvedAt(es, carved, size) && bitmapBase == es[carved].base && entries[..] == Carve(es, carved, size)
                && Reflects(bitmap[..], entries[..], entries.Length, size)
      ensures bitmap != null ==> BootsFrom(old(entries[..]), carved, bitmap.Length, bitmap[..])
      ensures bitmap != null && !EmptiesLast(old(entries[..]), carved, bitmap.Length) ==>
                SizeFor(HighestAddress(entries[..])) == bitmap.Length
    {
      ghost var es := entries[..];
      carved := InitBitmap();
      SizeIsPaged(es);
      HighestExists(es);
      ghost var k: nat :| Highest(es, k);
      HighestIs(es, k);
      if bitmap != null {
        CarveKeepsSize(es, carved, k);
      }
    }

    /** What allocation needs: a bitmap, and a size, recomputed from the map as it now is, that does not exceed it. */
    ghost predicate Ready()
      reads this, entries, bitmap
    {
      && bitmap != null && bitmap as object != entries && SomeUsable(entries[..])
      && SizeFor(HighestAddress(entries[..])) <= bitmap.Length
    }

    ghost function Limit(): nat
      reads this, entries, bitmap
      requires Ready()
    {
      8 * SizeFor(HighestAddress(entries[..]))
    }

    method AllocInner() returns (mem: nat)
      requires Ready()
      modifies bitmap
      ensures Ready() && entries[..] == old(entries[..])
      ensures (mem, bitmap[..]) == Taken(old(bitmap[..]), Limit())
      ensures AnswersLowest(FreeFrames(old(bitmap[..])), 8 * SizeFor(HighestAddress(entries[..])), mem)
    {
      hide AnswersLowest, FreeFrames;
      ghost var bm := bitmap[..];
      TakenExactly(bm, Limit());
      var bit: nat := 0;
      while true
        invariant Ready() && bitmap[..] == bm && bit <= Limit()
        invariant forall b: nat :: b < bit ==> TestBit(bm, b)
        decreases Limit() - bit
      {
        var size := GetBitmapSize();
        if bit >= size * 8 {
          break;
        }
        var taken := BitmapTest(bit);
        if !taken {
          TakenIs(bm, Limit(), bit);
          BitmapSetBit(bit);
          return 0x1000 * bit;
        }
        bit := bit + 1;
      }
      return 0;
    }

    /** Any positive number of frames asks for exactly one: once it has one the loop takes no more. */
    method Alloc(frames: nat) returns (mem: nat)
      requires Ready()
      modifies bitmap
      ensures Ready() && entries[..] == old(entries[..])
      ensures (mem, bitmap[..]) == if frames == 0 then (0, old(bitmap[..])) else Taken(old(bitmap[..]), Limit())
      ensures frames > 0 ==> AnswersLowest(FreeFrames(old(bitmap[..])), 8 * SizeFor(HighestAddress(entries[..])), mem)
    {
      hide AnswersLowest, FreeFrames;
      TakenExactly(bitmap[..], Limit());
      mem := 0;
      for i := 0 to frames
        invariant Ready() && entries[..] == old(entries[..])
        invariant if i == 0 then mem == 0 && bitmap[..] == old(bitmap[..]) else
                    mem != 0 && (mem, bitmap[..]) == Taken(old(bitmap[..]), Limit())
      {
        if mem == 0 {
          mem := AllocInner();
        }
        if mem == 0 {
          return 0;
        }
      }
    }

    method Free(ptr: nat, frames: nat)
      requires bitmap != null && ptr / 0x1000 + frames <= 8 * bitmap.Length
      modifies bitmap
      ensures bitmap[..] == Given(old(bitmap[..]), ptr / 0x1000, frames)
    {
      var at := ptr;
      for i := 0 to frames
        invariant at == ptr + 0x1000 * i
        invariant bitmap[..] == Given(old(bitmap[..]), ptr / 0x1000, i)
      {
        FrameAfter(ptr, i);
        BitmapUnsetBit(at / 0x1000);
        at := at + 0x1000;
      }
    }
  }
}
