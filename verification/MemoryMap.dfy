/** The memory map the frame allocator is built from, and the size it gives the bitmap. */
module MemoryMap {
  import opened Bits

  const USABLE: nat := 0

  datatype Entry = Entry(base: nat, length: nat, kind: nat) {
    predicate Usable() { kind == USABLE }

    function End(): nat { base + length }
  }

  predicate SomeUsable(es: seq<Entry>) {
    exists i :: 0 <= i < |es| && es[i].Usable()
  }

  /** Entry k is the one find_highest_mem_chunk picks: usable, of the highest base, the first such. */
  ghost predicate Highest(es: seq<Entry>, k: nat) {
    && k < |es| && es[k].Usable()
    && (forall j :: 0 <= j < |es| && es[j].Usable() ==> es[j].base <= es[k].base)
    && (forall j :: 0 <= j < k && es[j].Usable() ==> es[j].base < es[k].base)
  }

  lemma {:induction false} HighestExists(es: seq<Entry>)
    requires SomeUsable(es)
    ensures exists k: nat :: Highest(es, k)
  {
    var n := |es| - 1;
    var init := es[..n];
    if SomeUsable(init) {
      HighestExists(init);
      var k: nat :| Highest(init, k);
      if es[n].Usable() && es[n].base > es[k].base {
        assert forall j :: 0 <= j < n ==> es[j] == init[j];
        assert Highest(es, n);
      } else {
        assert forall j :: 0 <= j < n ==> es[j] == init[j];
        assert Highest(es, k);
      }
    } else {
      assert forall j :: 0 <= j < n ==> es[j] == init[j];
      assert Highest(es, n);
    }
  }

  ghost function HighestAddress(es: seq<Entry>): nat
    requires SomeUsable(es)
  {
    HighestExists(es);
    var k: nat :| Highest(es, k);
    es[k].End()
  }

  // ---- rounding ----

  function AlignUp(address: nat, align: nat): nat
    requires 0 < align <= U64
  {
    And(address + (align - 1), U64 - align)
  }

  /** The bitmap's size in bytes, for memory that ends at the given address. */
  function SizeFor(highestAddress: nat): nat {
    AlignUp(highestAddress / 0x1000 / 8, 0x1000)
  }

  lemma AndDouble(x: nat, m: nat)
    ensures And(x, 2 * m) == 2 * And(x / 2, m)
  {
    assert 2 * m / 2 == m;
  }

  function ShiftDown(k: nat, x: nat): nat {
    if k == 0 then x else ShiftDown(k - 1, x / 2)
  }

  /** Low zeros of a mask clear as many low bits. */
  lemma {:induction false} AndShifted(k: nat, x: nat, m: nat)
    ensures And(x, ShiftUp(k, m)) == ShiftUp(k, And(ShiftDown(k, x), m))
  {
    if k > 0 {
      AndDouble(x, ShiftUp(k - 1, m));
      AndShifted(k - 1, x / 2, m);
    }
  }

  lemma {:induction false} ShiftDownAdd(k: nat, l: nat, x: nat)
    ensures ShiftDown(k + l, x) == ShiftDown(l, ShiftDown(k, x))
  {
    if k > 0 {
      ShiftDownAdd(k - 1, l, x / 2);
    }
  }

  lemma FourDown(x: nat)
    ensures ShiftDown(4, x) == x / 16
  {
    assert ShiftDown(4, x) == ShiftDown(2, x / 2 / 2);
    assert ShiftDown(2, x / 2 / 2) == ShiftDown(0, x / 2 / 2 / 2 / 2);
  }

  lemma TwelveDown(x: nat)
    ensures ShiftDown(12, x) == x / 0x1000
  {
    ShiftDownAdd(4, 8, x);
    ShiftDownAdd(4, 4, x / 16);
    FourDown(x);
    FourDown(x / 16);
    FourDown(x / 16 / 16);
  }

  lemma TwelveUp(m: nat)
    ensures ShiftUp(12, m) == 0x1000 * m
  {
    EightUp(m);
    assert ShiftUp(10, m) == 0x400 * m;
  }

  lemma {:induction false} AndOnes(x: nat, k: nat)
    requires x < Pow2(k)
    ensures And(x, Pow2(k) - 1) == x
  {
    if k > 0 {
      assert (Pow2(k) - 1) / 2 == Pow2(k - 1) - 1;
      AndOnes(x / 2, k - 1);
    }
  }

  lemma PagesPower()
    ensures Pow2(52) == 0x10_0000_0000_0000
  {
    assert Pow2(8) == 0x100;
    assert Pow2(16) == 0x1_0000;
    assert Pow2(24) == 0x100_0000;
    assert Pow2(32) == 0x1_0000_0000;
    assert Pow2(40) == 0x100_0000_0000;
    assert Pow2(48) == 0x1_0000_0000_0000;
  }

  /** Rounding up to a page, for addresses that do not wrap. */
  lemma AlignUpPage(address: nat)
    requires address + 0x1000 <= U64
    ensures AlignUp(address, 0x1000) == (address + 0x1000 - 1) / 0x1000 * 0x1000
  {
    var x, m := address + (0x1000 - 1), 0xF_FFFF_FFFF_FFFF;
    AndShifted(12, x, m);
    TwelveUp(m);
    TwelveUp(And(x / 0x1000, m));
    TwelveDown(x);
    PagesPower();
    AndOnes(x / 0x1000, 52);
  }

  /** The bitmap takes the fewest whole pages that have a bit for every eight full frames of memory. With F frames there is
      then a bit for every one of them exactly when F mod 32768 is not in 1..7. */
  lemma BitmapCovers(highestAddress: nat)
    requires highestAddress < U64
    ensures var frames, size := highestAddress / 0x1000, SizeFor(highestAddress);
            && size % 0x1000 == 0 && frames / 8 <= size < frames / 8 + 0x1000
            && (8 * size >= frames <==> !(1 <= frames % 32768 <= 7))
  {
    var frames := highestAddress / 0x1000;
    AlignUpPage(frames / 8);
    var q, r := frames / 32768, frames % 32768;
    assert frames == 32768 * q + r;
    assert frames / 8 == 0x1000 * q + r / 8;
    if r < 8 {
      assert (frames / 8 + 0x1000 - 1) / 0x1000 == q;
    } else {
      assert (frames / 8 + 0x1000 - 1) / 0x1000 == q + 1;
    }
  }

  // ---- the carve ----

  /** The map once `size` bytes have been cut from the front of entry i. */
  function Carve(es: seq<Entry>, i: nat, size: nat): (r: seq<Entry>)
    requires i < |es| && size <= es[i].length
    ensures |r| == |es|
  {
    es[i := es[i].(length := es[i].length - size, base := es[i].base + size)]
  }

  /** What a boot loader's map is: usable entries are whole pages, not empty, below 2^64, and share no byte. */
  ghost predicate Regular(es: seq<Entry>) {
    && (forall i :: 0 <= i < |es| && es[i].Usable() ==>
          es[i].base % 0x1000 == 0 && es[i].length % 0x1000 == 0 && 0 < es[i].length && es[i].End() < U64)
    && (forall i, j :: 0 <= i < |es| && 0 <= j < |es| && i != j && es[i].Usable() && es[j].Usable() ==>
          es[i].End() <= es[j].base || es[j].End() <= es[i].base)
  }

  /** The carve leaves the highest address, and so the bitmap's size as pmm_alloc recomputes it, alone, except when it
      empties an entry that ends where the highest begins and stands before it in the map. */
  lemma CarveKeepsHighest(es: seq<Entry>, i: nat, size: nat, k: nat)
    requires Highest(es, k) && Regular(es)
    requires i < |es| && es[i].Usable() && 0 < size <= es[i].length
    ensures SomeUsable(Carve(es, i, size))
    ensures var lost := es[i].length == size && i < k && es[i].End() == es[k].base;
            HighestAddress(Carve(es, i, size)) == if lost then es[k].base else es[k].End()
  {
    var cs := Carve(es, i, size);
    assert cs[i].Usable();
    var lost := es[i].length == size && i < k && es[i].End() == es[k].base;
    if lost {
      HighestIs(cs, i);
    } else {
      HighestIs(cs, k);
    }
  }

  lemma HighestIs(es: seq<Entry>, k: nat)
    requires SomeUsable(es) && Highest(es, k)
    ensures HighestAddress(es) == es[k].End()
  {
  }
}
