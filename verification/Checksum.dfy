/** sys/src/net/checksum.c: the Internet checksum, whose mid-loop fold ORs where it should add. */
module Checksum {
  import opened Bits

  type Byte = b: nat | b < 0x100

  // ---- what the code computes ----

  /** The low byte of the word in memory is its first; `|` joins the two halves. */
  function Convert(os: nat): (r: nat)
    requires os < 0x1_0000
  {
    Or(os % 0x100 * 0x100, os / 0x100)
  }

  /** A 16-bit word as an x86 load gives it, and as the wire means it. */
  function Load(first: Byte, second: Byte): (os: nat)
    ensures os < 0x1_0000
  {
    (first as nat) + 0x100 * (second as nat)
  }

  function Word(first: Byte, second: Byte): (w: nat)
    ensures w < 0x1_0000
  {
    0x100 * (first as nat) + (second as nat)
  }

  /** Add a word in 32 bits; once the top bit is set, fold the halves together with OR. */
  function AddWord(checksum: nat, w: nat): nat {
    var c := (checksum + w) % 0x1_0000_0000;
    if c >= 0x8000_0000 then Or(c % 0x1_0000, c / 0x1_0000) else c
  }

  function FoldDown(checksum: nat): (r: nat)
    ensures r < 0x1_0000
  {
    if checksum / 0x1_0000 != 0 then FoldDown(checksum % 0x1_0000 + checksum / 0x1_0000) else checksum
  }

  function Running(ws: seq<nat>): nat {
    if ws == [] then 0 else AddWord(Running(ws[..|ws| - 1]), ws[|ws| - 1])
  }

  /** The big-endian words of the even-length prefix of the first `count` bytes. */
  function Words(buf: seq<Byte>, count: nat): (ws: seq<nat>)
    requires count <= |buf|
    ensures |ws| == count / 2
    ensures forall i :: 0 <= i < |ws| ==> ws[i] == Word(buf[2 * i], buf[2 * i + 1])
  {
    seq(count / 2, i requires 0 <= i < count / 2 => Word(buf[2 * i], buf[2 * i + 1]))
  }

  function Swap(w: nat): (r: nat)
    requires w < 0x1_0000
    ensures r < 0x1_0000
  {
    w % 0x100 * 0x100 + w / 0x100
  }

  // ---- what OR does to the halves ----

  lemma {:induction false} OrHigh(k: nat, a: nat, b: nat)
    requires b < Pow2(k)
    ensures Or(ShiftUp(k, a), b) == ShiftUp(k, a) + b
  {
    if k > 0 {
      OrHigh(k - 1, a, b / 2);
    } else {
      OrZero(a);
    }
  }

  lemma {:induction false} OrZero(a: nat)
    ensures Or(a, 0) == a
  {
    if a > 0 { OrZero(a / 2); }
  }

  /** ORing in a power of two adds it if that bit is clear and does nothing if it is set. */
  lemma {:induction false} OrTop(k: nat, a: nat)
    requires a < 2 * Pow2(k)
    ensures Or(a, Pow2(k)) == if a < Pow2(k) then a + Pow2(k) else a
  {
    if k > 0 {
      OrTop(k - 1, a / 2);
    } else {
      assert Or(0, 1) == 1 && Or(1, 1) == 1;
    }
  }

  lemma ConvertIsSwap(os: nat)
    requires os < 0x1_0000
    ensures Convert(os) == Swap(os)
  {
    EightUp(os % 0x100);
    assert Pow2(8) == 0x100;
    OrHigh(8, os % 0x100, os / 0x100);
  }

  lemma Halves(high: Byte, low: Byte)
    ensures Word(high, low) / 0x100 == high && Word(high, low) % 0x100 == low
  {
  }

  lemma ConvertIsWord(first: Byte, second: Byte)
    ensures Convert(Load(first, second)) == Word(first, second)
  {
    ConvertIsSwap(Load(first, second));
    Halves(second, first);
  }

  lemma FifteenUp()
    ensures Pow2(15) == 0x8000
  {
    assert Pow2(8) == 0x100;
  }

  lemma HighHalf(s: nat)
    requires 0x8000_0000 <= s < 0x8001_0000
    ensures s % 0x1_0000 == s - 0x8000_0000 && s / 0x1_0000 == 0x8000 && s % 0x1_0000_0000 == s
  {
  }

  /** What the mid-loop fold gives: it only ever sees a high half of 0x8000, and loses it when bit 15 is set below. */
  lemma FoldIsSmall(c: nat, w: nat)
    requires c < 0x8000_0000 && w < 0x1_0000
    ensures AddWord(c, w) == (
              var s := c + w;
              if s < 0x8000_0000 then s else if s - 0x8000_0000 < 0x8000 then s - 0x8000_0000 + 0x8000 else s - 0x8000_0000)
    ensures AddWord(c, w) < 0x8000_0000
  {
    hide Or, Pow2;
    var s := c + w;
    if s >= 0x8000_0000 {
      HighHalf(s);
      FifteenUp();
      OrTop(15, s - 0x8000_0000);
    }
  }

  // ---- the loops ----

  /** The body of the summing loop. */
  method Accumulate(sum: nat, first: Byte, second: Byte) returns (checksum: nat)
    requires sum < 0x8000_0000
    ensures checksum == AddWord(sum, Word(first, second)) && checksum < 0x8000_0000
  {
    ConvertIsWord(first, second);
    FoldIsSmall(sum, Word(first, second));
    checksum := (sum + Convert(Load(first, second))) % 0x1_0000_0000;
    if checksum >= 0x8000_0000 {
      checksum := Or(checksum % 0x1_0000, checksum / 0x1_0000);
    }
  }

  /** The closing loop. */
  method FoldHalves(c: nat) returns (checksum: nat)
    requires c < U32
    ensures checksum == FoldDown(c)
  {
    checksum := c;
    while checksum / 0x1_0000 != 0
      invariant FoldDown(checksum) == FoldDown(c) && checksum < U32
      decreases checksum
    {
      checksum := (checksum % 0x1_0000 + checksum / 0x1_0000) % 0x1_0000_0000;
    }
  }

  /** convert(~checksum): all 32 bits are complemented and the low 16 kept. */
  method Complement(checksum: nat) returns (r: nat)
    requires checksum < 0x1_0000
    ensures r == Swap(0xFFFF - checksum)
  {
    var low := (U32 - 1 - checksum) % 0x1_0000;
    assert low == 0xFFFF - checksum;
    ConvertIsSwap(low);
    r := Convert(low);
  }

  /** What internet_checksum returns. */
  function Computed(buf: seq<Byte>, count: nat): (r: nat)
    requires count <= |buf|
    ensures r < 0x1_0000
  {
    Swap(0xFFFF - FoldDown(Running(Words(buf, count))))
  }

  method InternetChecksum(buf: seq<Byte>, size: nat) returns (r: nat)
    requires size <= |buf|
    ensures r == Computed(buf, size)
  {
    var checksum: nat := 0;
    var w: nat := 0;
    var count := size;
    ghost var ws := Words(buf, size);
    while count > 1
      invariant count == size - 2 * w && w <= size / 2
      invariant checksum == Running(ws[..w]) && checksum < 0x8000_0000
    {
      assert ws[..w + 1][..w] == ws[..w];
      checksum := Accumulate(checksum, buf[2 * w], buf[2 * w + 1]);
      w := w + 1;
      count := count - 2;
    }
    assert ws[..w] == ws;
    checksum := FoldHalves(checksum);
    r := Complement(checksum);
  }
}
