/** The one's-complement sum of section 1 of RFC 1071, and exactly when internet_checksum computes it. */
module OnesComplement {
  import opened Bits
  import opened Checksum

  // ---- the reference ----

  /** One's-complement addition of 16-bit words: the carry comes round to the low end. */
  function OnesAdd(a: nat, b: nat): nat {
    if a + b > 0xFFFF then a + b - 0xFFFF else a + b
  }

  function OnesSum(ws: seq<nat>): nat {
    if ws == [] then 0 else OnesAdd(OnesSum(ws[..|ws| - 1]), ws[|ws| - 1])
  }

  /** The checksum as section 1 of RFC 1071 defines it, in the byte order the source returns it in. */
  function Reference(buf: seq<Byte>, count: nat): nat
    requires count <= |buf|
  {
    OnesSumBound(Words(buf, count));
    Swap(0xFFFF - OnesSum(Words(buf, count)))
  }

  ghost predicate Sixteen(ws: seq<nat>) {
    forall i :: 0 <= i < |ws| ==> ws[i] < 0x1_0000
  }

  lemma OnesSumBound(ws: seq<nat>)
    requires Sixteen(ws)
    ensures OnesSum(ws) < 0x1_0000
  {
  }

  // ---- both are the plain sum, modulo 65535 ----

  function Sum(ws: seq<nat>): nat {
    if ws == [] then 0 else Sum(ws[..|ws| - 1]) + ws[|ws| - 1]
  }

  /** The 16-bit word a sum stands for: 0 only for 0, and otherwise 1 to 65535. */
  function Canonical(n: nat): (r: nat)
    ensures r < 0x1_0000
  {
    if n == 0 then 0 else (n - 1) % 0xFFFF + 1
  }

  lemma CanonicalShift(n: nat, m: nat, q: int)
    requires n == m + 0xFFFF * q && (n == 0 <==> m == 0)
    ensures Canonical(n) == Canonical(m)
  {
  }

  lemma {:induction false} OnesSumIs(ws: seq<nat>)
    requires Sixteen(ws)
    ensures OnesSum(ws) == Canonical(Sum(ws))
  {
    if ws != [] {
      var before, w := ws[..|ws| - 1], ws[|ws| - 1];
      OnesSumIs(before);
      AddCanonical(Sum(before), w);
    }
  }

  lemma AddCanonical(n: nat, w: nat)
    requires w < 0x1_0000
    ensures OnesAdd(Canonical(n), w) == Canonical(n + w)
  {
  }

  lemma {:induction false} FoldDownIs(c: nat)
    ensures FoldDown(c) == Canonical(c)
    decreases c
  {
    if c / 0x1_0000 != 0 {
      var next := c % 0x1_0000 + c / 0x1_0000;
      assert c == next + 0xFFFF * (c / 0x1_0000);
      FoldDownIs(next);
      CanonicalShift(c, next, c / 0x1_0000);
    }
  }

  // ---- the fold that loses a bit ----

  /** The words at which the fold is taken with bit 15 of the low half set, so that OR loses the high half. */
  function BadFolds(ws: seq<nat>): nat {
    if ws == [] then 0 else
      var before := ws[..|ws| - 1];
      BadFolds(before) + (if Running(before) + ws[|ws| - 1] >= 0x8000_8000 then 1 else 0)
  }

  /** Each bad fold takes 0x8000 from the sum, and nothing else departs from it. */
  lemma {:induction false} RunningIs(ws: seq<nat>) returns (q: nat)
    requires Sixteen(ws)
    ensures Running(ws) < 0x8000_0000 && Sum(ws) == Running(ws) + 0x8000 * BadFolds(ws) + 0xFFFF * q
    ensures Running(ws) == 0 <==> Sum(ws) == 0
  {
    q := 0;
    if ws != [] {
      var before, w := ws[..|ws| - 1], ws[|ws| - 1];
      var q0 := RunningIs(before);
      FoldIsSmall(Running(before), w);
      q := if Running(before) + w >= 0x8000_0000 then q0 + 0x8000 else q0;
    }
  }

  lemma HalfStep(b: nat, s: nat, r: nat, q: nat)
    requires s == r + 0x8000 * b + 0xFFFF * q && (r == 0 <==> s == 0)
    ensures Canonical(r) == Canonical(s) <==> b % 0xFFFF == 0
  {
    if b % 0xFFFF == 0 {
      var k := b / 0xFFFF;
      assert s == r + 0xFFFF * (0x8000 * k + q);
      CanonicalShift(s, r, 0x8000 * k + q);
    } else if s != 0 {
      var d := (s - 1) / 0xFFFF - (r - 1) / 0xFFFF;
      assert (r - 1) % 0xFFFF == (s - 1) % 0xFFFF ==> b == 0xFFFF * (2 * (d - q) - b);
    }
  }

  /** For every buffer: the source's checksum is the reference one exactly when the number of bad folds is a multiple
      of 65535, none in particular. */
  lemma RightExactly(buf: seq<Byte>, count: nat)
    requires count <= |buf|
    ensures Computed(buf, count) == Reference(buf, count) <==> BadFolds(Words(buf, count)) % 0xFFFF == 0
  {
    var ws := Words(buf, count);
    var q := RunningIs(ws);
    OnesSumIs(ws);
    FoldDownIs(Running(ws));
    HalfStep(BadFolds(ws), Sum(ws), Running(ws), q);
    SwapInjective(0xFFFF - FoldDown(Running(ws)), 0xFFFF - OnesSum(ws));
  }

  lemma SwapInjective(a: nat, b: nat)
    requires a < 0x1_0000 && b < 0x1_0000
    ensures Swap(a) == Swap(b) <==> a == b
  {
    assert Swap(a) == Swap(b) ==> a % 0x100 == b % 0x100;
  }

  // ---- the sharp length bound ----

  /** Up to 32768 words the fold is never taken; at the 32769th it may be, but still adds. */
  lemma {:induction false} NoBadFolds(ws: seq<nat>)
    requires Sixteen(ws) && |ws| <= 32769
    ensures BadFolds(ws) == 0
    ensures |ws| <= 32768 ==> Running(ws) == Sum(ws) <= 0xFFFF * |ws|
  {
    if ws != [] {
      var before, w := ws[..|ws| - 1], ws[|ws| - 1];
      NoBadFolds(before);
      FoldIsSmall(Running(before), w);
    }
  }

  lemma RightUpToBound(buf: seq<Byte>, count: nat)
    requires count <= |buf| && count <= 65539
    ensures Computed(buf, count) == Reference(buf, count)
  {
    NoBadFolds(Words(buf, count));
    RightExactly(buf, count);
  }

  function Worst(): (buf: seq<Byte>)
    ensures |buf| == 65540
  {
    seq(65540, i => if i == 65536 then 0 as Byte else if i == 65537 then 1 else 0xFF)
  }

  lemma {:induction false} AllOnes(ws: seq<nat>, n: nat)
    requires n <= |ws| && n <= 32768 && forall i :: 0 <= i < n ==> ws[i] == 0xFFFF
    ensures Running(ws[..n]) == 0xFFFF * n && BadFolds(ws[..n]) == 0
  {
    if n > 0 {
      AllOnes(ws, n - 1);
      assert ws[..n][..n - 1] == ws[..n - 1];
      FoldIsSmall(Running(ws[..n - 1]), 0xFFFF);
    }
  }

  lemma OneBadFold(ws: seq<nat>)
    requires |ws| == 32770 && (forall i :: 0 <= i < 32768 ==> ws[i] == 0xFFFF) && ws[32768] == 1 && ws[32769] == 0xFFFF
    ensures BadFolds(ws) == 1
  {
    hide AddWord;
    AllOnes(ws, 32768);
    assert ws[..32769][..32768] == ws[..32768] && ws[..|ws| - 1] == ws[..32769];
    FoldIsSmall(Running(ws[..32768]), 1);
  }

  lemma WorstWords()
    ensures var ws := Words(Worst(), 65540);
            |ws| == 32770 && (forall i :: 0 <= i < 32768 ==> ws[i] == 0xFFFF) && ws[32768] == 1 && ws[32769] == 0xFFFF
  {
    forall i | 0 <= i < 32768 ensures Words(Worst(), 65540)[i] == 0xFFFF {
      assert 2 * i + 1 < 65536;
    }
  }

  /** One word more and the bound fails: a buffer of 65540 bytes gets the wrong checksum. */
  lemma WrongBeyondBound()
    ensures Computed(Worst(), 65540) != Reference(Worst(), 65540)
  {
    hide Worst, Words, Computed, Reference, BadFolds;
    WorstWords();
    OneBadFold(Words(Worst(), 65540));
    RightExactly(Worst(), 65540);
  }

  // ---- what the checksum is for ----

  lemma {:induction false} SumReplace(ws: seq<nat>, k: nat, v: nat)
    requires k < |ws|
    ensures Sum(ws[k := v]) == Sum(ws) - ws[k] + v
  {
    var n := |ws| - 1;
    if k == n {
      assert ws[k := v][..n] == ws[..n];
    } else {
      assert ws[k := v][..n] == ws[..n][k := v];
      SumReplace(ws[..n], k, v);
    }
  }

  lemma {:induction false} SumTake(ws: seq<nat>, k: nat)
    requires k < |ws|
    ensures Sum(ws[..k] + ws[k + 1..]) == Sum(ws) - ws[k]
  {
    var n := |ws| - 1;
    var rest := ws[..k] + ws[k + 1..];
    if k == n {
      assert rest == ws[..n];
    } else {
      assert rest[..|rest| - 1] == ws[..n][..k] + ws[..n][k + 1..];
      SumTake(ws[..n], k);
    }
  }

  lemma SumLast(ws: seq<nat>)
    requires ws != []
    ensures Sum(ws) == Sum(ws[..|ws| - 1]) + ws[|ws| - 1]
  {
  }

  lemma TakeOut(a: seq<nat>, b: seq<nat>) returns (k: nat)
    requires a != [] && multiset(a) == multiset(b)
    ensures k < |b| && b[k] == a[|a| - 1] && multiset(a[..|a| - 1]) == multiset(b[..k] + b[k + 1..])
  {
    var n := |a| - 1;
    var x := a[n];
    assert a == a[..n] + [x];
    assert x in multiset(b);
    k :| 0 <= k < |b| && b[k] == x;
    assert b == b[..k] + [x] + b[k + 1..];
    assert multiset(b[..k] + b[k + 1..]) == multiset(b) - multiset{x};
    assert multiset(a[..n]) == multiset(a) - multiset{x};
  }

  /** Section 2(A) of RFC 1071: the order of the words does not matter. */
  lemma {:induction false} SumOfPermutation(a: seq<nat>, b: seq<nat>)
    requires multiset(a) == multiset(b)
    ensures Sum(a) == Sum(b)
    decreases |a|
  {
    hide Sum;
    if a == [] {
      assert |multiset(a)| == 0;
      assert b == [];
    } else {
      var n := |a| - 1;
      var k := TakeOut(a, b);
      SumOfPermutation(a[..n], b[..k] + b[k + 1..]);
      SumTake(b, k);
      SumLast(a);
    }
  }

  lemma OrderIrrelevant(a: seq<Byte>, b: seq<Byte>, count: nat)
    requires count <= |a| && count <= |b| && count <= 65539
    requires multiset(Words(a, count)) == multiset(Words(b, count))
    ensures Computed(a, count) == Computed(b, count)
  {
    RightUpToBound(a, count);
    RightUpToBound(b, count);
    OnesSumIs(Words(a, count));
    OnesSumIs(Words(b, count));
    SumOfPermutation(Words(a, count), Words(b, count));
  }

  lemma SwapTwice(w: nat)
    requires w < 0x1_0000
    ensures Swap(Swap(w)) == w
  {
    Halves(w % 0x100, w / 0x100);
  }

  lemma OnWire(buf: seq<Byte>, count: nat)
    requires count <= |buf| && count <= 65539
    ensures OnesSum(Words(buf, count)) < 0x1_0000 && Swap(Computed(buf, count)) == 0xFFFF - OnesSum(Words(buf, count))
  {
    RightUpToBound(buf, count);
    OnesSumBound(Words(buf, count));
    SwapTwice(0xFFFF - OnesSum(Words(buf, count)));
  }

  /** A 16-bit store of r at an even offset, as x86 makes it. */
  function Store(buf: seq<Byte>, off: nat, r: nat): (b: seq<Byte>)
    requires off + 1 < |buf| && r < 0x1_0000
    ensures |b| == |buf|
  {
    buf[off := r % 0x100][off + 1 := r / 0x100]
  }

  lemma StoreReplaces(buf: seq<Byte>, count: nat, k: nat, r: nat)
    requires count <= |buf| && k < count / 2 && r < 0x1_0000
    ensures Words(Store(buf, 2 * k, r), count) == Words(buf, count)[k := Swap(r)]
  {
  }

  lemma StoreWord(buf: seq<Byte>, count: nat, k: nat, x: nat)
    requires count <= |buf| && k < count / 2 && x < 0x1_0000
    ensures Words(Store(buf, 2 * k, Swap(x)), count) == Words(buf, count)[k := x]
  {
    SwapTwice(x);
    StoreReplaces(buf, count, k, Swap(x));
  }

  lemma CancelsOut(n: nat)
    ensures Canonical(n + 0xFFFF - Canonical(n)) == 0xFFFF
  {
  }

  lemma FilledIn(ws: seq<nat>, k: nat)
    requires Sixteen(ws) && k < |ws| && ws[k] == 0
    ensures OnesSum(ws) < 0x1_0000 && OnesSum(ws[k := 0xFFFF - OnesSum(ws)]) == 0xFFFF
  {
    OnesSumIs(ws);
    var filled := ws[k := 0xFFFF - OnesSum(ws)];
    OnesSumIs(filled);
    SumReplace(ws, k, 0xFFFF - OnesSum(ws));
    CancelsOut(Sum(ws));
  }

  lemma SwapZero(w: nat)
    requires w < 0x1_0000 && Swap(w) == 0
    ensures w == 0
  {
  }

  lemma FieldIsZero(buf: seq<Byte>, count: nat, k: nat)
    requires count <= |buf| && k < count / 2 && buf[2 * k] == 0 && buf[2 * k + 1] == 0
    ensures Words(buf, count)[k] == 0
  {
  }

  /** Section 1 of RFC 1071: with the checksum written into a field that was zero, the checksum comes out zero. */
  lemma Verifies(buf: seq<Byte>, count: nat, k: nat)
    requires count <= |buf| && count <= 65539 && k < count / 2 && buf[2 * k] == 0 && buf[2 * k + 1] == 0
    ensures Computed(Store(buf, 2 * k, Computed(buf, count)), count) == 0
  {
    hide Computed, OnesSum, Swap, Store;
    var ws, c := Words(buf, count), Computed(buf, count);
    var filled := Store(buf, 2 * k, c);
    FieldIsZero(buf, count, k);
    OnWire(buf, count);
    StoreReplaces(buf, count, k, c);
    FilledIn(ws, k);
    OnWire(filled, count);
    SwapZero(Computed(filled, count));
  }

  /** Equation 3 of section 3 of RFC 1624: the new checksum from the old one and the word that changed. */
  function Updated(hc: nat, m: nat, m': nat): int
    requires hc < 0x1_0000 && m < 0x1_0000
  {
    0xFFFF - OnesAdd(OnesAdd(0xFFFF - hc, 0xFFFF - m), m')
  }

  /** The rule gives the checksum of the changed words, except that where these are all zero it gives the other
      representation of zero. */
  lemma UpdateRule(ws: seq<nat>, k: nat, m': nat)
    requires Sixteen(ws) && k < |ws| && m' < 0x1_0000
    ensures OnesSum(ws) < 0x1_0000
    ensures var new' := 0xFFFF - OnesSum(ws[k := m']);
            var rule := Updated(0xFFFF - OnesSum(ws), ws[k], m');
            if Sum(ws[k := m']) == 0 then new' == 0xFFFF && rule == 0 else new' == rule
  {
    hide OnesSum, Sum, Canonical;
    OnesSumIs(ws);
    OnesSumIs(ws[k := m']);
    SumReplace(ws, k, m');
    WordAtMostSum(ws, k);
    OnesSumBound(ws);
    RuleAdds(Sum(ws), ws[k], m');
  }

  lemma RuleAdds(n: nat, m: nat, m': nat)
    requires m <= n && m < 0x1_0000 && m' < 0x1_0000
    ensures OnesAdd(OnesAdd(Canonical(n), 0xFFFF - m), m') == if n - m + m' == 0 then 0xFFFF else Canonical(n - m + m')
    ensures n - m + m' == 0 ==> Canonical(n - m + m') == 0
  {
    AddCanonical(n, 0xFFFF - m);
    AddCanonical(n + (0xFFFF - m), m');
    if n - m + m' != 0 {
      CanonicalShift(n + (0xFFFF - m) + m', n - m + m', 1);
    }
  }

  lemma {:induction false} WordAtMostSum(ws: seq<nat>, k: nat)
    requires k < |ws|
    ensures ws[k] <= Sum(ws)
  {
    if k < |ws| - 1 { WordAtMostSum(ws[..|ws| - 1], k); }
  }

  /** The rule for the source's own checksums, as words on the wire, when word k becomes x. */
  lemma UpdateComputed(buf: seq<Byte>, count: nat, k: nat, x: nat)
    requires count <= |buf| && count <= 65539 && k < count / 2 && x < 0x1_0000
    ensures var old', new' := Swap(Computed(buf, count)), Swap(Computed(Store(buf, 2 * k, Swap(x)), count));
            var rule := Updated(old', Words(buf, count)[k], x);
            if Sum(Words(buf, count)[k := x]) == 0 then new' == 0xFFFF && rule == 0 else new' == rule
  {
    var ws := Words(buf, count);
    OnWire(buf, count);
    OnWire(Store(buf, 2 * k, Swap(x)), count);
    StoreWord(buf, count, k, x);
    UpdateRule(ws, k, x);
  }
}
