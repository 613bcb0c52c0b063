/** hex2str and dec2str of sys/src/lib/string.c: digits are produced lowest first and reversed in place. */
module NumText {
  import opened Bits

  // ---- digits ----

  type Base = b: nat | b == 10 || b == 16 witness 10

  /** The lowest digit of a number and the number without it. */
  function Last(n: nat, base: Base): (d: nat)
    ensures d < base
  {
    if base == 16 then n % 16 else n % 10
  }

  function Rest(n: nat, base: Base): (r: nat)
    ensures n > 0 ==> r < n
  {
    if base == 16 then n / 16 else n / 10
  }

  /** The digits of n, lowest first; none for 0. */
  function LowDigits(n: nat, base: Base): (ds: seq<nat>)
    ensures forall i :: 0 <= i < |ds| ==> ds[i] < base
  {
    if n == 0 then [] else [Last(n, base)] + LowDigits(Rest(n, base), base)
  }

  const NUMERALS := "0123456789ABCDEF"

  function Numeral(d: nat): char
    requires d < 16
  {
    NUMERALS[d]
  }

  function Numerals(ds: seq<nat>): (t: string)
    requires forall i :: 0 <= i < |ds| ==> ds[i] < 16
    ensures |t| == |ds| && forall i :: 0 <= i < |t| ==> t[i] == Numeral(ds[i])
  {
    seq(|ds|, i requires 0 <= i < |ds| => Numeral(ds[i]))
  }

  function Reversed(s: string): (r: string)
    ensures |r| == |s| && forall i :: 0 <= i < |s| ==> r[i] == s[|s| - 1 - i]
  {
    seq(|s|, i requires 0 <= i < |s| => s[|s| - 1 - i])
  }

  /** What hex2str builds before it reverses. */
  function HexBackwards(n: nat): string {
    (if n == 0 then "0" else Numerals(LowDigits(n, 16))) + (if n < 0x10 then "0" else "") + "x0"
  }

  function DecBackwards(n: nat): string {
    if n == 0 then "0" else Numerals(LowDigits(n, 10))
  }

  /** The texts returned. */
  function HexText(n: nat): string { Reversed(HexBackwards(n)) }

  function DecText(n: nat): string { Reversed(DecBackwards(n)) }

  lemma DecimalNumeral(d: nat)
    requires d < 10
    ensures Numeral(d) == d as char + '0'
  {
  }

  function Power(base: Base, k: nat): nat {
    if k == 0 then 1 else if base == 16 then 16 * Power(base, k - 1) else 10 * Power(base, k - 1)
  }

  /** A number below base^k has at most k digits. */
  lemma {:induction false} DigitsBound(n: nat, base: Base, k: nat)
    requires n < Power(base, k)
    ensures |LowDigits(n, base)| <= k
  {
    if n > 0 {
      DigitsBound(Rest(n, base), base, k - 1);
    }
  }

  lemma HexDigitsFit(n: nat)
    requires n < U64
    ensures |LowDigits(n, 16)| <= 16
  {
    assert Power(16, 4) == 0x1_0000;
    assert Power(16, 8) == 0x1_0000_0000;
    assert Power(16, 12) == 0x1_0000_0000_0000;
    assert Power(16, 16) == U64;
    DigitsBound(n, 16, 16);
  }

  lemma DecDigitsFit(n: nat)
    requires n < U64
    ensures |LowDigits(n, 10)| <= 20
  {
    assert Power(10, 5) == 1_00000;
    assert Power(10, 10) == 1_00000_00000;
    assert Power(10, 15) == 1_00000_00000_00000;
    assert Power(10, 20) == 1_00000_00000_00000_00000;
    DigitsBound(n, 10, 20);
  }

  lemma LowDigitsStep(n: nat, base: Base)
    requires n > 0
    ensures LowDigits(n, base) == [Last(n, base)] + LowDigits(Rest(n, base), base)
  {
  }

  lemma NoDigits(base: Base)
    ensures LowDigits(0, base) == []
  {
  }

  lemma NumeralsNone()
    ensures Numerals([]) == []
  {
  }

  lemma NumeralsMore(ds: seq<nat>, i: nat)
    requires i < |ds| && forall k :: 0 <= k < |ds| ==> ds[k] < 16
    ensures Numerals(ds[..i + 1]) == Numerals(ds[..i]) + [Numeral(ds[i])]
  {
  }

  // ---- the code ----

  /** The swapping loop: the first `last + 1` characters of the buffer end up in reverse order. */
  method ReverseInPlace(buf: array<char>, last: nat)
    requires last < buf.Length
    modifies buf
    ensures buf[..last + 1] == Reversed(old(buf[..last + 1]))
    ensures buf[last + 1..] == old(buf[last + 1..])
  {
    var i, j := last, 0;
    while j < i
      invariant j + i == last && j <= i + 1
      invariant forall k :: 0 <= k < j ==> buf[k] == old(buf[last - k]) && buf[last - k] == old(buf[k])
      invariant forall k :: j <= k <= i ==> buf[k] == old(buf[k])
      invariant forall k :: last < k < buf.Length ==> buf[k] == old(buf[k])
    {
      var temp := buf[j];
      buf[j] := buf[i];
      buf[i] := temp;
      j := j + 1;
      i := i - 1;
    }
    ghost var was := old(buf[..last + 1]);
    forall k | 0 <= k <= last ensures buf[k] == Reversed(was)[k] {
      assert buf[k] == old(buf[last - k]) == was[last - k];
    }
    assert buf[..last + 1] == Reversed(was);
    assert buf[last + 1..] == old(buf[last + 1..]);
  }

  /** The digit loop of hex2str, which runs only for a positive number and then starts at index 0. */
  method HexDigits(buf: array<char>, number: nat) returns (i: nat)
    requires 0 < number && |LowDigits(number, 16)| <= buf.Length
    modifies buf
    ensures i == |LowDigits(number, 16)| && buf[..i] == Numerals(LowDigits(number, 16))
  {
    hide LowDigits, Numerals;
    i := 0;
    var hexNum: nat := number;
    ghost var ds := LowDigits(number, 16);
    assert ds[0..] == ds;
    NumeralsNone();
    while hexNum > 0
      invariant i <= |ds| && LowDigits(hexNum, 16) == ds[i..] && buf[..i] == Numerals(ds[..i])
      decreases hexNum
    {
      var nibble := hexNum % 0x10;
      LowDigitsStep(hexNum, 16);
      assert ds[i..][0] == nibble && ds[i..][1..] == ds[i + 1..];
      NumeralsMore(ds, i);
      buf[i] := NUMERALS[nibble];
      hexNum := hexNum / 0x10;
      i := i + 1;
      assert buf[..i] == buf[..i - 1] + [Numeral(ds[i - 1])];
    }
    NoDigits(16);
    assert ds[..i] == ds;
  }

  /** Put "0x", backwards, and the terminator after what is there. */
  method Finish(buf: array<char>, n: nat) returns (i: nat)
    requires n + 2 < buf.Length
    modifies buf
    ensures i == n + 2 && buf[..i] == old(buf[..n]) + "x0" && buf[i] == '\0'
  {
    i := n;
    buf[i] := 'x';
    i := i + 1;
    buf[i] := '0';
    i := i + 1;
    buf[i] := '\0';
  }

  method Hex2Str(buf: array<char>, number: nat)
    requires buf.Length == 80 && number < U64
    modifies buf
    ensures |HexText(number)| < 80 && buf[..|HexText(number)|] == HexText(number) && buf[|HexText(number)|] == '\0'
  {
    hide LowDigits, Numerals, Reversed;
    HexDigitsFit(number);
    var i: nat, pad := 0, 0;
    if number == 0 {
      buf[0], buf[1] := '0', '\0';
      i := 1;
    }
    if number < 0x10 {
      pad := 1;
    }
    if number > 0 {
      i := HexDigits(buf, number);
    }
    ghost var body := buf[..i];
    assert body == if number == 0 then "0" else Numerals(LowDigits(number, 16));
    if pad != 0 {
      buf[i] := '0';
      i := i + 1;
    }
    assert buf[..i] == body + (if number < 0x10 then "0" else "");
    i := Finish(buf, i);
    assert buf[i..][0] == '\0';
    ReverseInPlace(buf, i - 1);
    assert buf[i..][0] == '\0';
  }

  /** The digit loop of dec2str. */
  method DecDigits(buf: array<char>, number: nat) returns (i: nat)
    requires 0 < number && |LowDigits(number, 10)| <= buf.Length
    modifies buf
    ensures i == |LowDigits(number, 10)| && buf[..i] == Numerals(LowDigits(number, 10))
  {
    hide LowDigits, Numerals;
    i := 0;
    var num: nat := number;
    ghost var ds := LowDigits(number, 10);
    assert ds[0..] == ds;
    NumeralsNone();
    while num > 0
      invariant i <= |ds| && LowDigits(num, 10) == ds[i..] && buf[..i] == Numerals(ds[..i])
      decreases num
    {
      LowDigitsStep(num, 10);
      assert ds[i..][0] == num % 10 && ds[i..][1..] == ds[i + 1..];
      NumeralsMore(ds, i);
      DecimalNumeral(num % 10);
      buf[i] := (num % 10) as char + '0';
      num := num / 10;
      i := i + 1;
      assert buf[..i] == buf[..i - 1] + [Numeral(ds[i - 1])];
    }
    NoDigits(10);
    assert ds[..i] == ds;
  }

  /** The argument is unsigned, so the branches for negative numbers are never taken. */
  method Dec2Str(buf: array<char>, number: nat)
    requires buf.Length == 80 && number < U64
    modifies buf
    ensures |DecText(number)| < 80 && buf[..|DecText(number)|] == DecText(number) && buf[|DecText(number)|] == '\0'
  {
    DecDigitsFit(number);
    var i: nat := 0;
    if number == 0 {
      buf[i] := '0';
      i := i + 1;
    }
    if number > 0 {
      i := DecDigits(buf, number);
    }
    assert buf[..i] == DecBackwards(number);
    buf[i] := '\0';
    assert buf[..i] == DecBackwards(number);
    ReverseInPlace(buf, i - 1);
  }

  // ---- reading the texts back ----

  function DigitValue(c: char): nat {
    if '0' <= c <= '9' then c as nat - '0' as nat else if 'A' <= c <= 'F' then 10 + (c as nat - 'A' as nat) else 0
  }

  /** A text read as a number, most significant digit first. */
  function ValueOf(t: string, base: Base): nat {
    if t == [] then 0 else
      var before := ValueOf(t[..|t| - 1], base);
      (if base == 16 then 16 * before else 10 * before) + DigitValue(t[|t| - 1])
  }

  lemma NumeralValue(d: nat)
    requires d < 16
    ensures DigitValue(Numeral(d)) == d && (d < 10 ==> '0' <= Numeral(d) <= '9') && (Numeral(d) == '0' <==> d == 0)
    ensures d >= 10 ==> 'A' <= Numeral(d) <= 'F'
  {
  }

  lemma ReversedCons(c: char, s: string)
    ensures Reversed([c] + s) == Reversed(s) + [c]
  {
  }

  lemma {:induction false} DigitsRead(n: nat, base: Base)
    ensures ValueOf(Reversed(Numerals(LowDigits(n, base))), base) == n
  {
    hide LowDigits, Numerals, Reversed;
    if n == 0 {
      NoDigits(base);
      NothingReads(base);
    } else {
      var d, rest := Last(n, base), LowDigits(Rest(n, base), base);
      DigitsRead(Rest(n, base), base);
      LowDigitsStep(n, base);
      NumeralsCons(d, rest);
      ReversedCons(Numeral(d), Numerals(rest));
      DigitReads(Reversed(Numerals(rest)), d, base);
    }
  }

  lemma NothingReads(base: Base)
    ensures ValueOf(Reversed(Numerals([])), base) == 0
  {
    assert Reversed(Numerals([])) == [];
  }

  lemma NumeralsCons(d: nat, ds: seq<nat>)
    requires d < 16 && forall i :: 0 <= i < |ds| ==> ds[i] < 16
    ensures Numerals([d] + ds) == [Numeral(d)] + Numerals(ds)
  {
  }

  /** One more digit at the low end. */
  lemma DigitReads(t: string, d: nat, base: Base)
    requires d < base
    ensures ValueOf(t + [Numeral(d)], base) == (if base == 16 then 16 * ValueOf(t, base) else 10 * ValueOf(t, base)) + d
  {
    NumeralValue(d);
    assert (t + [Numeral(d)])[..|t|] == t;
  }

  lemma {:induction false} HighestDigitNonzero(n: nat, base: Base)
    requires n > 0
    ensures var ds := LowDigits(n, base); |ds| > 0 && ds[|ds| - 1] != 0
  {
    if Rest(n, base) > 0 { HighestDigitNonzero(Rest(n, base), base); }
  }

  lemma {:induction false} LeadingZero(t: string, base: Base)
    ensures ValueOf("0" + t, base) == ValueOf(t, base)
  {
    if t != [] {
      assert ("0" + t)[..|t|] == "0" + t[..|t| - 1];
      LeadingZero(t[..|t| - 1], base);
    } else {
      assert "0" + t == "0";
      assert ("0")[..0] == [];
    }
  }

  lemma ReversedAppend(s: string, t: string)
    ensures Reversed(s + t) == Reversed(t) + Reversed(s)
  {
  }

  lemma ReversedShort()
    ensures Reversed("") == "" && Reversed("0") == "0" && Reversed("x0") == "0x"
  {
  }

  lemma HexShape(n: nat)
    ensures var body := if n == 0 then "0" else Numerals(LowDigits(n, 16));
            HexText(n) == "0x" + ((if n < 0x10 then "0" else "") + Reversed(body))
  {
    hide LowDigits, Numerals, Reversed;
    var body, pad := if n == 0 then "0" else Numerals(LowDigits(n, 16)), if n < 0x10 then "0" else "";
    ReversedAppend(body + pad, "x0");
    ReversedAppend(body, pad);
    ReversedShort();
  }

  lemma ZeroReads()
    ensures Reversed("0") == "0" && ValueOf("00", 16) == 0
  {
  }

  /** The hexadecimal text is "0x" and at least two digits, at most sixteen, that read as the number. */
  lemma HexReads(n: nat)
    requires n < U64
    ensures 4 <= |HexText(n)| <= 18 && HexText(n)[..2] == "0x" && ValueOf(HexText(n)[2..], 16) == n
  {
    HexShape(n);
    if n == 0 {
      ZeroReads();
      assert HexText(n)[2..] == "00";
    } else {
      HexDigitsFit(n);
      TwoHexDigits(n);
      var digits := Reversed(Numerals(LowDigits(n, 16)));
      DigitsRead(n, 16);
      LeadingZero(digits, 16);
      assert HexText(n)[2..] == if n < 0x10 then "0" + digits else digits;
    }
  }

  lemma TwoHexDigits(n: nat)
    requires n > 0
    ensures |LowDigits(n, 16)| >= if n < 0x10 then 1 else 2
  {
  }

  lemma OneHexDigit(n: nat)
    requires 0 < n < 0x10
    ensures |LowDigits(n, 16)| == 1
  {
  }

  /** Its digits are 0 to 9 and A to F, and it has no more of them than it must, which is two at least. */
  lemma HexPlain(n: nat)
    requires n < U64
    ensures var t := HexText(n);
            && (forall i :: 2 <= i < |t| ==> '0' <= t[i] <= '9' || 'A' <= t[i] <= 'F')
            && |t| > 2 && (t[2] == '0' ==> |t| == 4)
  {
    hide LowDigits, Numerals, Reversed;
    HexShape(n);
    if n == 0 {
      ZeroReads();
    } else {
      var ds := LowDigits(n, 16);
      HighestDigitNonzero(n, 16);
      if n < 0x10 {
        OneHexDigit(n);
      }
      forall i | 0 <= i < |ds|
        ensures var c := Reversed(Numerals(ds))[i];
                ('0' <= c <= '9' || 'A' <= c <= 'F') && (c == '0' <==> ds[|ds| - 1 - i] == 0)
      {
        NumeralValue(ds[|ds| - 1 - i]);
      }
    }
  }

  lemma DecReversed(n: nat)
    requires n > 0
    ensures var ds := LowDigits(n, 10);
            |DecText(n)| == |ds| && forall i :: 0 <= i < |ds| ==> DecText(n)[i] == Numeral(ds[|ds| - 1 - i])
  {
  }

  lemma ZeroText()
    ensures DecText(0) == "0" && ValueOf("0", 10) == 0
  {
    assert "0" == "0" + "";
    LeadingZero("", 10);
  }

  /** The decimal text is one to twenty decimal digits that read as the number, the first not 0 unless it is "0". */
  lemma DecReads(n: nat)
    requires n < U64
    ensures 1 <= |DecText(n)| <= 20 && ValueOf(DecText(n), 10) == n
    ensures forall i :: 0 <= i < |DecText(n)| ==> '0' <= DecText(n)[i] <= '9'
    ensures DecText(n)[0] == '0' ==> DecText(n) == "0" && n == 0
  {
    hide LowDigits, ValueOf, Reversed, Numerals, Numeral;
    if n == 0 {
      ZeroText();
    } else {
      var ds := LowDigits(n, 10);
      DecDigitsFit(n);
      DigitsRead(n, 10);
      HighestDigitNonzero(n, 10);
      DecReversed(n);
      forall i | 0 <= i < |ds| ensures '0' <= DecText(n)[i] <= '9' && (DecText(n)[i] == '0' ==> ds[|ds| - 1 - i] == 0) {
        NumeralValue(ds[|ds| - 1 - i]);
      }
    }
  }
}
