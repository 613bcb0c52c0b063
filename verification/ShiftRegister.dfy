/** Division by a polynomial as a register that is shifted. The facts here need only the algebra of XOR and shift,
    so the words are left abstract. */
module ShiftRegister {

  /** Feed a sequence to a register, first item first. */
  function Fold<R, B>(step: (R, B) -> R, init: R, s: seq<B>): R {
    if s == [] then init else step(Fold(step, init, s[..|s| - 1]), s[|s| - 1])
  }

  lemma FoldAppend<R, B>(step: (R, B) -> R, init: R, s: seq<B>, b: B)
    ensures Fold(step, init, s + [b]) == step(Fold(step, init, s), b)
  {
  }

  ghost predicate CarriesAt<R, Q, B>(h: R -> Q, step: (R, B) -> R, step': (Q, B) -> Q, r: R, b: B) {
    h(step(r, b)) == step'(h(r), b)
  }

  /** A map that carries one step to another carries the folds. */
  lemma {:induction false} FoldCarried<R(!new), Q(!new), B(!new)>(
      h: R -> Q, step: (R, B) -> R, step': (Q, B) -> Q, init: R, s: seq<B>)
    requires forall r: R, b: B :: CarriesAt(h, step, step', r, b)
    ensures h(Fold(step, init, s)) == Fold(step', h(init), s)
  {
    if s != [] {
      FoldCarried(h, step, step', init, s[..|s| - 1]);
      assert CarriesAt(h, step, step', Fold(step, init, s[..|s| - 1]), s[|s| - 1]);
    }
  }

  /** A register: its words, XOR, the one-place shift modulo the polynomial, halving, and the lowest bit.
      `low` is the word of the highest power, at the output end, and `top` the word of the constant term. */
  datatype Register<!W> = Register(
    zero: W, low: W, top: W, xor: (W, W) -> W, shift: W -> W, half: W -> W, odd: W -> bool)
  {
    function Low(bit: bool): W { if bit then low else zero }

    function Top(bit: bool): W { if bit then top else zero }

    /** The serial circuit: each bit meets the register at its output end. */
    function SerialStep(r: W, bit: bool): W { shift(xor(r, Low(bit))) }

    /** Division by hand: shift, then bring the next coefficient in at the other end. */
    function BringStep(r: W, bit: bool): W { xor(shift(r), Top(bit)) }

    function Power(n: nat, c: W): W { if n == 0 then c else Power(n - 1, shift(c)) }

    function Drop(n: nat, b: W): W { if n == 0 then b else Drop(n - 1, half(b)) }

    /** The n lowest bits of a word, lowest first. */
    function Bits(b: W, n: nat): (bits: seq<bool>)
      ensures |bits| == n
    {
      if n == 0 then [] else [odd(b)] + Bits(half(b), n - 1)
    }

    ghost predicate XorsAt(c: W) { xor(c, zero) == c }

    ghost predicate AssociatesAt(c: W, d: W, e: W) { xor(xor(c, d), e) == xor(c, xor(d, e)) }

    ghost predicate CommutesAt(c: W, d: W) { xor(c, d) == xor(d, c) }

    ghost predicate LinearAt(c: W, d: W) { shift(xor(c, d)) == xor(shift(c), shift(d)) }

    /** XORing a word in before a shift is XORing its lowest bit in before and the rest after. */
    ghost predicate InjectsAt(c: W, b: W) { shift(xor(c, b)) == xor(shift(xor(c, Low(odd(b)))), half(b)) }
  }

  ghost predicate Lawful<W(!new)>(k: Register<W>) {
    && (forall c :: k.XorsAt(c))
    && (forall c, d, e :: k.AssociatesAt(c, d, e))
    && (forall c, d :: k.CommutesAt(c, d))
    && (forall c, d :: k.LinearAt(c, d))
    && (forall c, b :: k.InjectsAt(c, b))
    && k.shift(k.zero) == k.zero
    && k.Power(32, k.top) == k.shift(k.low) && k.Power(32, k.zero) == k.zero
  }

  function Zeros(n: nat): (bits: seq<bool>)
    ensures |bits| == n
  {
    seq(n, _ => false)
  }

  lemma {:induction false} PowerXor<W(!new)>(k: Register<W>, n: nat, c: W, d: W)
    requires Lawful(k)
    ensures k.Power(n, k.xor(c, d)) == k.xor(k.Power(n, c), k.Power(n, d))
  {
    if n > 0 {
      assert k.LinearAt(c, d);
      PowerXor(k, n - 1, k.shift(c), k.shift(d));
    }
  }

  lemma {:induction false} PowerCommutes<W>(k: Register<W>, n: nat, c: W)
    ensures k.Power(n, k.shift(c)) == k.shift(k.Power(n, c))
  {
    if n > 0 {
      PowerCommutes(k, n - 1, k.shift(c));
    }
  }

  lemma {:induction false} PowerAdd<W>(k: Register<W>, m: nat, n: nat, c: W)
    ensures k.Power(n, k.Power(m, c)) == k.Power(m + n, c)
  {
    if m > 0 {
      PowerAdd(k, m - 1, n, k.shift(c));
    }
  }

  lemma PowerEight<W>(k: Register<W>, c: W)
    ensures k.Power(8, c) ==
            k.shift(k.shift(k.shift(k.shift(k.shift(k.shift(k.shift(k.shift(c))))))))
  {
    var d := k.shift(k.shift(k.shift(k.shift(c))));
    assert k.Power(8, c) == k.Power(6, k.shift(k.shift(c)));
    assert k.Power(6, k.shift(k.shift(c))) == k.Power(4, d);
    assert k.Power(4, d) == k.Power(2, k.shift(k.shift(d)));
    assert k.Power(2, k.shift(k.shift(d))) == k.Power(1, k.shift(k.shift(k.shift(d))));
  }

  lemma DropTwo<W>(k: Register<W>, c: W)
    ensures k.Drop(2, c) == k.half(k.half(c))
  {
    assert k.Drop(2, c) == k.Drop(1, k.half(c));
  }

  lemma DropEight<W>(k: Register<W>, c: W)
    ensures k.Drop(8, c) ==
            k.half(k.half(k.half(k.half(k.half(k.half(k.half(k.half(c))))))))
  {
    var d := k.half(k.half(k.half(k.half(c))));
    assert k.Drop(8, c) == k.Drop(6, k.half(k.half(c)));
    assert k.Drop(6, k.half(k.half(c))) == k.Drop(4, d);
    assert k.Drop(4, d) == k.Drop(2, k.half(k.half(d)));
    assert k.Drop(2, k.half(k.half(d))) == k.Drop(1, k.half(k.half(k.half(d))));
  }

  /** The circuit computes the remainder of the message with 32 zero coefficients appended. */
  lemma {:induction false} SerialIsPadded<W(!new)>(k: Register<W>, bits: seq<bool>)
    requires Lawful(k)
    ensures Fold(k.SerialStep, k.zero, bits) == k.Power(32, Fold(k.BringStep, k.zero, bits))
  {
    if bits != [] {
      var before, bit := bits[..|bits| - 1], bits[|bits| - 1];
      SerialIsPadded(k, before);
      var r := Fold(k.BringStep, k.zero, before);
      PowerXor(k, 32, k.shift(r), k.Top(bit));
      PowerCommutes(k, 32, r);
      assert k.LinearAt(Fold(k.SerialStep, k.zero, before), k.Low(bit));
    }
  }

  lemma {:induction false} PadZeros<W(!new)>(k: Register<W>, bits: seq<bool>, n: nat)
    requires Lawful(k)
    ensures Fold(k.BringStep, k.zero, bits + Zeros(n)) == k.Power(n, Fold(k.BringStep, k.zero, bits))
  {
    if n == 0 {
      assert bits + Zeros(n) == bits;
    } else {
      assert bits + Zeros(n) == (bits + Zeros(n - 1)) + [false];
      FoldAppend(k.BringStep, k.zero, bits + Zeros(n - 1), false);
      assert k.XorsAt(k.shift(Fold(k.BringStep, k.zero, bits + Zeros(n - 1))));
      PadZeros(k, bits, n - 1);
      PowerCommutes(k, n - 1, Fold(k.BringStep, k.zero, bits));
    }
  }

  /** Feeding a word's low bits to the circuit one by one is XORing the word in and shifting. */
  lemma {:induction false} SerialBits<W(!new)>(k: Register<W>, bits: seq<bool>, b: W, n: nat)
    requires Lawful(k)
    ensures k.xor(Fold(k.SerialStep, k.zero, bits + k.Bits(b, n)), k.Drop(n, b))
         == k.Power(n, k.xor(Fold(k.SerialStep, k.zero, bits), b))
    decreases n
  {
    if n == 0 {
      assert bits + k.Bits(b, n) == bits;
    } else {
      var longer := bits + [k.odd(b)];
      assert bits + k.Bits(b, n) == longer + k.Bits(k.half(b), n - 1);
      FoldAppend(k.SerialStep, k.zero, bits, k.odd(b));
      SerialBits(k, longer, k.half(b), n - 1);
      var r := Fold(k.SerialStep, k.zero, bits);
      assert k.InjectsAt(r, b);
      assert k.AssociatesAt(k.shift(k.xor(r, k.Low(k.odd(b)))), k.half(b), k.zero);
    }
  }

  predicate NoLowBits<W>(k: Register<W>, n: nat, z: W) {
    n == 0 || (!k.odd(z) && NoLowBits(k, n - 1, k.half(z)))
  }

  lemma {:induction false} NoLowBitsAdd<W>(k: Register<W>, m: nat, n: nat, z: W)
    requires NoLowBits(k, m, z) && NoLowBits(k, n, k.Drop(m, z))
    ensures NoLowBits(k, m + n, z)
  {
    if m > 0 {
      NoLowBitsAdd(k, m - 1, n, k.half(z));
    }
  }

  /** Bits that do not reach the low end in n shifts are only moved down. */
  lemma {:induction false} HighBits<W(!new)>(k: Register<W>, n: nat, c: W, z: W)
    requires Lawful(k) && NoLowBits(k, n, z)
    ensures k.Power(n, k.xor(c, z)) == k.xor(k.Power(n, c), k.Drop(n, z))
  {
    if n > 0 {
      assert k.InjectsAt(c, z) && k.XorsAt(c);
      HighBits(k, n - 1, k.shift(c), k.half(z));
    }
  }

  // ---- bytes ----

  /** One step with a byte is XORing it in and shifting eight times; nothing of the byte itself is left over. */
  ghost predicate ByteShiftsAt<W, Y>(k: Register<W>, step: (W, Y) -> W, wide: Y -> W, c: W, b: Y) {
    step(c, b) == k.Power(8, k.xor(c, wide(b))) && k.Drop(8, wide(b)) == k.zero
  }

  function ByteCoefficients<W, Y>(k: Register<W>, wide: Y -> W, s: seq<Y>): seq<bool> {
    if s == [] then [] else ByteCoefficients(k, wide, s[..|s| - 1]) + k.Bits(wide(s[|s| - 1]), 8)
  }

  /** A register stepped by bytes is the serial circuit fed their bits. */
  lemma {:induction false} SerialBytes<W(!new), Y(!new)>(k: Register<W>, step: (W, Y) -> W, wide: Y -> W, s: seq<Y>)
    requires Lawful(k) && forall c: W, b: Y :: ByteShiftsAt(k, step, wide, c, b)
    ensures Fold(step, k.zero, s) == Fold(k.SerialStep, k.zero, ByteCoefficients(k, wide, s))
  {
    if s != [] {
      var before, b := s[..|s| - 1], s[|s| - 1];
      SerialBytes(k, step, wide, before);
      var bits := ByteCoefficients(k, wide, before);
      assert ByteShiftsAt(k, step, wide, Fold(step, k.zero, before), b);
      SerialBits(k, bits, wide(b), 8);
      assert k.XorsAt(Fold(k.SerialStep, k.zero, bits + k.Bits(wide(b), 8)));
    }
  }

  function Zip<Y>(plus: (Y, Y) -> Y, s: seq<Y>, t: seq<Y>): (r: seq<Y>)
    requires |s| == |t|
    ensures |r| == |s|
  {
    seq(|s|, i requires 0 <= i < |s| => plus(s[i], t[i]))
  }

  ghost predicate WidensAt<W, Y>(k: Register<W>, wide: Y -> W, plus: (Y, Y) -> Y, a: Y, b: Y) {
    wide(plus(a, b)) == k.xor(wide(a), wide(b))
  }

  lemma Exchange<W(!new)>(k: Register<W>, c: W, d: W, a: W, b: W)
    requires Lawful(k)
    ensures k.xor(k.xor(c, d), k.xor(a, b)) == k.xor(k.xor(c, a), k.xor(d, b))
  {
    calc {
      k.xor(k.xor(c, d), k.xor(a, b));
    ==  { assert k.AssociatesAt(c, d, k.xor(a, b)); }
      k.xor(c, k.xor(d, k.xor(a, b)));
    ==  { assert k.AssociatesAt(d, a, b); }
      k.xor(c, k.xor(k.xor(d, a), b));
    ==  { assert k.CommutesAt(d, a); }
      k.xor(c, k.xor(k.xor(a, d), b));
    ==  { assert k.AssociatesAt(a, d, b); }
      k.xor(c, k.xor(a, k.xor(d, b)));
    ==  { assert k.AssociatesAt(c, a, k.xor(d, b)); }
      k.xor(k.xor(c, a), k.xor(d, b));
    }
  }

  lemma {:induction false} BytesLinear<W(!new), Y(!new)>(
      k: Register<W>, step: (W, Y) -> W, wide: Y -> W, plus: (Y, Y) -> Y, s: seq<Y>, t: seq<Y>)
    requires Lawful(k) && forall c: W, b: Y :: ByteShiftsAt(k, step, wide, c, b)
    requires forall a, b :: WidensAt(k, wide, plus, a, b)
    requires |s| == |t|
    ensures Fold(step, k.zero, Zip(plus, s, t)) == k.xor(Fold(step, k.zero, s), Fold(step, k.zero, t))
  {
    assert k.XorsAt(k.zero);
    if s != [] {
      var n := |s| - 1;
      var c, d, a, b := Fold(step, k.zero, s[..n]), Fold(step, k.zero, t[..n]), s[n], t[n];
      assert Zip(plus, s, t)[..n] == Zip(plus, s[..n], t[..n]);
      BytesLinear(k, step, wide, plus, s[..n], t[..n]);
      assert ByteShiftsAt(k, step, wide, c, a) && ByteShiftsAt(k, step, wide, d, b);
      assert ByteShiftsAt(k, step, wide, k.xor(c, d), plus(a, b));
      assert WidensAt(k, wide, plus, a, b);
      Exchange(k, c, d, wide(a), wide(b));
      PowerXor(k, 8, k.xor(c, wide(a)), k.xor(d, wide(b)));
    }
  }

  // ---- leading items that do nothing ----

  function Repeat<B>(b: B, n: nat): (s: seq<B>)
    ensures |s| == n
  {
    seq(n, _ => b)
  }

  lemma {:induction false} FoldLeading<R, B>(step: (R, B) -> R, init: R, b: B, n: nat, s: seq<B>)
    requires step(init, b) == init
    ensures Fold(step, init, Repeat(b, n) + s) == Fold(step, init, s)
    decreases |s|, n
  {
    if s != [] {
      var t := Repeat(b, n) + s;
      assert t[..|t| - 1] == Repeat(b, n) + s[..|s| - 1];
      FoldLeading(step, init, b, n, s[..|s| - 1]);
    } else if n > 0 {
      var t := Repeat(b, n) + s;
      assert t[..|t| - 1] == Repeat(b, n - 1) + s;
      FoldLeading(step, init, b, n - 1, s);
    }
  }
}
