/** hashmap_hash_helper_int_helper: from the CRC of a key to its home slot, and what the mixing loses. */
module HashMix {
  import opened Crc32
  import opened ShiftRegister

  // ---- the code ----

  function Add12(x: bv32): bv32 { x + (x << 12) }

  function Fold22(x: bv32): bv32 { x ^ (x >> 22) }

  function Add4(x: bv32): bv32 { x + (x << 4) }

  function Fold9(x: bv32): bv32 { x ^ (x >> 9) }

  function Add10(x: bv32): bv32 { x + (x << 10) }

  function Fold2(x: bv32): bv32 { x ^ (x >> 2) }

  function Add7(x: bv32): bv32 { x + (x << 7) }

  function Fold12(x: bv32): bv32 { x ^ (x >> 12) }

  /** Robert Jenkins' 32-bit mix. */
  function JenkinsMix(crc: bv32): bv32 {
    Fold12(Add7(Fold2(Add10(Fold9(Add4(Fold22(Add12(crc))))))))
  }

  /** Knuth's multiplicative method. */
  function Spread(k: bv32): bv32 { k * 2654435761 }

  function DropThree(k: bv32): bv32 { k >> 3 }

  function Finish(crc: bv32): bv32 { Spread(DropThree(JenkinsMix(crc))) }

  /** The 32-bit hash of a key, before it is reduced to a table. */
  function KernelHash(key: seq<bv8>): nat { Finish(Crc(key)) as nat }

  method Mix(crc: bv32) returns (key: bv32)
    ensures key == JenkinsMix(crc)
  {
    key := Add12(crc);
    key := Fold22(key);
    key := Add4(key);
    key := Fold9(key);
    key := Add10(key);
    key := Fold2(key);
    key := Add7(key);
    key := Fold12(key);
  }

  method Hash32(keystring: seq<bv8>) returns (key: bv32)
    ensures key == Finish(Crc(keystring))
  {
    var crc := Crc32Helper(keystring);
    var mixed := Mix(crc);
    key := Spread(DropThree(mixed));
  }

  method HashHelperIntHelper(tableSize: nat, keystring: seq<bv8>) returns (home: nat)
    requires tableSize > 0
    ensures home == KernelHash(keystring) % tableSize
  {
    var key := Hash32(keystring);
    home := (key as nat) % tableSize;
  }

  // ---- each step of the mix has an inverse ----

  function Times4097(x: bv32): bv32 { x * 4097 }

  function Undo12(y: bv32): bv32 { y * 16773121 }

  function Times17(x: bv32): bv32 { x * 17 }

  function Undo4(y: bv32): bv32 { y * 4042322161 }

  function Times1025(x: bv32): bv32 { x * 1025 }

  function Undo10(y: bv32): bv32 { y * 3222273025 }

  function Times129(x: bv32): bv32 { x * 129 }

  function Undo7(y: bv32): bv32 { y * 266354561 }

  function Unspread(y: bv32): bv32 { y * 244002641 }

  function Unfold9(y: bv32): bv32 { y ^ (y >> 9) ^ (y >> 18) ^ (y >> 27) }

  function Unfold12(y: bv32): bv32 { y ^ (y >> 12) ^ (y >> 24) }

  function Unfold2(y: bv32): bv32 {
    y ^ (y >> 2) ^ (y >> 4) ^ (y >> 6) ^ (y >> 8) ^ (y >> 10) ^ (y >> 12) ^ (y >> 14)
    ^ (y >> 16) ^ (y >> 18) ^ (y >> 20) ^ (y >> 22) ^ (y >> 24) ^ (y >> 26) ^ (y >> 28) ^ (y >> 30)
  }

  function JenkinsUnmix(y: bv32): bv32 {
    Undo12(Fold22(Undo4(Unfold9(Undo10(Unfold2(Undo7(Unfold12(y))))))))
  }

  type Step = bv32 -> bv32

  ghost predicate UndoesAt(f: Step, g: Step, x: bv32) { g(f(x)) == x }

  // Each inverse is first applied to the step written out, then to the step itself.

  lemma Add12Is(x: bv32) ensures Add12(x) == x * 4097 {}

  lemma Add12Back(x: bv32) ensures Undo12(x * 4097) == x {}

  lemma Add12At(x: bv32) ensures UndoesAt(Add12, Undo12, x) { Add12Is(x); Add12Back(x); }

  lemma Undo12Is(x: bv32) ensures Undo12(x) == x * 16773121 {}

  lemma Add12Times(x: bv32) ensures Add12(x) == Times4097(x) {}

  lemma Undo12Back(x: bv32) ensures Times4097(x * 16773121) == x {}

  lemma Undo12At(x: bv32) ensures UndoesAt(Undo12, Add12, x) { Add12Times(Undo12(x)); Undo12Is(x); Undo12Back(x); }

  lemma Add4Is(x: bv32) ensures Add4(x) == x * 17 {}

  lemma Add4Back(x: bv32) ensures Undo4(x * 17) == x {}

  lemma Add4At(x: bv32) ensures UndoesAt(Add4, Undo4, x) { Add4Is(x); Add4Back(x); }

  lemma Undo4Is(x: bv32) ensures Undo4(x) == x * 4042322161 {}

  lemma Add4Times(x: bv32) ensures Add4(x) == Times17(x) {}

  lemma Undo4Back(x: bv32) ensures Times17(x * 4042322161) == x {}

  lemma Undo4At(x: bv32) ensures UndoesAt(Undo4, Add4, x) { Add4Times(Undo4(x)); Undo4Is(x); Undo4Back(x); }

  lemma Add10Is(x: bv32) ensures Add10(x) == x * 1025 {}

  lemma Add10Back(x: bv32) ensures Undo10(x * 1025) == x {}

  lemma Add10At(x: bv32) ensures UndoesAt(Add10, Undo10, x) { Add10Is(x); Add10Back(x); }

  lemma Undo10Is(x: bv32) ensures Undo10(x) == x * 3222273025 {}

  lemma Add10Times(x: bv32) ensures Add10(x) == Times1025(x) {}

  lemma Undo10Back(x: bv32) ensures Times1025(x * 3222273025) == x {}

  lemma Undo10At(x: bv32) ensures UndoesAt(Undo10, Add10, x) { Add10Times(Undo10(x)); Undo10Is(x); Undo10Back(x); }

  lemma Add7Is(x: bv32) ensures Add7(x) == x * 129 {}

  lemma Add7Back(x: bv32) ensures Undo7(x * 129) == x {}

  lemma Add7At(x: bv32) ensures UndoesAt(Add7, Undo7, x) { Add7Is(x); Add7Back(x); }

  lemma Undo7Is(x: bv32) ensures Undo7(x) == x * 266354561 {}

  lemma Add7Times(x: bv32) ensures Add7(x) == Times129(x) {}

  lemma Undo7Back(x: bv32) ensures Times129(x * 266354561) == x {}

  lemma Undo7At(x: bv32) ensures UndoesAt(Undo7, Add7, x) { Add7Times(Undo7(x)); Undo7Is(x); Undo7Back(x); }

  lemma SpreadIs(x: bv32) ensures Spread(x) == x * 2654435761 {}

  lemma SpreadBack(x: bv32) ensures Unspread(x * 2654435761) == x {}

  lemma SpreadAt(x: bv32) ensures UndoesAt(Spread, Unspread, x) { SpreadIs(x); SpreadBack(x); }

  lemma UnspreadIs(x: bv32) ensures Unspread(x) == x * 244002641 {}

  lemma UnspreadBack(x: bv32) ensures Spread(x * 244002641) == x {}

  lemma UnspreadAt(x: bv32) ensures UndoesAt(Unspread, Spread, x) { UnspreadIs(x); UnspreadBack(x); }

  lemma Fold22Is(x: bv32) ensures Fold22(x) == x ^ (x >> 22) {}

  lemma Fold22Back(x: bv32) ensures Fold22(x ^ (x >> 22)) == x {}

  lemma Fold22At(x: bv32) ensures UndoesAt(Fold22, Fold22, x) { Fold22Is(x); Fold22Back(x); }

  lemma Fold9Is(x: bv32) ensures Fold9(x) == x ^ (x >> 9) {}

  lemma Fold9Back(x: bv32) ensures Unfold9(x ^ (x >> 9)) == x {}

  lemma Fold9At(x: bv32) ensures UndoesAt(Fold9, Unfold9, x) { Fold9Is(x); Fold9Back(x); }

  lemma Unfold9Is(x: bv32) ensures Unfold9(x) == x ^ (x >> 9) ^ (x >> 18) ^ (x >> 27) {}

  lemma Unfold9Back(x: bv32) ensures Fold9(x ^ (x >> 9) ^ (x >> 18) ^ (x >> 27)) == x {}

  lemma Unfold9At(x: bv32) ensures UndoesAt(Unfold9, Fold9, x) { Unfold9Is(x); Unfold9Back(x); }

  lemma Fold12Is(x: bv32) ensures Fold12(x) == x ^ (x >> 12) {}

  lemma Fold12Back(x: bv32) ensures Unfold12(x ^ (x >> 12)) == x {}

  lemma Fold12At(x: bv32) ensures UndoesAt(Fold12, Unfold12, x) { Fold12Is(x); Fold12Back(x); }

  lemma Unfold12Is(x: bv32) ensures Unfold12(x) == x ^ (x >> 12) ^ (x >> 24) {}

  lemma Unfold12Back(x: bv32) ensures Fold12(x ^ (x >> 12) ^ (x >> 24)) == x {}

  lemma Unfold12At(x: bv32) ensures UndoesAt(Unfold12, Fold12, x) { Unfold12Is(x); Unfold12Back(x); }

  lemma Fold2Is(x: bv32) ensures Fold2(x) == x ^ (x >> 2) {}

  lemma Fold2Back(x: bv32) ensures Unfold2(x ^ (x >> 2)) == x {}

  lemma Fold2At(x: bv32) ensures UndoesAt(Fold2, Unfold2, x) { Fold2Is(x); Fold2Back(x); }

  lemma Unfold2Is(x: bv32) ensures Unfold2(x) == x ^ (x >> 2) ^ (x >> 4) ^ (x >> 6) ^ (x >> 8) ^ (x >> 10) ^ (x >> 12) ^ (x >> 14)
    ^ (x >> 16) ^ (x >> 18) ^ (x >> 20) ^ (x >> 22) ^ (x >> 24) ^ (x >> 26) ^ (x >> 28) ^ (x >> 30) {}

  lemma Unfold2Back(x: bv32) ensures Fold2(x ^ (x >> 2) ^ (x >> 4) ^ (x >> 6) ^ (x >> 8) ^ (x >> 10) ^ (x >> 12) ^ (x >> 14)
    ^ (x >> 16) ^ (x >> 18) ^ (x >> 20) ^ (x >> 22) ^ (x >> 24) ^ (x >> 26) ^ (x >> 28) ^ (x >> 30)) == x {}

  lemma Unfold2At(x: bv32) ensures UndoesAt(Unfold2, Fold2, x) { Unfold2Is(x); Unfold2Back(x); }

  /** Eight steps that can each be undone are undone in the opposite order. */
  lemma UndoEight(f1: Step, b1: Step, f2: Step, b2: Step, f3: Step, b3: Step, f4: Step, b4: Step,
                  f5: Step, b5: Step, f6: Step, b6: Step, f7: Step, b7: Step, f8: Step, b8: Step, x: bv32)
    requires forall x :: UndoesAt(f1, b1, x) && UndoesAt(f2, b2, x) && UndoesAt(f3, b3, x) && UndoesAt(f4, b4, x)
    requires forall x :: UndoesAt(f5, b5, x) && UndoesAt(f6, b6, x) && UndoesAt(f7, b7, x) && UndoesAt(f8, b8, x)
    ensures b1(b2(b3(b4(b5(b6(b7(b8(f8(f7(f6(f5(f4(f3(f2(f1(x)))))))))))))))) == x
  {
    var x1 := f1(x);
    var x2 := f2(x1);
    var x3 := f3(x2);
    var x4 := f4(x3);
    var x5 := f5(x4);
    var x6 := f6(x5);
    var x7 := f7(x6);
    assert UndoesAt(f8, b8, x7) && UndoesAt(f7, b7, x6) && UndoesAt(f6, b6, x5) && UndoesAt(f5, b5, x4);
    assert UndoesAt(f4, b4, x3) && UndoesAt(f3, b3, x2) && UndoesAt(f2, b2, x1) && UndoesAt(f1, b1, x);
  }

  lemma MixIsUndone(x: bv32)
    ensures JenkinsUnmix(JenkinsMix(x)) == x
  {
    forall x ensures UndoesAt(Add12, Undo12, x) && UndoesAt(Fold22, Fold22, x) && UndoesAt(Add4, Undo4, x) && UndoesAt(Fold9, Unfold9, x) {
      Add12At(x); Fold22At(x); Add4At(x); Fold9At(x);
    }
    forall x ensures UndoesAt(Add10, Undo10, x) && UndoesAt(Fold2, Unfold2, x) && UndoesAt(Add7, Undo7, x) && UndoesAt(Fold12, Unfold12, x) {
      Add10At(x); Fold2At(x); Add7At(x); Fold12At(x);
    }
    UndoEight(Add12, Undo12, Fold22, Fold22, Add4, Undo4, Fold9, Unfold9,
              Add10, Undo10, Fold2, Unfold2, Add7, Undo7, Fold12, Unfold12, x);
  }

  lemma UnmixIsUndone(y: bv32)
    ensures JenkinsMix(JenkinsUnmix(y)) == y
  {
    forall x ensures UndoesAt(Undo12, Add12, x) && UndoesAt(Fold22, Fold22, x) && UndoesAt(Undo4, Add4, x) && UndoesAt(Unfold9, Fold9, x) {
      Undo12At(x); Fold22At(x); Undo4At(x); Unfold9At(x);
    }
    forall x ensures UndoesAt(Undo10, Add10, x) && UndoesAt(Unfold2, Fold2, x) && UndoesAt(Undo7, Add7, x) && UndoesAt(Unfold12, Fold12, x) {
      Undo10At(x); Unfold2At(x); Undo7At(x); Unfold12At(x);
    }
    UndoEight(Unfold12, Fold12, Undo7, Add7, Unfold2, Fold2, Undo10, Add10,
              Unfold9, Fold9, Undo4, Add4, Fold22, Fold22, Undo12, Add12, y);
  }

  // ---- how many CRCs share a hash ----

  function Low3(m: bv32): bv32 { m & 7 }

  predicate IsLane(j: bv32) { j < 8 }

  /** The word that agrees with m but for the three bits the shift drops, which are j. */
  function Lane(m: bv32, j: bv32): bv32 { (m & 0xFFFF_FFF8) ^ j }

  lemma LaneDropped(m: bv32, j: bv32)
    requires IsLane(j)
    ensures DropThree(Lane(m, j)) == DropThree(m) && Low3(Lane(m, j)) == j
  {
  }

  lemma LaneOf(m: bv32, n: bv32)
    requires DropThree(m) == DropThree(n)
    ensures Lane(m, Low3(n)) == n && IsLane(Low3(n))
  {
  }

  ghost predicate LaneKeptAt(lane: (bv32, bv32) -> bv32, low: Step, drop: Step, isLane: bv32 -> bool, m: bv32, j: bv32) {
    isLane(j) ==> drop(lane(m, j)) == drop(m) && low(lane(m, j)) == j
  }

  ghost predicate LaneFoundAt(lane: (bv32, bv32) -> bv32, low: Step, drop: Step, isLane: bv32 -> bool, m: bv32, n: bv32) {
    drop(m) == drop(n) ==> lane(m, low(n)) == n && isLane(low(n))
  }

  /** Undoing a bijection on the lanes of its value gives exactly the words that share what is kept of it. */
  lemma LanesOfBijection(mix: Step, unmix: Step, lane: (bv32, bv32) -> bv32, low: Step, drop: Step,
                         isLane: bv32 -> bool, c: bv32, d: bv32)
    requires forall x :: UndoesAt(mix, unmix, x) && UndoesAt(unmix, mix, x)
    requires forall m, j :: LaneKeptAt(lane, low, drop, isLane, m, j)
    requires forall m, n :: LaneFoundAt(lane, low, drop, isLane, m, n)
    ensures drop(mix(d)) == drop(mix(c)) ==> isLane(low(mix(d))) && d == unmix(lane(mix(c), low(mix(d))))
    ensures forall j :: isLane(j) && d == unmix(lane(mix(c), j)) ==> drop(mix(d)) == drop(mix(c)) && j == low(mix(d))
  {
    assert UndoesAt(mix, unmix, d);
    assert LaneFoundAt(lane, low, drop, isLane, mix(c), mix(d));
    forall j | isLane(j) && d == unmix(lane(mix(c), j)) ensures drop(mix(d)) == drop(mix(c)) && j == low(mix(d)) {
      assert UndoesAt(unmix, mix, lane(mix(c), j)) && LaneKeptAt(lane, low, drop, isLane, mix(c), j);
    }
  }

  lemma SameDrop(c: bv32, d: bv32)
    ensures Finish(c) == Finish(d) <==> DropThree(JenkinsMix(c)) == DropThree(JenkinsMix(d))
  {
    SpreadAt(DropThree(JenkinsMix(c)));
    SpreadAt(DropThree(JenkinsMix(d)));
  }

  /** The CRC whose mix is lane j of the mix of c. */
  function Sibling(c: bv32, j: bv32): bv32 { JenkinsUnmix(Lane(JenkinsMix(c), j)) }

  function LaneNumber(d: bv32): bv32 { Low3(JenkinsMix(d)) }

  /** The CRCs that end in the same hash as c are its eight siblings, all different: d is one of them exactly when it
      is the one its own dropped bits number. */
  lemma EightToOne(c: bv32, d: bv32)
    ensures Finish(d) == Finish(c) ==> IsLane(LaneNumber(d)) && d == Sibling(c, LaneNumber(d))
    ensures forall j :: IsLane(j) && d == Sibling(c, j) ==> Finish(d) == Finish(c) && j == LaneNumber(d)
  {
    forall x ensures UndoesAt(JenkinsMix, JenkinsUnmix, x) && UndoesAt(JenkinsUnmix, JenkinsMix, x) {
      MixIsUndone(x);
      UnmixIsUndone(x);
    }
    forall m, j ensures LaneKeptAt(Lane, Low3, DropThree, IsLane, m, j) {
      if IsLane(j) { LaneDropped(m, j); }
    }
    forall m, n ensures LaneFoundAt(Lane, Low3, DropThree, IsLane, m, n) {
      if DropThree(m) == DropThree(n) { LaneOf(m, n); }
    }
    LanesOfBijection(JenkinsMix, JenkinsUnmix, Lane, Low3, DropThree, IsLane, c, d);
    SameDrop(c, d);
  }

  /** So every hash that occurs comes from exactly eight CRCs. */
  lemma EightSiblings(c: bv32, j: bv32, k: bv32)
    requires IsLane(j) && IsLane(k)
    ensures Finish(Sibling(c, j)) == Finish(c)
    ensures Sibling(c, j) == Sibling(c, k) ==> j == k
  {
    EightToOne(c, Sibling(c, j));
    EightToOne(c, Sibling(c, k));
  }

  lemma HashInImage(c: bv32)
    ensures Unspread(Finish(c)) < 0x2000_0000
  {
    SpreadAt(DropThree(JenkinsMix(c)));
    DropIsSmall(JenkinsMix(c));
  }

  lemma DropIsSmall(m: bv32)
    ensures DropThree(m) < 0x2000_0000
  {
  }

  lemma DropOfShift(u: bv32)
    requires u < 0x2000_0000
    ensures DropThree(u << 3) == u
  {
  }

  lemma ImageHashed(h: bv32)
    requires Unspread(h) < 0x2000_0000
    ensures exists c :: Finish(c) == h
  {
    var c := JenkinsUnmix(Unspread(h) << 3);
    UnmixIsUndone(Unspread(h) << 3);
    DropOfShift(Unspread(h));
    UnspreadAt(h);
    assert Finish(c) == h;
  }

  /** Keys of zero bytes only all hash alike, whatever their length. */
  lemma ZeroKeysCollide(m: nat, n: nat)
    ensures KernelHash(Repeat(0, m)) == KernelHash(Repeat(0, n))
  {
    assert Repeat(0 as bv8, m) + [] == Repeat(0, m) && Repeat(0 as bv8, n) + [] == Repeat(0, n);
    CrcLeadingZeros(m, []);
    CrcLeadingZeros(n, []);
  }
}
