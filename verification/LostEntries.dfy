/** A put that loses fourteen entries under the kernel's own hash: sixteen keys of one byte each, a table of sixteen
    slots, and a heap that refuses its third request. */
module LostEntries {
  import opened Bits
  import opened ProbeTable
  import opened Allocation
  import opened Moves
  import opened Growth
  import opened HashMap
  import opened Crc32
  import opened Crc32Table
  import opened HashMix
  import opened ShiftRegister

  // ---- the keys ----

  function ByteOf(i: nat): bv8
    requires i < 16
  {
    match i
    case 0 => 3 case 1 => 66 case 2 => 82 case 3 => 131 case 4 => 137 case 5 => 145 case 6 => 184 case 7 => 222
    case 8 => 28 case 9 => 56 case 10 => 92 case 11 => 106 case 12 => 130 case 13 => 156 case 14 => 233 case _ => 63
  }

  /** Which of the sixteen a byte is. */
  function Rank(b: bv8): nat {
    match b
    case 3 => 0 case 66 => 1 case 82 => 2 case 131 => 3 case 137 => 4 case 145 => 5 case 184 => 6 case 222 => 7
    case 28 => 8 case 56 => 9 case 92 => 10 case 106 => 11 case 130 => 12 case 156 => 13 case 233 => 14 case 63 => 15
    case _ => 16
  }

  function KeyOf(i: nat): (key: Key)
    requires i < 16
    ensures |key| == 1 && Rank(key[0]) == i
  {
    [ByteOf(i)]
  }

  /** The bytes among a set of keys come before the k-th. */
  ghost predicate RanksBelow(keys: set<Key>, k: nat) {
    forall key :: key in keys ==> |key| == 1 && Rank(key[0]) < k
  }

  lemma StepFromZero(b: bv8)
    ensures ByteStep(0, b) == Crc32Tab(b)
  {
    hide Crc32Tab;
    assert LowPart(0, b) == b;
    assert (0 as bv32) >> 8 == 0;
  }

  lemma CrcOne(b: bv8)
    ensures Crc([b]) == Crc32Tab(b)
  {
    hide ByteStep;
    assert [b][..0] == [];
    assert Fold(ByteStep, 0, []) == 0;
    StepFromZero(b);
  }

  lemma HashOne(b: bv8, crc: bv32, h: bv32)
    requires Crc32Tab(b) == crc && Finish(crc) == h
    ensures KernelHash([b]) == h as nat
  {
    CrcOne(b);
  }

  lemma FirstHashes()
    ensures KernelHash([3]) % 32 == 9
    ensures KernelHash([66]) % 32 == 9
    ensures KernelHash([82]) % 32 == 9
    ensures KernelHash([131]) % 32 == 9
    ensures KernelHash([137]) % 32 == 9
    ensures KernelHash([145]) % 32 == 9
    ensures KernelHash([184]) % 32 == 9
    ensures KernelHash([222]) % 32 == 9
  {
    hide KernelHash;
    HashOne(3, 0x1350F3F4, 0xBFF57A69);
    HashOne(66, 0xA0406D4B, 0x4E0EDF09);
    HashOne(82, 0xB01EAA24, 0xA8753049);
    HashOne(131, 0x91A6C88C, 0x5C5C5649);
    HashOne(137, 0xFA44E0B4, 0x05344CA9);
    HashOne(145, 0x60C37F14, 0x8E909A89);
    HashOne(184, 0x38CC2A06, 0xD9B87849);
    HashOne(222, 0x7FAB5E8C, 0x7CC16329);
  }

  lemma LastHashes()
    ensures KernelHash([28]) % 32 == 16
    ensures KernelHash([56]) % 32 == 16
    ensures KernelHash([92]) % 32 == 16
    ensures KernelHash([106]) % 32 == 16
    ensures KernelHash([130]) % 32 == 16
    ensures KernelHash([156]) % 32 == 16
    ensures KernelHash([233]) % 32 == 16
    ensures KernelHash([63]) % 32 == 10
  {
    hide KernelHash;
    HashOne(28, 0x5D1D08BF, 0xDF485450);
    HashOne(56, 0xBA3A117E, 0xC611FE90);
    HashOne(92, 0x1C661503, 0x8AC1E170);
    HashOne(106, 0x0A24BB5A, 0x5A08D6D0);
    HashOne(130, 0x63CD4B8F, 0x1E518370);
    HashOne(156, 0xDFEB33C7, 0xE65CB510);
    HashOne(233, 0x9B8273D6, 0x88B3A170);
    HashOne(63, 0x6EF07595, 0xD832DF4A);
  }

  /** Eight keys have hash 9 modulo 32, seven 16 and the last 10. */
  lemma HashesAre(i: nat)
    requires i < 16
    ensures KernelHash(KeyOf(i)) % 32 == if i < 8 then 9 else if i < 15 then 16 else 10
  {
    hide KernelHash, Rank;
    FirstHashes();
    LastHashes();
  }

  function Entry(i: nat): Element<nat>
    requires i < 16
  {
    Element(KeyOf(i), 1, true, i)
  }

  lemma ModHalf(h: nat)
    ensures h % 16 == if h % 32 < 16 then h % 32 else h % 32 - 16
  {
    var q, r := h / 32, h % 32;
    assert h == 16 * (2 * q) + r;
    if r < 16 {
      assert h / 16 == 2 * q;
    } else {
      assert h / 16 == 2 * q + 1;
    }
  }

  lemma HomeIs(i: nat, n: nat)
    requires i < 16 && (n == 16 || n == 32)
    ensures Home(KernelHash, KeyOf(i), n) == if i < 8 then 9 else if i < 15 then n - 16 else 10
  {
    hide KernelHash, KeyOf;
    HashesAre(i);
    ModHalf(KernelHash(KeyOf(i)));
  }

  // ---- the table of sixteen ----

  /** The key that slot s gets. */
  function KeyAt(s: nat): nat
    requires s < 16
  {
    if s < 9 then s + 7 else s - 9
  }

  /** Where put places key k after those before it: the first eight from slot 9 on, the others behind them. */
  function PlaceOf(k: nat): nat
    requires k < 15
  {
    if k < 7 then k + 9 else k - 7
  }

  function Sixteen(k: nat): (t: seq<Element<nat>>)
    requires k <= 15
    ensures |t| == 16
  {
    seq(16, s requires 0 <= s < 16 => if KeyAt(s) < k then Entry(KeyAt(s)) else Blank(0))
  }

  /** All slots but slot 8 are taken in the end. */
  lemma SixteenAt(s: nat)
    requires s < 16
    ensures Sixteen(15)[s] == if s == 8 then Blank(0) else Entry(KeyAt(s))
  {
  }

  lemma PowersUsed()
    ensures PowerOfTwo(16) && PowerOfTwo(32) && PowerOfTwo(64)
    ensures Doubled(16) == 32 && Doubled(32) == 64
  {
    assert PowerOfTwo(2);
    assert PowerOfTwo(4);
    assert PowerOfTwo(8);
  }

  lemma {:induction false} SixteenLegal(k: nat)
    requires k <= 15
    ensures TableInv(KernelHash, Sixteen(k)) && |Live(Sixteen(k))| == k
    ensures |Contents(Sixteen(k))| == k && RanksBelow(Contents(Sixteen(k)).Keys, k)
  {
    hide Sixteen, TableInv, Chosen, Live;
    if k == 0 {
      SixteenEmpty();
    } else {
      SixteenLegal(k - 1);
      SixteenStep(k - 1);
      OneMore(KernelHash, Sixteen(k - 1), PlaceOf(k - 1), Entry(k - 1));
    }
  }

  lemma SixteenEmpty()
    ensures TableInv(KernelHash, Sixteen(0)) && |Live(Sixteen(0))| == 0 && Contents(Sixteen(0)) == map[]
  {
    PowersUsed();
    FreshTable(KernelHash, 16, 0 as nat);
    assert Sixteen(0) == seq(16, _ => Blank(0));
  }

  lemma OneMore(hash: Key -> nat, t: seq<Element<nat>>, i: nat, e: Element<nat>)
    requires TableInv(hash, t) && Storable(e) && Chosen(hash, t, e.key, i) && !t[i].inUse && e.key !in Contents(t)
    ensures TableInv(hash, t[i := e]) && |Live(t[i := e])| == |Live(t)| + 1
    ensures Contents(t[i := e]) == Contents(t)[e.key := e.data] && |Contents(t[i := e])| == |Contents(t)| + 1
  {
    Store(hash, t, i, e.key, e.data);
    NewKey(Contents(t), e.key, e.data);
  }

  lemma NewKey(m: map<Key, nat>, key: Key, value: nat)
    requires key !in m
    ensures |m[key := value]| == |m| + 1
  {
  }

  lemma SixteenMore(k: nat)
    requires k < 15
    ensures Sixteen(k + 1) == Sixteen(k)[PlaceOf(k) := Entry(k)] && !Sixteen(k)[PlaceOf(k)].inUse
  {
    hide KeyOf;
    forall s: nat | s < 16 ensures KeyAt(s) == k <==> s == PlaceOf(k) {
    }
  }

  lemma SixteenStep(k: nat)
    requires k < 15 && TableInv(KernelHash, Sixteen(k)) && RanksBelow(Contents(Sixteen(k)).Keys, k)
    ensures KeyOf(k) !in Contents(Sixteen(k)) && !Sixteen(k)[PlaceOf(k)].inUse
    ensures Chosen(KernelHash, Sixteen(k), KeyOf(k), PlaceOf(k))
    ensures Sixteen(k + 1) == Sixteen(k)[PlaceOf(k) := Entry(k)]
  {
    hide KernelHash, KeyOf, Rank;
    HomeIs(k, 16);
    forall j: nat | Probed(KernelHash, Sixteen(k), KeyOf(k), j) && !Sixteen(k)[j].inUse
      ensures Dist(Home(KernelHash, KeyOf(k), 16), PlaceOf(k), 16) <= Dist(Home(KernelHash, KeyOf(k), 16), j, 16)
    {
      NearerTaken(k, j);
    }
    SixteenMore(k);
  }

  lemma NearerTaken(k: nat, j: nat)
    requires k < 15 && j < 16 && KeyAt(j) >= k
    ensures var home := if k < 8 then 9 else 0; Dist(home, PlaceOf(k), 16) <= Dist(home, j, 16)
  {
  }

  /** There is room for each of the first fifteen keys. */
  lemma SixteenRoom(k: nat)
    requires k < 15
    ensures TableInv(KernelHash, Sixteen(k)) && HasRoom(KernelHash, Sixteen(k), KeyOf(k))
    ensures TableInv(KernelHash, Sixteen(k + 1)) && With(KernelHash, Sixteen(k), Entry(k)) == Sixteen(k + 1)
  {
    SixteenLegal(k);
    SixteenLegal(k + 1);
    SixteenStep(k);
    assert Probed(KernelHash, Sixteen(k), KeyOf(k), PlaceOf(k));
    WithIs(KernelHash, Sixteen(k), Entry(k), PlaceOf(k));
  }

  /** There is none for the sixteenth: the eight slots from 10 on are taken. */
  lemma NoRoomForLast()
    ensures TableInv(KernelHash, Sixteen(15)) && !HasRoom(KernelHash, Sixteen(15), KeyOf(15))
  {
    SixteenLegal(15);
    HomeIs(15, 16);
    forall i: nat | Probed(KernelHash, Sixteen(15), KeyOf(15), i) ensures Sixteen(15)[i].inUse {
      NotEight(i);
    }
  }

  lemma NotEight(i: nat)
    requires i < 16 && Dist(10, i, 16) < 8
    ensures KeyAt(i) < 15
  {
  }

  // ---- the move into a table of thirty-two ----

  /** Where the entry of slot k goes: keys of hash 9 from slot 9 on, those of hash 16 from slot 16 on. */
  function PlaceInMove(k: nat): nat
    requires k < 15
  {
    if k == 0 then 9 else if k < 8 then k + 15 else k + 1
  }

  /** And where what goes to slot s comes from, if anything does. */
  function Source(s: nat): nat {
    if s == 9 then 0 else if 10 <= s < 16 then s - 1 else if 16 <= s < 23 then s - 15 else 15
  }

  /** After k slots. */
  function ThirtyTwo(k: nat): (u: seq<Element<nat>>)
    requires k <= 15
    ensures |u| == 32
  {
    seq(32, s requires 0 <= s < 32 => if Source(s) < k then Entry(KeyAt(Source(s))) else Blank(0))
  }

  lemma {:induction false} MoveReaches(k: nat)
    requires k <= 15 && TableInv(KernelHash, Sixteen(15)) && PowerOfTwo(32)
    ensures var u := Empty(KernelHash, 32, 0 as nat);
            && Filled(KernelHash, Sixteen(15), k, u) == ThirtyTwo(k)
            && forall i: nat :: i < k ==> !Stuck(KernelHash, Sixteen(15), i, u)
    ensures TableInv(KernelHash, ThirtyTwo(k)) && |Live(ThirtyTwo(k))| <= k
    ensures Contents(ThirtyTwo(k)).Keys == KeysMoved(k)
  {
    hide KernelHash, KeyOf, Rank, HasRoom, Sixteen;
    var t, u := Sixteen(15), Empty(KernelHash, 32, 0 as nat);
    if k == 0 {
      assert ThirtyTwo(0) == u;
      FreshTable(KernelHash, 32, 0 as nat);
    } else {
      MoveReaches(k - 1);
      SixteenAt(k - 1);
      if k - 1 == 8 {
        assert ThirtyTwo(9) == ThirtyTwo(8);
        assert KeysMoved(9) == KeysMoved(8);
      } else {
        MoveStep(k - 1);
      }
    }
  }

  /** The keys in the first k slots of the table of sixteen. */
  function KeysMoved(k: nat): set<Key>
    requires k <= 15
  {
    set s: nat | s < k && s != 8 :: KeyOf(KeyAt(s))
  }

  lemma MoveStep(k: nat)
    requires k < 15 && k != 8 && TableInv(KernelHash, ThirtyTwo(k))
    requires |Live(ThirtyTwo(k))| <= k && Contents(ThirtyTwo(k)).Keys == KeysMoved(k)
    ensures HasRoom(KernelHash, ThirtyTwo(k), KeyOf(KeyAt(k)))
    ensures With(KernelHash, ThirtyTwo(k), Entry(KeyAt(k))) == ThirtyTwo(k + 1) && TableInv(KernelHash, ThirtyTwo(k + 1))
    ensures |Live(ThirtyTwo(k + 1))| <= k + 1 && Contents(ThirtyTwo(k + 1)).Keys == KeysMoved(k + 1)
  {
    hide ThirtyTwo, TableInv, Live, Contents;
    var u, e, i := ThirtyTwo(k), Entry(KeyAt(k)), PlaceInMove(k);
    PlaceIsChosen(k);
    RoomFor(u, e.key, i);
    WithIs(KernelHash, u, e, i);
    OneMore(KernelHash, u, i, e);
    KeysMovedOn(k);
  }

  lemma RoomFor(u: seq<Element<nat>>, key: Key, i: nat)
    requires TableInv(KernelHash, u) && Chosen(KernelHash, u, key, i) && !u[i].inUse && |Live(u)| < |u|
    ensures HasRoom(KernelHash, u, key)
  {
    assert Probed(KernelHash, u, key, i);
  }

  lemma KeysMovedOn(k: nat)
    requires k < 15 && k != 8
    ensures KeysMoved(k + 1) == KeysMoved(k) + {KeyOf(KeyAt(k))}
  {
    forall key ensures key in KeysMoved(k + 1) <==> key in KeysMoved(k) || key == KeyOf(KeyAt(k)) {
      if key in KeysMoved(k + 1) {
        var s: nat :| s < k + 1 && s != 8 && key == KeyOf(KeyAt(s));
        assert s < k ==> key in KeysMoved(k);
      }
    }
  }

  /** A key is not among those moved before its slot. */
  lemma NotYetMoved(k: nat)
    requires k <= 15
    ensures KeyOf(KeyAt(k)) !in KeysMoved(k)
  {
    forall s: nat | s < k && s != 8 ensures KeyOf(KeyAt(s)) != KeyOf(KeyAt(k)) {
      assert KeyAt(s) != KeyAt(k);
    }
  }

  lemma PlaceIsChosen(k: nat)
    requires k < 15 && k != 8 && TableInv(KernelHash, ThirtyTwo(k)) && Contents(ThirtyTwo(k)).Keys == KeysMoved(k)
    ensures var u, key, i := ThirtyTwo(k), KeyOf(KeyAt(k)), PlaceInMove(k);
            && key !in Contents(u) && !u[i].inUse && Chosen(KernelHash, u, key, i)
            && ThirtyTwo(k + 1) == u[i := Entry(KeyAt(k))]
  {
    hide KernelHash, KeyOf, KeysMoved, TableInv;
    var u, key, i := ThirtyTwo(k), KeyOf(KeyAt(k)), PlaceInMove(k);
    NotYetMoved(k);
    assert key !in Contents(u).Keys;
    HomeIs(KeyAt(k), 32);
    forall j: nat | Probed(KernelHash, u, key, j) && !u[j].inUse
      ensures Dist(Home(KernelHash, key, 32), i, 32) <= Dist(Home(KernelHash, key, 32), j, 32)
    {
      NearerTakenInMove(k, j);
    }
  }

  lemma NearerTakenInMove(k: nat, j: nat)
    requires k < 15 && k != 8 && j < 32 && !ThirtyTwo(k)[j].inUse
    ensures var home := if 0 < k < 8 then 16 else 9; Dist(home, PlaceInMove(k), 32) <= Dist(home, j, 32)
  {
  }

  /** The last slot's key, of hash 9, finds the eight slots from 9 on taken. */
  lemma BlockedAtFifteen()
    ensures PowerOfTwo(32) && TableInv(KernelHash, Sixteen(15))
    ensures Blocked(KernelHash, Sixteen(15), 15, Empty(KernelHash, 32, 0 as nat))
  {
    hide ThirtyTwo, Filled, TableInv, HasRoom;
    PowersUsed();
    SixteenLegal(15);
    MoveReaches(15);
    SixteenAt(15);
    NoRoomInMove();
  }

  lemma NoRoomInMove()
    requires TableInv(KernelHash, ThirtyTwo(15)) && Contents(ThirtyTwo(15)).Keys == KeysMoved(15)
    ensures !HasRoom(KernelHash, ThirtyTwo(15), KeyOf(6))
  {
    HomeIs(6, 32);
    NotYetMoved(15);
    assert KeyOf(6) !in Contents(ThirtyTwo(15)).Keys;
    forall i: nat | Probed(KernelHash, ThirtyTwo(15), KeyOf(6), i) ensures ThirtyTwo(15)[i].inUse {
      EightTaken(i);
    }
  }

  lemma EightTaken(i: nat)
    requires i < 32 && Dist(9, i, 32) < 8
    ensures ThirtyTwo(15)[i].inUse
  {
  }

  /** All that is then left of the table. */
  lemma OneLeft()
    requires TableInv(KernelHash, Sixteen(15))
    ensures UniqueKeys(DropPrefix(Sixteen(15), 15, 0))
    ensures Contents(DropPrefix(Sixteen(15), 15, 0)) == map[KeyOf(6) := 6]
  {
    hide KernelHash, KeyOf, Rank, Sixteen;
    var t := Sixteen(15);
    SixteenAt(15);
    var rest := DropPrefix(t, 15, 0);
    assert rest[15] == Entry(6);
    assert Holds(rest, 15, KeyOf(6));
    ContentsIs(rest, map[KeyOf(6) := 6]);
  }

  // ---- the run ----

  /** With a heap that refuses its third request, the sixteenth put comes to this. */
  lemma RefusedAtThird(heap: Allocator)
    requires (forall k :: heap.grants(k) <==> k != 2) && TableInv(KernelHash, Sixteen(15))
    ensures PutOf(heap, KernelHash, 0, 1, Sixteen(15), Entry(15)) ==
            Outcome(false, DropPrefix(Sixteen(15), 15, 0), [CreateCall(32, 1), CreateCall(64, 2)])
  {
    hide Sixteen, PutOf, HasRoom;
    PowersUsed();
    NoRoomForLast();
    BlockedAtFifteen();
    PutBlocked(heap, KernelHash, 0, 1, Sixteen(15), Entry(15), 15);
  }

  /** A map as fifteen puts leave it, on a heap that has granted one request and will refuse the third. */
  ghost predicate Filled15(m: HashMap<nat>)
    reads m, m.data, m.heap
  {
    && m.Valid() && m.hash == KernelHash && m.nil == 0 && m.Table() == Sixteen(15)
    && m.heap.asked == 1 && forall k :: m.heap.grants(k) <==> k != 2
  }

  method FillSixteen() returns (m: HashMap<nat>)
    ensures fresh(m) && fresh(m.data) && fresh(m.heap) && Filled15(m)
  {
    PowersUsed();
    var heap := new Allocator(k => k != 2);
    m := new HashMap<nat>(KernelHash, 0, heap);
    var r := m.Create(16);
    assert Sixteen(0) == Empty(KernelHash, 16, 0);
    for k := 0 to 15
      invariant m.Valid() && fresh(m) && fresh(m.data) && m.Table() == Sixteen(k) && heap.asked == 1
    {
      SixteenRoom(k);
      PutRoom(heap, KernelHash, 0, 1, Sixteen(k), Entry(k));
      ghost var trace;
      r, trace := m.Put(KeyOf(k), k);
    }
  }

  /** The sixteenth fails: the first replacement is granted, and the one that its own growth asks for is refused. Of the
      fifteen entries one is left. */
  method LoseFourteen(m: HashMap<nat>) returns (r: int)
    requires Filled15(m)
    modifies m, m.data, m.heap
    ensures m.Valid() && |old(m.Map())| == 15
    ensures r == 1 && m.Map() == map[KeyOf(6) := 6] && m.heap.asked == 3
  {
    SixteenLegal(15);
    RefusedAtThird(m.heap);
    ghost var trace;
    r, trace := m.Put(KeyOf(15), 15);
    OneLeft();
  }
}
