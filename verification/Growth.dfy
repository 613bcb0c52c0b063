/** What a put and the growth it may need come to, as functions of the table, the key and what the heap grants. */
module Growth {
  import opened Bits
  import opened ProbeTable
  import opened Allocation
  import opened Moves
  import opened Displacement

  /** How a put or a rehash ends: whether it succeeds, the table it leaves, and the calls of Create it makes. */
  datatype Outcome<V> = Outcome(ok: bool, table: seq<Element<V>>, calls: seq<CreateCall>)

  /** How far a move gets: the new table, the calls made on the way, and the slots moved. */
  datatype Progress<V> = Progress(ok: bool, table: seq<Element<V>>, calls: seq<CreateCall>, moved: nat)

  /** The entry that put makes of a key and a value. */
  function EntryFor<V>(key: Key, value: V): Element<V> {
    Element(key, |key|, true, value)
  }

  function After<V>(calls: seq<CreateCall>, o: Outcome<V>): Outcome<V> {
    Outcome(o.ok, o.table, calls + o.calls)
  }

  lemma RestLegal<V>(hash: Key -> nat, t: seq<Element<V>>, k: nat, nil: V)
    requires TableInv(hash, t) && k <= |t|
    ensures TableInv(hash, DropPrefix(t, k, nil))
  {
    MoveConserves(hash, t, k, nil);
  }

  /** A put of entry e into table t when the next request to the heap has the number `from`. */
  ghost function PutOf<V>(heap: Allocator, hash: Key -> nat, nil: V, from: nat,
                          t: seq<Element<V>>, e: Element<V>): (o: Outcome<V>)
    requires TableInv(hash, t) && Storable(e)
    ensures TableInv(hash, o.table) && |o.table| >= |t|
    decreases U32 - |t|, 1, 0
  {
    if HasRoom(hash, t, e.key) then Outcome(true, With(hash, t, e), [])
    else
      var g := RehashOf(heap, hash, nil, from, t);
      if g.ok then After(g.calls, PutOf(heap, hash, nil, from + |g.calls|, g.table, e)) else g
  }

  ghost function RehashOf<V>(heap: Allocator, hash: Key -> nat, nil: V, from: nat, t: seq<Element<V>>): (o: Outcome<V>)
    requires TableInv(hash, t)
    ensures TableInv(hash, o.table) && if o.ok then |o.table| >= 2 * |t| else |o.table| == |t|
    decreases U32 - |t|, 0, 0
  {
    var call := CreateCall(Doubled(|t|), from);
    if !heap.Served(call) then Outcome(false, t, [call])
    else
      DoubleWraps(|t|);
      var p := MoveOf(heap, hash, nil, from + 1, t, |t|, Empty(hash, call.size, nil));
      RestLegal(hash, t, p.moved, nil);
      Outcome(p.ok, if p.ok then p.table else DropPrefix(t, p.moved, nil), [call] + p.calls)
  }

  /** The move of the first k slots of t into u, as far as it gets. */
  ghost function MoveOf<V>(heap: Allocator, hash: Key -> nat, nil: V, from: nat,
                           t: seq<Element<V>>, k: nat, u: seq<Element<V>>): (p: Progress<V>)
    requires TableInv(hash, t) && TableInv(hash, u) && k <= |t|
    ensures TableInv(hash, p.table) && |p.table| >= |u| && p.moved <= k && (p.ok ==> p.moved == k)
    decreases U32 - |u|, 2, k
  {
    if k == 0 then Progress(true, u, [], 0)
    else
      var p := MoveOf(heap, hash, nil, from, t, k - 1, u);
      if !p.ok then p
      else
        var o := EntryOf(heap, hash, nil, from + |p.calls|, t, k - 1, p.table);
        Progress(o.ok, o.table, p.calls + o.calls, if o.ok then k else k - 1)
  }

  /** What becomes of slot i. */
  ghost function EntryOf<V>(heap: Allocator, hash: Key -> nat, nil: V, from: nat,
                            t: seq<Element<V>>, i: nat, u: seq<Element<V>>): (o: Outcome<V>)
    requires TableInv(hash, t) && TableInv(hash, u) && i < |t|
    ensures TableInv(hash, o.table) && |o.table| >= |u|
    decreases U32 - |u|, 2, 0
  {
    if t[i].inUse then assert NearHome(hash, t, i); PutOf(heap, hash, nil, from, u, t[i]) else Outcome(true, u, [])
  }

  // ---- as the loops of the code go through them ----

  /** A put is on the way to its goal when the calls so far and a put into the table as it now is come to that. */
  ghost predicate OnTheWay<V>(goal: Outcome<V>, heap: Allocator, hash: Key -> nat, nil: V, calls: seq<CreateCall>,
                              from: nat, t: seq<Element<V>>, e: Element<V>)
    requires TableInv(hash, t) && Storable(e)
  {
    goal == After(calls, PutOf(heap, hash, nil, from, t, e))
  }

  lemma PutStarts<V>(heap: Allocator, hash: Key -> nat, nil: V, from: nat, t: seq<Element<V>>, e: Element<V>)
    requires TableInv(hash, t) && Storable(e)
    ensures OnTheWay(PutOf(heap, hash, nil, from, t, e), heap, hash, nil, [], from, t, e)
  {
    hide PutOf;
    assert [] + PutOf(heap, hash, nil, from, t, e).calls == PutOf(heap, hash, nil, from, t, e).calls;
  }

  lemma PutGrows<V>(goal: Outcome<V>, heap: Allocator, hash: Key -> nat, nil: V, calls: seq<CreateCall>,
                    from: nat, t: seq<Element<V>>, e: Element<V>)
    requires TableInv(hash, t) && Storable(e) && !HasRoom(hash, t, e.key)
    requires OnTheWay(goal, heap, hash, nil, calls, from, t, e)
    ensures var g := RehashOf(heap, hash, nil, from, t);
            if g.ok then OnTheWay(goal, heap, hash, nil, calls + g.calls, from + |g.calls|, g.table, e)
            else goal == Outcome(false, g.table, calls + g.calls)
  {
    hide RehashOf;
    var g := RehashOf(heap, hash, nil, from, t);
    if g.ok {
      var more := PutOf(heap, hash, nil, from + |g.calls|, g.table, e).calls;
      assert calls + (g.calls + more) == (calls + g.calls) + more;
    }
  }

  lemma PutFits<V>(goal: Outcome<V>, heap: Allocator, hash: Key -> nat, nil: V, calls: seq<CreateCall>,
                   from: nat, t: seq<Element<V>>, e: Element<V>)
    requires TableInv(hash, t) && Storable(e) && HasRoom(hash, t, e.key)
    requires OnTheWay(goal, heap, hash, nil, calls, from, t, e)
    ensures goal == Outcome(true, With(hash, t, e), calls)
  {
  }

  /** A put asks for memory exactly if there is no room as it is. */
  lemma PutAsks<V>(heap: Allocator, hash: Key -> nat, nil: V, from: nat, t: seq<Element<V>>, e: Element<V>)
    requires TableInv(hash, t) && Storable(e)
    ensures PutOf(heap, hash, nil, from, t, e).calls == [] <==> HasRoom(hash, t, e.key)
  {
  }

  lemma PutRoom<V>(heap: Allocator, hash: Key -> nat, nil: V, from: nat, t: seq<Element<V>>, e: Element<V>)
    requires TableInv(hash, t) && Storable(e) && HasRoom(hash, t, e.key)
    ensures PutOf(heap, hash, nil, from, t, e) == Outcome(true, With(hash, t, e), [])
  {
  }

  /** A refused first request leaves everything as it was. */
  lemma PutRefused<V>(heap: Allocator, hash: Key -> nat, nil: V, from: nat, t: seq<Element<V>>, e: Element<V>)
    requires TableInv(hash, t) && Storable(e) && !HasRoom(hash, t, e.key) && !heap.grants(from)
    ensures PutOf(heap, hash, nil, from, t, e) == Outcome(false, t, [CreateCall(Doubled(|t|), from)])
  {
  }

  lemma MoveStarts<V>(heap: Allocator, hash: Key -> nat, nil: V, from: nat, t: seq<Element<V>>, u: seq<Element<V>>)
    requires TableInv(hash, t) && TableInv(hash, u)
    ensures MoveOf(heap, hash, nil, from, t, 0, u) == Progress(true, u, [], 0)
  {
  }

  lemma MoveGoesOn<V>(heap: Allocator, hash: Key -> nat, nil: V, from: nat, t: seq<Element<V>>, i: nat, u: seq<Element<V>>)
    requires TableInv(hash, t) && TableInv(hash, u) && i < |t| && MoveOf(heap, hash, nil, from, t, i, u).ok
    ensures var p := MoveOf(heap, hash, nil, from, t, i, u);
            var o := EntryOf(heap, hash, nil, from + |p.calls|, t, i, p.table);
            MoveOf(heap, hash, nil, from, t, i + 1, u)
            == Progress(o.ok, o.table, p.calls + o.calls, if o.ok then i + 1 else i)
  {
    hide EntryOf;
  }

  lemma {:induction false} MoveStops<V>(heap: Allocator, hash: Key -> nat, nil: V, from: nat,
                                        t: seq<Element<V>>, i: nat, k: nat, u: seq<Element<V>>)
    requires TableInv(hash, t) && TableInv(hash, u) && i <= k <= |t| && !MoveOf(heap, hash, nil, from, t, i, u).ok
    ensures MoveOf(heap, hash, nil, from, t, k, u) == MoveOf(heap, hash, nil, from, t, i, u)
    decreases k
  {
    hide EntryOf;
    if i < k {
      MoveStops(heap, hash, nil, from, t, i, k - 1, u);
    }
  }

  /** One round of the move's loop: either it goes on, or that is where it ends. */
  lemma MoveSteps<V>(heap: Allocator, hash: Key -> nat, nil: V, from: nat, t: seq<Element<V>>, i: nat, u: seq<Element<V>>,
                     now: seq<Element<V>>, calls: seq<CreateCall>, o: Outcome<V>)
    requires TableInv(hash, t) && TableInv(hash, u) && TableInv(hash, now) && i < |t|
    requires MoveOf(heap, hash, nil, from, t, i, u) == Progress(true, now, calls, i)
    requires EntryOf(heap, hash, nil, from + |calls|, t, i, now) == o
    ensures if o.ok then MoveOf(heap, hash, nil, from, t, i + 1, u) == Progress(true, o.table, calls + o.calls, i + 1)
            else MoveOf(heap, hash, nil, from, t, |t|, u) == Progress(false, o.table, calls + o.calls, i)
  {
    hide MoveOf, EntryOf, TableInv;
    MoveGoesOn(heap, hash, nil, from, t, i, u);
    if !o.ok {
      MoveStops(heap, hash, nil, from, t, i + 1, |t|, u);
    }
  }

  // ---- a put as a run of the loop ----

  /** The tables the loop of a put looks at, and the number of the next request at each: none but the last has room for the
      key, each is what the one before it is rehashed into, and the last has room or cannot be rehashed. */
  ghost predicate Run<V>(heap: Allocator, hash: Key -> nat, nil: V,
                         tables: seq<seq<Element<V>>>, froms: seq<nat>, key: Key)
  {
    && |tables| == |froms| > 0 && (forall i :: 0 <= i < |tables| ==> TableInv(hash, tables[i]))
    && (forall i :: 0 <= i < |tables| - 1 ==> RunAt(heap, hash, nil, tables, froms, key, i))
    && var last := |tables| - 1;
       HasRoom(hash, tables[last], key) || !RehashOf(heap, hash, nil, froms[last], tables[last]).ok
  }

  ghost predicate RunAt<V>(heap: Allocator, hash: Key -> nat, nil: V, tables: seq<seq<Element<V>>>, froms: seq<nat>,
                           key: Key, i: nat)
    requires i + 1 < |tables| == |froms| && TableInv(hash, tables[i])
  {
    var g := RehashOf(heap, hash, nil, froms[i], tables[i]);
    && !HasRoom(hash, tables[i], key) && g.ok
    && tables[i + 1] == g.table && froms[i + 1] == froms[i] + |g.calls|
  }

  /** Growth stops at the first table with room, and a put succeeds exactly if there is one. */
  lemma {:induction false} PutIsRun<V>(heap: Allocator, hash: Key -> nat, nil: V,
                                       tables: seq<seq<Element<V>>>, froms: seq<nat>, e: Element<V>)
    requires Storable(e) && Run(heap, hash, nil, tables, froms, e.key)
    ensures var o, last := PutOf(heap, hash, nil, froms[0], tables[0], e), |tables| - 1;
            && o.ok == HasRoom(hash, tables[last], e.key)
            && (if o.ok then o.table == With(hash, tables[last], e) && froms[last] == froms[0] + |o.calls|
                else o.table == RehashOf(heap, hash, nil, froms[last], tables[last]).table)
    decreases |tables|
  {
    hide RehashOf, With, HasRoom, TableInv;
    if |tables| > 1 {
      assert RunAt(heap, hash, nil, tables, froms, e.key, 0);
      forall i | 0 <= i < |tables| - 2 ensures RunAt(heap, hash, nil, tables[1..], froms[1..], e.key, i) {
        assert RunAt(heap, hash, nil, tables, froms, e.key, i + 1);
      }
      PutIsRun(heap, hash, nil, tables[1..], froms[1..], e);
    }
  }

  lemma {:induction false} RunExists<V>(heap: Allocator, hash: Key -> nat, nil: V, from: nat, t: seq<Element<V>>, key: Key)
      returns (tables: seq<seq<Element<V>>>, froms: seq<nat>)
    requires TableInv(hash, t)
    ensures Run(heap, hash, nil, tables, froms, key) && tables[0] == t && froms[0] == from
    decreases U32 - |t|
  {
    hide RehashOf, HasRoom;
    var g := RehashOf(heap, hash, nil, from, t);
    if HasRoom(hash, t, key) || !g.ok {
      tables, froms := [t], [from];
    } else {
      var ts, fs := RunExists(heap, hash, nil, from + |g.calls|, g.table, key);
      tables, froms := [t] + ts, [from] + fs;
      forall i | 0 <= i < |tables| - 1 ensures RunAt(heap, hash, nil, tables, froms, key, i) {
        if i > 0 {
          assert RunAt(heap, hash, nil, ts, fs, key, i - 1);
        }
      }
    }
  }

  // ---- when one table is enough ----

  lemma {:induction false} FirstStuck<V>(hash: Key -> nat, t: seq<Element<V>>, i: nat, u: seq<Element<V>>)
    requires TableInv(hash, t) && TableInv(hash, u) && i < |t| && Stuck(hash, t, i, u)
    ensures exists j: nat :: Blocked(hash, t, j, u)
  {
    if forall j: nat :: j < i ==> !Stuck(hash, t, j, u) {
      assert Blocked(hash, t, i, u);
    } else {
      var j: nat :| j < i && Stuck(hash, t, j, u);
      FirstStuck(hash, t, j, u);
    }
  }

  ghost predicate FreeTo<V>(hash: Key -> nat, t: seq<Element<V>>, k: nat, u: seq<Element<V>>)
    requires TableInv(hash, t) && TableInv(hash, u) && k <= |t|
  {
    forall i: nat :: i < k ==> !Stuck(hash, t, i, u)
  }

  lemma EntryFits<V>(heap: Allocator, hash: Key -> nat, nil: V, from: nat, t: seq<Element<V>>, i: nat, u: seq<Element<V>>)
    requires TableInv(hash, t) && TableInv(hash, u) && i < |t|
    requires t[i].inUse ==> HasRoom(hash, u, t[i].key)
    ensures EntryOf(heap, hash, nil, from, t, i, u)
            == Outcome(true, if t[i].inUse then assert NearHome(hash, t, i); With(hash, u, t[i]) else u, [])
  {
    assert t[i].inUse ==> NearHome(hash, t, i);
  }

  lemma FilledNext<V>(hash: Key -> nat, t: seq<Element<V>>, i: nat, u: seq<Element<V>>)
    requires TableInv(hash, t) && TableInv(hash, u) && i < |t|
    ensures var b := Filled(hash, t, i, u);
            Filled(hash, t, i + 1, u) == if t[i].inUse then assert NearHome(hash, t, i); With(hash, b, t[i]) else b
  {
  }

  lemma FilledNone<V>(hash: Key -> nat, t: seq<Element<V>>, u: seq<Element<V>>)
    requires TableInv(hash, t) && TableInv(hash, u)
    ensures Filled(hash, t, 0, u) == u
  {
  }

  /** Up to the first entry that finds no room a move asks for nothing, and each entry goes where put puts it. */
  lemma {:induction false} FreeMove<V>(heap: Allocator, hash: Key -> nat, nil: V, from: nat,
                                       t: seq<Element<V>>, k: nat, u: seq<Element<V>>)
    requires TableInv(hash, t) && TableInv(hash, u) && k <= |t| && FreeTo(hash, t, k, u)
    ensures MoveOf(heap, hash, nil, from, t, k, u) == Progress(true, Filled(hash, t, k, u), [], k)
  {
    hide MoveOf, EntryOf, Filled, TableInv, HasRoom;
    if k == 0 {
      MoveStarts(heap, hash, nil, from, t, u);
      FilledNone(hash, t, u);
    } else {
      FreeMove(heap, hash, nil, from, t, k - 1, u);
      assert !Stuck(hash, t, k - 1, u);
      MoveGoesOn(heap, hash, nil, from, t, k - 1, u);
      FilledNext(hash, t, k - 1, u);
      EntryFits(heap, hash, nil, from, t, k - 1, Filled(hash, t, k - 1, u));
    }
  }

  lemma {:induction false} CallsGrow<V>(heap: Allocator, hash: Key -> nat, nil: V, from: nat,
                                        t: seq<Element<V>>, i: nat, k: nat, u: seq<Element<V>>)
    requires TableInv(hash, t) && TableInv(hash, u) && i <= k <= |t|
    ensures MoveOf(heap, hash, nil, from, t, i, u).calls <= MoveOf(heap, hash, nil, from, t, k, u).calls
    decreases k
  {
    hide EntryOf;
    if i < k {
      CallsGrow(heap, hash, nil, from, t, i, k - 1, u);
    }
  }

  /** At that entry it asks for memory; and if a table it asks for there is refused, the slots before it have moved. */
  lemma BlockedMove<V>(heap: Allocator, hash: Key -> nat, nil: V, from: nat,
                       t: seq<Element<V>>, i: nat, u: seq<Element<V>>)
    requires TableInv(hash, t) && TableInv(hash, u) && Blocked(hash, t, i, u)
    ensures var o := EntryOf(heap, hash, nil, from, t, i, Filled(hash, t, i, u));
            var p := MoveOf(heap, hash, nil, from, t, |t|, u);
            o.calls != [] && o.calls <= p.calls && (!o.ok ==> p == Progress(false, o.table, o.calls, i))
  {
    hide PutOf, MoveOf, Filled, HasRoom;
    FreeMove(heap, hash, nil, from, t, i, u);
    MoveGoesOn(heap, hash, nil, from, t, i, u);
    assert NearHome(hash, t, i);
    PutAsks(heap, hash, nil, from, Filled(hash, t, i, u), t[i]);
    var o := EntryOf(heap, hash, nil, from, t, i, Filled(hash, t, i, u));
    assert [] + o.calls == o.calls;
    if o.ok {
      CallsGrow(heap, hash, nil, from, t, i + 1, |t|, u);
    } else {
      MoveStops(heap, hash, nil, from, t, i + 1, |t|, u);
    }
  }

  /** A put whose own move is blocked at entry i, and is refused the table asked for there, loses the slots before i. */
  lemma PutBlocked<V>(heap: Allocator, hash: Key -> nat, nil: V, from: nat, t: seq<Element<V>>, e: Element<V>, i: nat)
    requires TableInv(hash, t) && Storable(e) && !HasRoom(hash, t, e.key) && 2 * |t| < U32 && PowerOfTwo(2 * |t|)
    requires Blocked(hash, t, i, Empty(hash, 2 * |t|, nil)) && heap.grants(from) && !heap.grants(from + 1)
    ensures PutOf(heap, hash, nil, from, t, e) ==
            Outcome(false, DropPrefix(t, i, nil), [CreateCall(2 * |t|, from), CreateCall(Doubled(2 * |t|), from + 1)])
  {
    hide MoveOf, PutOf, Filled, HasRoom;
    DoubleWraps(|t|);
    var u := Empty(hash, 2 * |t|, nil);
    BlockedMove(heap, hash, nil, from + 1, t, i, u);
    assert NearHome(hash, t, i);
    PutRefused(heap, hash, nil, from + 1, Filled(hash, t, i, u), t[i]);
    PutStarts(heap, hash, nil, from, t, e);
    PutGrows(PutOf(heap, hash, nil, from, t, e), heap, hash, nil, [], from, t, e);
  }

  lemma {:induction false} NearestFree<V>(hash: Key -> nat, t: seq<Element<V>>, key: Key, i: nat) returns (j: nat)
    requires UniqueKeys(t) && key !in Contents(t) && Probed(hash, t, key, i) && !t[i].inUse
    ensures Chosen(hash, t, key, j)
    decreases Dist(Home(hash, key, |t|), i, |t|)
  {
    var home := Home(hash, key, |t|);
    if k: nat :| Probed(hash, t, key, k) && !t[k].inUse && Dist(home, k, |t|) < Dist(home, i, |t|) {
      j := NearestFree(hash, t, key, k);
    } else {
      j := i;
    }
  }

  /** With room for it, a put of an entry maps its key to its value and leaves all others alone. */
  lemma WithHolds<V>(hash: Key -> nat, t: seq<Element<V>>, e: Element<V>)
    requires TableInv(hash, t) && Storable(e) && HasRoom(hash, t, e.key)
    ensures Contents(With(hash, t, e)) == Contents(t)[e.key := e.data]
  {
    hide With, Contents;
    var i: nat;
    if e.key in Contents(t) {
      i := SlotOf(t, e.key);
      assert NearHome(hash, t, i);
    } else {
      var k: nat :| Probed(hash, t, e.key, k) && !t[k].inUse;
      i := NearestFree(hash, t, e.key, k);
    }
    WithIs(hash, t, e, i);
    Store(hash, t, i, e.key, e.data);
    assert t[i := Element(e.key, |e.key|, true, e.data)] == t[i := e];
  }

  lemma PrefixEmpty<V>(t: seq<Element<V>>)
    ensures UniqueKeys(t[..0]) && Contents(t[..0]) == map[]
  {
  }

  lemma PrefixKeys<V>(t: seq<Element<V>>, k: nat)
    requires UniqueKeys(t) && k < |t| && t[k].inUse && UniqueKeys(t[..k])
    ensures t[k].key in Contents(t) && t[k].key !in Contents(t[..k]) && Contents(t[..k]).Keys <= Contents(t).Keys
  {
    LiveKeyIn(t, k);
  }

  lemma {:induction false} FilledHolds<V>(hash: Key -> nat, t: seq<Element<V>>, k: nat, u: seq<Element<V>>)
    requires TableInv(hash, t) && TableInv(hash, u) && Contents(u) == map[] && k <= |t| && FreeTo(hash, t, k, u)
    ensures UniqueKeys(t[..k]) && Contents(Filled(hash, t, k, u)) == Contents(t[..k])
  {
    hide Filled, Contents, HasRoom, With;
    if k == 0 {
      FilledNone(hash, t, u);
      PrefixEmpty(t);
    } else {
      FilledHolds(hash, t, k - 1, u);
      FilledNext(hash, t, k - 1, u);
      MoveSlot(t, k - 1);
      assert !Stuck(hash, t, k - 1, u);
      if t[k - 1].inUse {
        assert NearHome(hash, t, k - 1);
        WithHolds(hash, Filled(hash, t, k - 1, u), t[k - 1]);
      }
    }
  }

  lemma FewerBefore<V>(t: seq<Element<V>>, i: nat)
    requires UniqueKeys(t) && i < |t| && t[i].inUse && UniqueKeys(t[..i])
    ensures |Contents(t[..i])| < |Contents(t)|
  {
    hide Contents;
    PrefixKeys(t, i);
    var head := Contents(t[..i]).Keys;
    SubsetSize(head + {t[i].key}, Contents(t).Keys);
    assert |head| == |Contents(t[..i])| && |Contents(t).Keys| == |Contents(t)|;
  }

  /** No entry of a table that holds eight or fewer is blocked on the way into a larger one. */
  lemma EightMove<V>(hash: Key -> nat, t: seq<Element<V>>, i: nat, u: seq<Element<V>>)
    requires TableInv(hash, t) && TableInv(hash, u) && Contents(u) == map[] && |t| < |u| && |Contents(t)| <= 8
    ensures !Blocked(hash, t, i, u)
  {
    hide Filled, HasRoom;
    if Blocked(hash, t, i, u) {
      FilledHolds(hash, t, i, u);
      StuckAfterEight(hash, t, i, Filled(hash, t, i, u));
      FewerBefore(t, i);
    }
  }

  lemma RehashOne<V>(heap: Allocator, hash: Key -> nat, nil: V, from: nat, t: seq<Element<V>>, u: seq<Element<V>>)
    requires TableInv(hash, t) && 2 * |t| < U32 && PowerOfTwo(2 * |t|) && u == Empty(hash, 2 * |t|, nil)
    requires MoveOf(heap, hash, nil, from + 1, t, |t|, u) == Progress(true, Filled(hash, t, |t|, u), [], |t|)
    ensures RehashOf(heap, hash, nil, from, t) ==
            if heap.grants(from) then Outcome(true, Filled(hash, t, |t|, u), [CreateCall(2 * |t|, from)])
            else Outcome(false, t, [CreateCall(2 * |t|, from)])
  {
    hide MoveOf, Filled;
    DoubleWraps(|t|);
    assert [CreateCall(2 * |t|, from)] + [] == [CreateCall(2 * |t|, from)];
  }

  /** If no entry is blocked on the way into a table of twice the size, and that then has room for the key, a put makes one
      call of Create, succeeds exactly if that is granted, and leaves the table so filled. */
  lemma OneTable<V>(heap: Allocator, hash: Key -> nat, nil: V, from: nat, t: seq<Element<V>>, e: Element<V>)
    requires TableInv(hash, t) && Storable(e) && !HasRoom(hash, t, e.key) && 2 * |t| < U32 && PowerOfTwo(2 * |t|)
    requires forall i: nat :: !Blocked(hash, t, i, Empty(hash, 2 * |t|, nil))
    requires HasRoom(hash, Filled(hash, t, |t|, Empty(hash, 2 * |t|, nil)), e.key)
    ensures PutOf(heap, hash, nil, from, t, e) ==
            if heap.grants(from) then
              Outcome(true, With(hash, Filled(hash, t, |t|, Empty(hash, 2 * |t|, nil)), e), [CreateCall(2 * |t|, from)])
            else Outcome(false, t, [CreateCall(2 * |t|, from)])
  {
    hide MoveOf, Filled, HasRoom, With;
    var u := Empty(hash, 2 * |t|, nil);
    forall i: nat | i < |t| ensures !Stuck(hash, t, i, u) {
      if Stuck(hash, t, i, u) {
        FirstStuck(hash, t, i, u);
      }
    }
    FreeMove(heap, hash, nil, from + 1, t, |t|, u);
    DoubleWraps(|t|);
    RehashOne(heap, hash, nil, from, t, u);
    var calls := [CreateCall(2 * |t|, from)];
    if heap.grants(from) {
      assert calls + [] == calls;
    }
  }

  /** With eight entries or fewer the first of these always holds. */
  lemma EightGrow<V>(heap: Allocator, hash: Key -> nat, nil: V, from: nat, t: seq<Element<V>>, e: Element<V>)
    requires TableInv(hash, t) && Storable(e) && !HasRoom(hash, t, e.key) && 2 * |t| < U32 && PowerOfTwo(2 * |t|)
    requires |Contents(t)| <= 8 && HasRoom(hash, Filled(hash, t, |t|, Empty(hash, 2 * |t|, nil)), e.key)
    ensures var o := PutOf(heap, hash, nil, from, t, e);
            o.ok == heap.grants(from) && o.calls == [CreateCall(2 * |t|, from)]
  {
    hide PutOf, HasRoom, With, Filled;
    var u := Empty(hash, 2 * |t|, nil);
    FreshTable(hash, 2 * |t|, nil);
    forall i: nat ensures !Blocked(hash, t, i, u) {
      EightMove(hash, t, i, u);
    }
    OneTable(heap, hash, nil, from, t, e);
  }

  // ---- a condition on keys and hashes alone ----

  /** No two of the keys have one home in a table of n slots. */
  ghost predicate HomesApart(hash: Key -> nat, keys: set<Key>, n: nat)
    requires n > 0
  {
    forall a, b :: a in keys && b in keys && a != b ==> hash(a) % n != hash(b) % n
  }

  ghost predicate AtHome<V>(hash: Key -> nat, u: seq<Element<V>>) {
    forall s :: 0 <= s < |u| && u[s].inUse ==> Home(hash, u[s].key, |u|) == s
  }

  lemma HomeFree<V>(hash: Key -> nat, u: seq<Element<V>>, key: Key, keys: set<Key>)
    requires TableInv(hash, u) && AtHome(hash, u) && Contents(u).Keys <= keys && key in keys && key !in Contents(u)
    requires HomesApart(hash, keys, |u|)
    ensures HasRoom(hash, u, key) && Chosen(hash, u, key, Home(hash, key, |u|)) && !u[Home(hash, key, |u|)].inUse
  {
    var h := Home(hash, key, |u|);
    if u[h].inUse {
      LiveKeyIn(u, h);
    }
    assert Probed(hash, u, key, h);
    assert Live(u) <= Stretch(0, |u|, |u|) - {h};
    StretchSize(0, |u|, |u|);
    SubsetSize(Live(u), Stretch(0, |u|, |u|) - {h});
  }

  lemma HomeStep<V>(hash: Key -> nat, b: seq<Element<V>>, e: Element<V>, keys: set<Key>)
    requires TableInv(hash, b) && AtHome(hash, b) && Contents(b).Keys <= keys && e.key in keys && e.key !in Contents(b)
    requires HomesApart(hash, keys, |b|) && Storable(e)
    ensures HasRoom(hash, b, e.key)
    ensures Contents(With(hash, b, e)) == Contents(b)[e.key := e.data] && AtHome(hash, With(hash, b, e))
  {
    hide HasRoom, HomesApart, Contents, With, Chosen;
    HomeFree(hash, b, e.key, keys);
    var h := Home(hash, e.key, |b|);
    WithIs(hash, b, e, h);
    Store(hash, b, h, e.key, e.data);
    assert b[h := Element(e.key, |e.key|, true, e.data)] == b[h := e];
  }

  lemma AllFree<V>(u: seq<Element<V>>)
    requires UniqueKeys(u) && Contents(u) == map[]
    ensures forall i :: 0 <= i < |u| ==> !u[i].inUse
  {
    forall i | 0 <= i < |u| ensures !u[i].inUse {
      if u[i].inUse {
        LiveKeyIn(u, i);
      }
    }
  }

  /** Then a move puts each entry in its own home slot, and none is stuck. */
  lemma {:induction false} MovesHome<V>(hash: Key -> nat, t: seq<Element<V>>, k: nat, u: seq<Element<V>>, keys: set<Key>)
    requires TableInv(hash, t) && TableInv(hash, u) && Contents(u) == map[] && k <= |t|
    requires Contents(t).Keys <= keys && HomesApart(hash, keys, |u|)
    ensures UniqueKeys(t[..k]) && Contents(Filled(hash, t, k, u)) == Contents(t[..k]) && AtHome(hash, Filled(hash, t, k, u))
    ensures FreeTo(hash, t, k, u)
  {
    hide HasRoom, Contents;
    if k == 0 {
      AllFree(u);
      PrefixEmpty(t);
    } else {
      MovesHome(hash, t, k - 1, u, keys);
      MoveSlot(t, k - 1);
      assert t[k - 1].inUse ==> NearHome(hash, t, k - 1);
      if t[k - 1].inUse {
        PrefixKeys(t, k - 1);
        HomeStep(hash, Filled(hash, t, k - 1, u), t[k - 1], keys);
      }
    }
  }

  /** So if all keys, the new one included, have homes of their own in a table of twice the size, a put costs one table. */
  lemma SpreadKeysFit<V>(heap: Allocator, hash: Key -> nat, nil: V, from: nat, t: seq<Element<V>>, e: Element<V>)
    requires TableInv(hash, t) && Storable(e) && !HasRoom(hash, t, e.key) && 2 * |t| < U32 && PowerOfTwo(2 * |t|)
    requires e.key !in Contents(t) && HomesApart(hash, Contents(t).Keys + {e.key}, 2 * |t|)
    ensures var o := PutOf(heap, hash, nil, from, t, e);
            o.ok == heap.grants(from) && o.calls == [CreateCall(2 * |t|, from)]
  {
    hide PutOf, HasRoom, With, Filled, HomesApart;
    var u, keys := Empty(hash, 2 * |t|, nil), Contents(t).Keys + {e.key};
    FreshTable(hash, 2 * |t|, nil);
    MovesHome(hash, t, |t|, u, keys);
    assert t[..|t|] == t;
    HomeFree(hash, Filled(hash, t, |t|, u), e.key, keys);
    OneTable(heap, hash, nil, from, t, e);
  }

  /** A table of 2^31 slots cannot be doubled: the size wraps to 0, and is refused. */
  lemma LargestTable<V>(heap: Allocator, hash: Key -> nat, nil: V, from: nat, t: seq<Element<V>>, e: Element<V>)
    requires TableInv(hash, t) && Storable(e) && !HasRoom(hash, t, e.key) && |t| == 0x8000_0000
    ensures PutOf(heap, hash, nil, from, t, e) == Outcome(false, t, [CreateCall(0, from)])
  {
    hide MoveOf;
    DoubleWraps(|t|);
  }

  // ---- the heap's part ----

  ghost predicate Grants(heap: Allocator, from: nat, n: nat) {
    forall i: nat :: from <= i < from + n ==> heap.grants(i)
  }

  /** Two outcomes that differ in request numbers only. */
  ghost predicate Alike<V>(a: Outcome<V>, b: Outcome<V>) {
    a.ok && b.ok && a.table == b.table && |a.calls| == |b.calls|
  }

  /** What one heap has made succeed, another that grants as many requests does too, to the same end. */
  lemma {:induction false} PutRepeats<V>(a: Allocator, b: Allocator, hash: Key -> nat, nil: V, i: nat, j: nat,
                                         t: seq<Element<V>>, e: Element<V>)
    requires TableInv(hash, t) && Storable(e) && PutOf(a, hash, nil, i, t, e).ok
    requires Grants(b, j, |PutOf(a, hash, nil, i, t, e).calls|)
    ensures Alike(PutOf(a, hash, nil, i, t, e), PutOf(b, hash, nil, j, t, e))
    decreases U32 - |t|, 1, 0
  {
    hide RehashOf, With, HasRoom;
    if !HasRoom(hash, t, e.key) {
      RehashRepeats(a, b, hash, nil, i, j, t);
      var g, h := RehashOf(a, hash, nil, i, t), RehashOf(b, hash, nil, j, t);
      PutRepeats(a, b, hash, nil, i + |g.calls|, j + |h.calls|, g.table, e);
    }
  }

  lemma {:induction false} RehashRepeats<V>(a: Allocator, b: Allocator, hash: Key -> nat, nil: V, i: nat, j: nat,
                                            t: seq<Element<V>>)
    requires TableInv(hash, t) && RehashOf(a, hash, nil, i, t).ok && Grants(b, j, |RehashOf(a, hash, nil, i, t).calls|)
    ensures Alike(RehashOf(a, hash, nil, i, t), RehashOf(b, hash, nil, j, t))
    decreases U32 - |t|, 0, 0
  {
    hide MoveOf;
    DoubleWraps(|t|);
    MoveRepeats(a, b, hash, nil, i + 1, j + 1, t, |t|, Empty(hash, 2 * |t|, nil));
  }

  lemma {:induction false} MoveRepeats<V>(a: Allocator, b: Allocator, hash: Key -> nat, nil: V, i: nat, j: nat,
                                          t: seq<Element<V>>, k: nat, u: seq<Element<V>>)
    requires TableInv(hash, t) && TableInv(hash, u) && k <= |t| && MoveOf(a, hash, nil, i, t, k, u).ok
    requires Grants(b, j, |MoveOf(a, hash, nil, i, t, k, u).calls|)
    ensures var p, q := MoveOf(a, hash, nil, i, t, k, u), MoveOf(b, hash, nil, j, t, k, u);
            q.ok && p.table == q.table && |p.calls| == |q.calls|
    decreases U32 - |u|, 2, k
  {
    hide EntryOf;
    if k > 0 {
      MoveRepeats(a, b, hash, nil, i, j, t, k - 1, u);
      var p, q := MoveOf(a, hash, nil, i, t, k - 1, u), MoveOf(b, hash, nil, j, t, k - 1, u);
      EntryRepeats(a, b, hash, nil, i + |p.calls|, j + |q.calls|, t, k - 1, p.table);
    }
  }

  lemma EntryRepeats<V>(a: Allocator, b: Allocator, hash: Key -> nat, nil: V, i: nat, j: nat,
                        t: seq<Element<V>>, k: nat, u: seq<Element<V>>)
    requires TableInv(hash, t) && TableInv(hash, u) && k < |t| && EntryOf(a, hash, nil, i, t, k, u).ok
    requires Grants(b, j, |EntryOf(a, hash, nil, i, t, k, u).calls|)
    ensures Alike(EntryOf(a, hash, nil, i, t, k, u), EntryOf(b, hash, nil, j, t, k, u))
    decreases U32 - |u|, 2, 0
  {
    hide PutOf;
    if t[k].inUse {
      assert NearHome(hash, t, k);
      PutRepeats(a, b, hash, nil, i, j, u, t[k]);
    }
  }

  /** A put that succeeds has been granted all it asked for. */
  lemma {:induction false} PutGranted<V>(heap: Allocator, hash: Key -> nat, nil: V, from: nat,
                                         t: seq<Element<V>>, e: Element<V>)
    requires TableInv(hash, t) && Storable(e) && PutOf(heap, hash, nil, from, t, e).ok
    ensures Grants(heap, from, |PutOf(heap, hash, nil, from, t, e).calls|)
    decreases U32 - |t|, 1, 0
  {
    hide RehashOf, HasRoom;
    if !HasRoom(hash, t, e.key) {
      RehashGranted(heap, hash, nil, from, t);
      var g := RehashOf(heap, hash, nil, from, t);
      PutGranted(heap, hash, nil, from + |g.calls|, g.table, e);
    }
  }

  lemma {:induction false} RehashGranted<V>(heap: Allocator, hash: Key -> nat, nil: V, from: nat, t: seq<Element<V>>)
    requires TableInv(hash, t) && RehashOf(heap, hash, nil, from, t).ok
    ensures Grants(heap, from, |RehashOf(heap, hash, nil, from, t).calls|)
    decreases U32 - |t|, 0, 0
  {
    hide MoveOf;
    DoubleWraps(|t|);
    MoveGranted(heap, hash, nil, from + 1, t, |t|, Empty(hash, 2 * |t|, nil));
  }

  lemma {:induction false} MoveGranted<V>(heap: Allocator, hash: Key -> nat, nil: V, from: nat,
                                          t: seq<Element<V>>, k: nat, u: seq<Element<V>>)
    requires TableInv(hash, t) && TableInv(hash, u) && k <= |t| && MoveOf(heap, hash, nil, from, t, k, u).ok
    ensures Grants(heap, from, |MoveOf(heap, hash, nil, from, t, k, u).calls|)
    decreases U32 - |u|, 2, k
  {
    hide EntryOf;
    if k > 0 {
      MoveGranted(heap, hash, nil, from, t, k - 1, u);
      var p := MoveOf(heap, hash, nil, from, t, k - 1, u);
      EntryGranted(heap, hash, nil, from + |p.calls|, t, k - 1, p.table);
    }
  }

  lemma EntryGranted<V>(heap: Allocator, hash: Key -> nat, nil: V, from: nat, t: seq<Element<V>>, k: nat, u: seq<Element<V>>)
    requires TableInv(hash, t) && TableInv(hash, u) && k < |t| && EntryOf(heap, hash, nil, from, t, k, u).ok
    ensures Grants(heap, from, |EntryOf(heap, hash, nil, from, t, k, u).calls|)
    decreases U32 - |u|, 2, 0
  {
    hide PutOf;
    if t[k].inUse {
      assert NearHome(hash, t, k);
      PutGranted(heap, hash, nil, from, u, t[k]);
    }
  }

  /** How many tables a put needs depends on the table and the entry alone, and so does the table it ends with: with a heap
      that refuses nothing either it fails, as it then does with any, or it needs n, and then it succeeds exactly with a
      heap that grants n. */
  lemma NeedsExactly<V>(plenty: Allocator, heap: Allocator, hash: Key -> nat, nil: V, from: nat,
                        t: seq<Element<V>>, e: Element<V>)
    requires TableInv(hash, t) && Storable(e) && forall k :: plenty.grants(k)
    ensures var need, o := PutOf(plenty, hash, nil, 0, t, e), PutOf(heap, hash, nil, from, t, e);
            && (o.ok <==> need.ok && Grants(heap, from, |need.calls|))
            && (o.ok ==> o.table == need.table && |o.calls| == |need.calls|)
  {
    hide PutOf;
    var need, o := PutOf(plenty, hash, nil, 0, t, e), PutOf(heap, hash, nil, from, t, e);
    if o.ok {
      PutRepeats(heap, plenty, hash, nil, from, 0, t, e);
      PutGranted(heap, hash, nil, from, t, e);
    } else if need.ok && Grants(heap, from, |need.calls|) {
      PutRepeats(plenty, heap, hash, nil, 0, from, t, e);
    }
  }
}
