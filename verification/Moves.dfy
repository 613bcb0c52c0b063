/** Moving a table's entries into another one at a time: where each goes, which is the first to find no room there, and
    how many have gone by then. */
module Moves {
  import opened Bits
  import opened ProbeTable
  import opened Displacement

  // ---- one entry ----

  ghost predicate Storable<V>(e: Element<V>) {
    e.inUse && e.keyLen == |e.key| < U32
  }

  lemma {:induction false} ChosenUnique<V>(hash: Key -> nat, u: seq<Element<V>>, key: Key, i: nat, j: nat)
    requires UniqueKeys(u) && Chosen(hash, u, key, i) && Chosen(hash, u, key, j)
    ensures i == j
  {
    if key !in Contents(u) {
      assert Dist(Home(hash, key, |u|), i, |u|) == Dist(Home(hash, key, |u|), j, |u|);
    }
  }

  /** The table with the entry where put puts it if there is room. */
  ghost function With<V>(hash: Key -> nat, u: seq<Element<V>>, e: Element<V>): (r: seq<Element<V>>)
    requires TableInv(hash, u) && Storable(e)
    ensures TableInv(hash, r) && |r| == |u|
  {
    if exists i: nat :: Chosen(hash, u, e.key, i) then
      var i: nat :| Chosen(hash, u, e.key, i);
      Store(hash, u, i, e.key, e.data);
      u[i := e]
    else u
  }

  lemma WithIs<V>(hash: Key -> nat, u: seq<Element<V>>, e: Element<V>, i: nat)
    requires TableInv(hash, u) && Storable(e) && Chosen(hash, u, e.key, i)
    ensures With(hash, u, e) == u[i := e]
  {
    forall j: nat | Chosen(hash, u, e.key, j) ensures j == i {
      ChosenUnique(hash, u, e.key, i, j);
    }
  }

  // ---- the entries of a table, first slot first ----

  /** Table u after the first k slots of t have been moved into it. */
  ghost function Filled<V>(hash: Key -> nat, t: seq<Element<V>>, k: nat, u: seq<Element<V>>): (r: seq<Element<V>>)
    requires TableInv(hash, t) && TableInv(hash, u) && k <= |t|
    ensures TableInv(hash, r) && |r| == |u|
  {
    if k == 0 then u else
      var before := Filled(hash, t, k - 1, u);
      if t[k - 1].inUse then assert NearHome(hash, t, k - 1); With(hash, before, t[k - 1]) else before
  }

  /** Slot i has an entry that finds no room when its turn comes. */
  ghost predicate Stuck<V>(hash: Key -> nat, t: seq<Element<V>>, i: nat, u: seq<Element<V>>)
    requires TableInv(hash, t) && TableInv(hash, u) && i < |t|
  {
    t[i].inUse && !HasRoom(hash, Filled(hash, t, i, u), t[i].key)
  }

  /** And it is the first. */
  ghost predicate Blocked<V>(hash: Key -> nat, t: seq<Element<V>>, i: nat, u: seq<Element<V>>)
    requires TableInv(hash, t) && TableInv(hash, u)
  {
    i < |t| && Stuck(hash, t, i, u) && forall j: nat :: j < i ==> !Stuck(hash, t, j, u)
  }

  ghost function Empty<V>(hash: Key -> nat, n: nat, nil: V): (u: seq<Element<V>>)
    requires PowerOfTwo(n) && n < U32
    ensures TableInv(hash, u) && |u| == n
  {
    seq(n, _ => Blank(nil))
  }

  // ---- counting ----

  lemma KeysOfPrefix<V>(t: seq<Element<V>>, k: nat)
    requires UniqueKeys(t) && k <= |t|
    ensures UniqueKeys(t[..k]) && |Contents(t[..k])| <= k
  {
    var head := t[..k];
    assert UniqueKeys(head);
    if k == 0 {
      assert Contents(head) == map[];
    } else {
      forall key | key in Contents(head).Keys ensures exists i :: i in Stretch(0, k, k) && Holds(head, i, key) {
        var i := SlotOf(head, key);
        assert i in Stretch(0, k, k);
      }
      KeysPerSlots(head, Contents(head).Keys, Stretch(0, k, k));
      StretchSize(0, k, k);
    }
  }

  lemma LiveAreKeys<V>(t: seq<Element<V>>)
    requires UniqueKeys(t)
    ensures |Live(t)| <= |Contents(t)|
  {
    forall i | i in Live(t) ensures t[i].key in Contents(t).Keys {
      LiveKeyIn(t, i);
    }
    SlotsPerKeys(t, Live(t), Contents(t).Keys);
  }

  /** A table that is not full and has no room for an absent key holds eight entries at least: those the probe met. */
  lemma NoRoomMeansEight<V>(hash: Key -> nat, u: seq<Element<V>>, key: Key)
    requires TableInv(hash, u) && key !in Contents(u) && |Contents(u)| < |u| && !HasRoom(hash, u, key)
    ensures |Contents(u)| >= 8
  {
    LiveAreKeys(u);
    var home := Home(hash, key, |u|);
    var met := Stretch(home, |u|, 8);
    forall i | i in met ensures i in Live(u) {
      assert Probed(hash, u, key, i);
    }
    SubsetSize(met, Live(u));
    StretchSize(home, |u|, 8);
  }

  /** So if entry i of t finds no room in a larger table that holds what came before it, eight or more came before it. */
  lemma StuckAfterEight<V>(hash: Key -> nat, t: seq<Element<V>>, i: nat, u: seq<Element<V>>)
    requires TableInv(hash, t) && TableInv(hash, u) && i < |t| < |u| && t[i].inUse
    requires UniqueKeys(t[..i]) && Contents(u) == Contents(t[..i]) && !HasRoom(hash, u, t[i].key)
    ensures |Contents(t[..i])| >= 8
  {
    KeysOfPrefix(t, i);
    assert t[i].key !in Contents(t[..i]);
    NoRoomMeansEight(hash, u, t[i].key);
  }

  /** What has moved out is missing. */
  lemma MovedMissing<V>(t: seq<Element<V>>, k: nat, nil: V)
    requires UniqueKeys(t) && k <= |t|
    ensures UniqueKeys(t[..k]) && UniqueKeys(DropPrefix(t, k, nil))
    ensures |Contents(DropPrefix(t, k, nil))| + |Contents(t[..k])| == |Contents(t)|
  {
    MoveConservesContents(t, k, nil);
    var head, rest := Contents(t[..k]), Contents(DropPrefix(t, k, nil));
    assert Contents(t).Keys == head.Keys + rest.Keys;
    assert |head.Keys + rest.Keys| == |head.Keys| + |rest.Keys|;
    assert |head| == |head.Keys| && |rest| == |rest.Keys| && |Contents(t)| == |Contents(t).Keys|;
  }

  /** Together: a move that breaks off at entry i for want of room has taken eight entries at least. */
  lemma EightMissing<V>(hash: Key -> nat, t: seq<Element<V>>, i: nat, u: seq<Element<V>>, nil: V)
    requires TableInv(hash, t) && TableInv(hash, u) && i < |t| < |u| && t[i].inUse
    requires UniqueKeys(t[..i]) && Contents(u) == Contents(t[..i]) && !HasRoom(hash, u, t[i].key)
    ensures UniqueKeys(DropPrefix(t, i, nil)) && |Contents(DropPrefix(t, i, nil))| + 8 <= |Contents(t)|
  {
    StuckAfterEight(hash, t, i, u);
    MovedMissing(t, i, nil);
  }
}
