/** The hash map's table as a value: what a slot array means and which arrays are legal. */
module ProbeTable {

  import opened Bits

  const MAX_CHAIN_LENGTH: nat := 8

  type Key = seq<bv8>

  /** One slot of the table. `keyLen` is kept apart from `key` as the source keeps it. */
  datatype Element<V> = Element(key: Key, keyLen: nat, inUse: bool, data: V)

  /** A slot after memset to zero; `nil` is the null pointer of the value type. */
  function Blank<V>(nil: V): Element<V> {
    Element([], 0, false, nil)
  }

  /** The slot a key is hashed to in a table of n slots. */
  function Home(hash: Key -> nat, key: Key, n: nat): (home: nat)
    requires n > 0
    ensures home < n
  {
    hash(key) % n
  }

  /** How many steps past `home` the probe first reaches `slot`, going round the table. */
  function Dist(home: nat, slot: nat, n: nat): nat
    requires home < n && slot < n
  {
    if home <= slot then slot - home else slot + n - home
  }

  ghost predicate UniqueKeys<V>(t: seq<Element<V>>) {
    forall i, j :: 0 <= i < |t| && 0 <= j < |t| && t[i].inUse && t[j].inUse && t[i].key == t[j].key ==> i == j
  }

  ghost predicate NearHome<V>(hash: Key -> nat, t: seq<Element<V>>, i: nat)
    requires i < |t|
  {
    && t[i].keyLen == |t[i].key| < U32
    && Dist(Home(hash, t[i].key, |t|), i, |t|) < MAX_CHAIN_LENGTH
  }

  /** The invariant of a table: power-of-two size, live keys unique, each within eight slots of its home. */
  ghost predicate TableInv<V>(hash: Key -> nat, t: seq<Element<V>>) {
    && PowerOfTwo(|t|) && |t| < U32
    && (forall i :: 0 <= i < |t| && t[i].inUse ==> NearHome(hash, t, i))
    && UniqueKeys(t)
  }

  ghost function Live<V>(t: seq<Element<V>>): set<nat> {
    set i: nat | i < |t| && t[i].inUse
  }

  /** The map a table stands for. */
  ghost function Contents<V>(t: seq<Element<V>>): map<Key, V>
    requires UniqueKeys(t)
  {
    map i | 0 <= i < |t| && t[i].inUse :: t[i].key := t[i].data
  }

  /** The table after its first k slots have been moved out: the live ones among them are blank. */
  ghost function DropPrefix<V>(t: seq<Element<V>>, k: nat, nil: V): (u: seq<Element<V>>)
    requires k <= |t|
    ensures |u| == |t|
  {
    seq(|t|, j requires 0 <= j < |t| => if j < k && t[j].inUse then Blank(nil) else t[j])
  }

  ghost predicate Holds<V>(t: seq<Element<V>>, i: nat, key: Key) {
    i < |t| && t[i].inUse && t[i].key == key
  }

  /** Slot i is one of the eight probed for the key. */
  ghost predicate Probed<V>(hash: Key -> nat, t: seq<Element<V>>, key: Key, i: nat) {
    i < |t| && Dist(Home(hash, key, |t|), i, |t|) < MAX_CHAIN_LENGTH
  }

  /** Whether put can place the key without growing. A full table has no room, even for a key it holds. */
  ghost predicate HasRoom<V>(hash: Key -> nat, t: seq<Element<V>>, key: Key)
    requires UniqueKeys(t)
  {
    && |Live(t)| < |t|
    && (key in Contents(t) || exists i: nat :: Probed(hash, t, key, i) && !t[i].inUse)
  }

  /** The slot put must use: the key's own, or the free slot the probe meets first. */
  ghost predicate Chosen<V>(hash: Key -> nat, t: seq<Element<V>>, key: Key, i: nat)
    requires UniqueKeys(t)
  {
    && Probed(hash, t, key, i)
    && if key in Contents(t) then Holds(t, i, key) else
         !t[i].inUse && forall j: nat :: Probed(hash, t, key, j) && !t[j].inUse ==>
                                      Dist(Home(hash, key, |t|), i, |t|) <= Dist(Home(hash, key, |t|), j, |t|)
  }

  /** The slots a probe from `home` has met after i steps. */
  ghost predicate Met(home: nat, s: nat, n: nat, i: nat)
    requires home < n
  {
    s < n && Dist(home, s, n) < i
  }

  ghost predicate Submap<V>(small: map<Key, V>, big: map<Key, V>) {
    forall k :: k in small ==> k in big && small[k] == big[k]
  }

  // ---- what single-slot changes do ----

  lemma SlotOf<V>(t: seq<Element<V>>, key: Key) returns (i: nat)
    requires UniqueKeys(t) && key in Contents(t)
    ensures Holds(t, i, key) && Contents(t)[key] == t[i].data
  {
    var j :| 0 <= j < |t| && t[j].inUse && t[j].key == key;
    i := j;
  }

  lemma LiveKeyIn<V>(t: seq<Element<V>>, i: nat)
    requires UniqueKeys(t) && i < |t| && t[i].inUse
    ensures t[i].key in Contents(t) && Contents(t)[t[i].key] == t[i].data
  {
  }

  /** A map is the table's contents when the live slots agree with it and account for every key. */
  lemma ContentsIs<V>(t: seq<Element<V>>, m: map<Key, V>)
    requires UniqueKeys(t)
    requires forall i :: 0 <= i < |t| && t[i].inUse ==> t[i].key in m && m[t[i].key] == t[i].data
    requires forall k :: k in m ==> exists i :: Holds(t, i, k)
    ensures Contents(t) == m
  {
    forall k | k in m ensures k in Contents(t) && Contents(t)[k] == m[k] {
      var i :| Holds(t, i, k);
      LiveKeyIn(t, i);
    }
    forall k | k in Contents(t) ensures k in m {
      var i := SlotOf(t, k);
    }
  }

  /** Writing an entry into a free slot, for an absent key, adds it. */
  lemma FillFree<V>(hash: Key -> nat, t: seq<Element<V>>, i: nat, key: Key, value: V)
    requires TableInv(hash, t) && i < |t| && !t[i].inUse && |key| < U32
    requires key !in Contents(t)
    requires Dist(Home(hash, key, |t|), i, |t|) < MAX_CHAIN_LENGTH
    ensures var u := t[i := Element(key, |key|, true, value)];
            TableInv(hash, u) && Contents(u) == Contents(t)[key := value] && Live(u) == Live(t) + {i} && i !in Live(t)
  {
    var u := t[i := Element(key, |key|, true, value)];
    FillFreeContents(t, i, Element(key, |key|, true, value));
    forall j | 0 <= j < |u| && u[j].inUse ensures NearHome(hash, u, j) {
      assert j != i ==> NearHome(hash, t, j);
    }
  }

  lemma FillFreeContents<V>(t: seq<Element<V>>, i: nat, e: Element<V>)
    requires UniqueKeys(t) && i < |t| && !t[i].inUse && e.inUse
    requires e.key !in Contents(t)
    ensures UniqueKeys(t[i := e]) && Contents(t[i := e]) == Contents(t)[e.key := e.data]
  {
    var u := t[i := e];
    forall j | 0 <= j < |t| && t[j].inUse ensures t[j].key != e.key {
      LiveKeyIn(t, j);
    }
    var m := Contents(t)[e.key := e.data];
    forall j | 0 <= j < |u| && u[j].inUse ensures u[j].key in m && m[u[j].key] == u[j].data {
      if j != i { LiveKeyIn(t, j); }
    }
    forall k | k in m ensures exists j :: Holds(u, j, k) {
      if k == e.key {
        assert Holds(u, i, k);
      } else {
        var j := SlotOf(t, k);
        assert Holds(u, j, k);
      }
    }
    ContentsIs(u, m);
  }

  /** Overwriting the slot of a key that is present changes its value. */
  lemma Overwrite<V>(hash: Key -> nat, t: seq<Element<V>>, i: nat, value: V)
    requires TableInv(hash, t) && i < |t| && t[i].inUse
    ensures var u := t[i := t[i].(data := value)];
            TableInv(hash, u) && Contents(u) == Contents(t)[t[i].key := value] && Live(u) == Live(t)
  {
    var u := t[i := t[i].(data := value)];
    assert forall j :: 0 <= j < |u| ==> u[j].inUse == t[j].inUse && u[j].key == t[j].key;
    assert UniqueKeys(u);
    forall j | 0 <= j < |u| && u[j].inUse ensures NearHome(hash, u, j) {
      assert NearHome(hash, t, j);
    }
    var m := Contents(t)[t[i].key := value];
    forall j | 0 <= j < |u| && u[j].inUse ensures u[j].key in m && m[u[j].key] == u[j].data {
      LiveKeyIn(t, j);
    }
    forall k | k in m ensures exists j :: Holds(u, j, k) {
      LiveKeyIn(t, i);
      var j := SlotOf(t, k);
      assert Holds(u, j, k);
    }
    ContentsIs(u, m);
  }

  /** Freeing a live slot, whatever else is left in it, removes its key and nothing else. */
  lemma Free<V>(hash: Key -> nat, t: seq<Element<V>>, i: nat, e: Element<V>)
    requires TableInv(hash, t) && i < |t| && t[i].inUse && !e.inUse
    ensures var u := t[i := e];
            TableInv(hash, u) && Contents(u) == Contents(t) - {t[i].key} && Live(u) == Live(t) - {i} && i in Live(t)
  {
    FreeContents(t, i, e);
    var u := t[i := e];
    forall j | 0 <= j < |u| && u[j].inUse ensures NearHome(hash, u, j) {
      assert NearHome(hash, t, j);
    }
  }

  lemma FreeContents<V>(t: seq<Element<V>>, i: nat, e: Element<V>)
    requires UniqueKeys(t) && i < |t| && t[i].inUse && !e.inUse
    ensures UniqueKeys(t[i := e]) && Contents(t[i := e]) == Contents(t) - {t[i].key}
  {
    var u := t[i := e];
    var m := Contents(t) - {t[i].key};
    forall j | 0 <= j < |u| && u[j].inUse ensures u[j].key in m && m[u[j].key] == u[j].data {
      LiveKeyIn(t, j);
    }
    forall k | k in m ensures exists j :: Holds(u, j, k) {
      var j := SlotOf(t, k);
      assert Holds(u, j, k);
    }
    ContentsIs(u, m);
  }

  // ---- probing ----

  lemma KeyFound<V>(hash: Key -> nat, t: seq<Element<V>>, key: Key, i: nat)
    requires TableInv(hash, t) && Holds(t, i, key) && |Live(t)| < |t|
    ensures HasRoom(hash, t, key) && Chosen(hash, t, key, i)
  {
  }

  lemma KeyAbsent<V>(hash: Key -> nat, t: seq<Element<V>>, key: Key)
    requires TableInv(hash, t)
    requires forall s: nat :: s < |t| && Met(Home(hash, key, |t|), s, |t|, MAX_CHAIN_LENGTH) ==> !Holds(t, s, key)
    ensures key !in Contents(t)
  {
    forall i: nat | i < |t| && t[i].inUse ensures t[i].key != key {
      assert NearHome(hash, t, i);
      assert t[i].key == key ==> Met(Home(hash, key, |t|), i, |t|, MAX_CHAIN_LENGTH);
    }
  }

  lemma FreeFound<V>(hash: Key -> nat, t: seq<Element<V>>, key: Key, i: nat)
    requires TableInv(hash, t) && key !in Contents(t) && |Live(t)| < |t|
    requires Probed(hash, t, key, i) && !t[i].inUse
    requires var home := Home(hash, key, |t|);
             forall s: nat :: Met(home, s, |t|, Dist(home, i, |t|)) ==> t[s].inUse
    ensures HasRoom(hash, t, key) && Chosen(hash, t, key, i)
  {
  }

  lemma NoneFree<V>(hash: Key -> nat, t: seq<Element<V>>, key: Key)
    requires TableInv(hash, t) && key !in Contents(t)
    requires forall s: nat :: s < |t| && Met(Home(hash, key, |t|), s, |t|, MAX_CHAIN_LENGTH) ==> t[s].inUse
    ensures !HasRoom(hash, t, key)
  {
  }

  /** Where the probe stands after i steps; once it has been all round, every slot has been met. */
  ghost predicate Cursor(home: nat, curr: nat, n: nat, i: nat)
    requires home < n
  {
    curr < n && (i < n ==> Dist(home, curr, n) == i)
  }

  lemma SmallMod(a: nat, n: nat)
    requires a < n
    ensures a % n == a
  {
  }

  lemma NextSlot(curr: nat, n: nat)
    requires curr < n
    ensures (curr + 1) % n == if curr + 1 < n then curr + 1 else 0
  {
    if curr + 1 < n {
      SmallMod(curr + 1, n);
    }
  }

  /** The probe's step, as the source computes it, moves the cursor on and meets the slot it leaves. */
  lemma ProbeStep(home: nat, curr: nat, n: nat, i: nat)
    requires home < n && Cursor(home, curr, n, i)
    ensures Cursor(home, (curr + 1) % n, n, i + 1)
    ensures forall s: nat :: Met(home, s, n, i + 1) <==> Met(home, s, n, i) || s == curr
  {
    NextSlot(curr, n);
    forall s: nat ensures Met(home, s, n, i + 1) <==> Met(home, s, n, i) || s == curr {
      assert s < n && i < n && Dist(home, s, n) == i ==> s == curr;
    }
  }

  /** The slot that a probe from `home` is at after d steps. */
  function SlotAt(home: nat, d: nat, n: nat): (s: nat)
    requires home < n
    ensures s < n
  {
    if d == 0 then home else (SlotAt(home, d - 1, n) + 1) % n
  }

  lemma {:induction false} SlotAtDist(home: nat, d: nat, n: nat)
    requires home < n && d < n
    ensures Dist(home, SlotAt(home, d, n), n) == d
  {
    if d > 0 {
      SlotAtDist(home, d - 1, n);
      NextSlot(SlotAt(home, d - 1, n), n);
    }
  }

  lemma SlotReached(home: nat, s: nat, n: nat)
    requires home < n && s < n
    ensures Dist(home, s, n) < n && SlotAt(home, Dist(home, s, n), n) == s
  {
    SlotAtDist(home, Dist(home, s, n), n);
  }

  /** Storing an entry in the slot chosen for its key updates the map. */
  lemma Store<V>(hash: Key -> nat, t: seq<Element<V>>, i: nat, key: Key, value: V)
    requires TableInv(hash, t) && Chosen(hash, t, key, i) && |key| < U32
    ensures var u := t[i := Element(key, |key|, true, value)];
            && TableInv(hash, u) && Contents(u) == Contents(t)[key := value]
            && Live(u) == Live(t) + {i} && (i in Live(t) <==> t[i].inUse)
  {
    if key in Contents(t) {
      assert NearHome(hash, t, i);
      Overwrite(hash, t, i, value);
    } else {
      FillFree(hash, t, i, key, value);
    }
  }

  // ---- moving a table's entries out, first slot first ----

  lemma FreshTable<V>(hash: Key -> nat, n: nat, nil: V)
    requires PowerOfTwo(n) && n < U32
    ensures var t := seq(n, _ => Blank(nil)); TableInv(hash, t) && Contents(t) == map[] && Live(t) == {}
  {
  }

  /** What the first k slots held and what is left make up the map between them, and share no key. */
  lemma MoveConserves<V>(hash: Key -> nat, t: seq<Element<V>>, k: nat, nil: V)
    requires TableInv(hash, t) && k <= |t|
    ensures var rest := DropPrefix(t, k, nil);
            && TableInv(hash, rest) && UniqueKeys(t[..k])
            && Contents(t[..k]).Keys !! Contents(rest).Keys
            && Contents(t[..k]) + Contents(rest) == Contents(t)
  {
    var rest := DropPrefix(t, k, nil);
    forall j | 0 <= j < |rest| && rest[j].inUse ensures NearHome(hash, rest, j) {
      assert NearHome(hash, t, j);
    }
    MoveConservesContents(t, k, nil);
  }

  lemma HeadApart<V>(t: seq<Element<V>>, k: nat, nil: V)
    requires UniqueKeys(t) && k <= |t|
    ensures var rest := DropPrefix(t, k, nil);
            UniqueKeys(rest) && UniqueKeys(t[..k]) && Contents(t[..k]).Keys !! Contents(rest).Keys
  {
    var head, rest := t[..k], DropPrefix(t, k, nil);
    forall key | key in Contents(rest) ensures key !in Contents(head) {
      var i := SlotOf(rest, key);
      assert forall j :: 0 <= j < k && t[j].inUse ==> t[j].key != key;
    }
  }

  lemma MoveConservesContents<V>(t: seq<Element<V>>, k: nat, nil: V)
    requires UniqueKeys(t) && k <= |t|
    ensures var rest := DropPrefix(t, k, nil);
            && UniqueKeys(rest) && UniqueKeys(t[..k])
            && Contents(t[..k]).Keys !! Contents(rest).Keys
            && Contents(t[..k]) + Contents(rest) == Contents(t)
  {
    var head, rest := t[..k], DropPrefix(t, k, nil);
    HeadApart(t, k, nil);
    var m := Contents(head) + Contents(rest);
    forall i | 0 <= i < |t| && t[i].inUse ensures t[i].key in m && m[t[i].key] == t[i].data {
      if i < k { LiveKeyIn(head, i); } else { LiveKeyIn(rest, i); }
    }
    forall key | key in m ensures exists i :: Holds(t, i, key) {
      if key in Contents(rest) {
        var i := SlotOf(rest, key);
        assert Holds(t, i, key);
      } else {
        var i := SlotOf(head, key);
        assert Holds(t, i, key);
      }
    }
    ContentsIs(t, m);
  }

  lemma MoveNone<V>(t: seq<Element<V>>, nil: V)
    ensures DropPrefix(t, 0, nil) == t
  {
  }

  lemma DropNext<V>(t: seq<Element<V>>, k: nat, nil: V)
    requires k < |t|
    ensures DropPrefix(t, k + 1, nil) == if t[k].inUse then DropPrefix(t, k, nil)[k := Blank(nil)] else DropPrefix(t, k, nil)
  {
  }

  /** Moving slot k out takes the entry it holds, if any, from the rest to the moved part. */
  lemma MoveSlot<V>(t: seq<Element<V>>, k: nat)
    requires UniqueKeys(t) && k < |t|
    ensures UniqueKeys(t[..k]) && UniqueKeys(t[..k + 1])
    ensures t[k].inUse ==> Contents(t[..k + 1]) == Contents(t[..k])[t[k].key := t[k].data]
    ensures !t[k].inUse ==> Contents(t[..k + 1]) == Contents(t[..k])
  {
    var head, longer := t[..k], t[..k + 1];
    assert longer == head + [t[k]];
    if t[k].inUse {
      AppendLive(head, t[k]);
    } else {
      AppendFree(head, t[k]);
    }
  }

  lemma AppendLive<V>(t: seq<Element<V>>, e: Element<V>)
    requires UniqueKeys(t) && UniqueKeys(t + [e]) && e.inUse
    ensures Contents(t + [e]) == Contents(t)[e.key := e.data]
  {
    var longer := t + [e];
    var m := Contents(t)[e.key := e.data];
    forall i | 0 <= i < |longer| && longer[i].inUse ensures longer[i].key in m && m[longer[i].key] == longer[i].data {
      if i < |t| { LiveKeyIn(t, i); assert longer[|t|] == e; }
    }
    forall key | key in m ensures exists i :: Holds(longer, i, key) {
      if key == e.key {
        assert Holds(longer, |t|, key);
      } else {
        var i := SlotOf(t, key);
        assert Holds(longer, i, key);
      }
    }
    ContentsIs(longer, m);
  }

  lemma AppendFree<V>(t: seq<Element<V>>, e: Element<V>)
    requires UniqueKeys(t) && UniqueKeys(t + [e]) && !e.inUse
    ensures Contents(t + [e]) == Contents(t)
  {
    var longer := t + [e];
    forall i | 0 <= i < |longer| && longer[i].inUse
      ensures longer[i].key in Contents(t) && Contents(t)[longer[i].key] == longer[i].data
    {
      LiveKeyIn(t, i);
    }
    forall key | key in Contents(t) ensures exists i :: Holds(longer, i, key) {
      var i := SlotOf(t, key);
      assert Holds(longer, i, key);
    }
    ContentsIs(longer, Contents(t));
  }
}
