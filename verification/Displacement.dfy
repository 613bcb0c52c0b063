/** How crowded a legal table can be round any stretch of slots, and what that makes unstorable. */
module Displacement {
  import opened Bits
  import opened ProbeTable

  /** The keys whose home lies among the k slots from `a` on, going round the table. */
  ghost function KeysHomedIn<V>(hash: Key -> nat, t: seq<Element<V>>, a: nat, k: nat): set<Key>
    requires UniqueKeys(t) && a < |t|
  {
    set key | key in Contents(t) && Dist(a, Home(hash, key, |t|), |t|) < k
  }

  ghost function Stretch(a: nat, n: nat, m: nat): set<nat>
    requires a < n
  {
    set i: nat | i < n && Dist(a, i, n) < m
  }

  /** The slot m steps past a. */
  function Past(a: nat, n: nat, m: nat): nat
    requires a < n && m < n
  {
    if a + m < n then a + m else a + m - n
  }

  lemma DistPast(a: nat, n: nat, m: nat, i: nat)
    requires a < n && m < n && i < n
    ensures Dist(a, i, n) == m <==> i == Past(a, n, m)
  {
  }

  lemma StretchGrows(a: nat, n: nat, m: nat)
    requires a < n && m < n
    ensures Past(a, n, m) !in Stretch(a, n, m) && Stretch(a, n, m + 1) == Stretch(a, n, m) + {Past(a, n, m)}
  {
    forall i: nat | i < n ensures i in Stretch(a, n, m + 1) <==> i in Stretch(a, n, m) || i == Past(a, n, m) {
      DistPast(a, n, m, i);
    }
    DistPast(a, n, m, Past(a, n, m));
  }

  lemma {:induction false} StretchSize(a: nat, n: nat, m: nat)
    requires a < n
    ensures |Stretch(a, n, m)| == if m <= n then m else n
  {
    if m == 0 {
      assert Stretch(a, n, m) == {};
    } else {
      StretchSize(a, n, m - 1);
      if m <= n {
        StretchGrows(a, n, m - 1);
      } else {
        assert Stretch(a, n, m) == Stretch(a, n, m - 1);
      }
    }
  }

  /** Keys held at slots of a set are no more than the slots. */
  lemma {:induction false} KeysPerSlots<V>(t: seq<Element<V>>, keys: set<Key>, slots: set<nat>)
    requires forall key :: key in keys ==> exists i :: i in slots && Holds(t, i, key)
    ensures |keys| <= |slots|
    decreases |keys|
  {
    if keys != {} {
      var key :| key in keys;
      var i :| i in slots && Holds(t, i, key);
      forall other | other in keys - {key} ensures exists j :: j in slots - {i} && Holds(t, j, other) {
        var j :| j in slots && Holds(t, j, other);
        assert j in slots - {i};
      }
      KeysPerSlots(t, keys - {key}, slots - {i});
    }
  }

  /** And live slots are no more than the keys they hold. */
  lemma {:induction false} SlotsPerKeys<V>(t: seq<Element<V>>, slots: set<nat>, keys: set<Key>)
    requires UniqueKeys(t) && slots <= Live(t) && forall i :: i in slots ==> t[i].key in keys
    ensures |slots| <= |keys|
    decreases |slots|
  {
    if slots != {} {
      var i :| i in slots;
      SlotsPerKeys(t, slots - {i}, keys - {t[i].key});
    }
  }

  lemma SlotWithin<V>(hash: Key -> nat, t: seq<Element<V>>, a: nat, k: nat, key: Key) returns (i: nat)
    requires TableInv(hash, t) && a < |t| && k > 0 && key in KeysHomedIn(hash, t, a, k)
    ensures i in Stretch(a, |t|, k + 7) && Holds(t, i, key)
  {
    i := SlotOf(t, key);
    assert NearHome(hash, t, i);
  }

  /** Live keys with homes in k consecutive slots number at most k + 7, and never more than the table's slots. */
  lemma Pigeonhole<V>(hash: Key -> nat, t: seq<Element<V>>, a: nat, k: nat)
    requires TableInv(hash, t) && a < |t|
    ensures |KeysHomedIn(hash, t, a, k)| <= k + 7 && |KeysHomedIn(hash, t, a, k)| <= |t|
  {
    var keys := KeysHomedIn(hash, t, a, k);
    if k == 0 {
      assert keys == {};
    } else {
      var slots := Stretch(a, |t|, k + 7);
      forall key | key in keys ensures exists i :: i in slots && Holds(t, i, key) {
        var i := SlotWithin(hash, t, a, k, key);
      }
      KeysPerSlots(t, keys, slots);
      StretchSize(a, |t|, k + 7);
    }
  }

  /** The keys of a map that hash to the same 32-bit word as the given one. */
  ghost function Colliding<V>(hash: Key -> nat, m: map<Key, V>, key: Key): set<Key> {
    set other | other in m && hash(other) == hash(key)
  }

  /** No table, whatever its size, stands for a map in which nine keys have one hash. */
  lemma EightCollideAtMost<V>(hash: Key -> nat, t: seq<Element<V>>, key: Key)
    requires TableInv(hash, t)
    ensures |Colliding(hash, Contents(t), key)| <= 8
  {
    var home := Home(hash, key, |t|);
    var near := KeysHomedIn(hash, t, home, 1);
    Pigeonhole(hash, t, home, 1);
    assert Colliding(hash, Contents(t), key) <= near;
    SubsetSize(Colliding(hash, Contents(t), key), near);
  }

  lemma {:induction false} SubsetSize<T>(a: set<T>, b: set<T>)
    requires a <= b
    ensures |a| <= |b|
  {
    if a != {} {
      var x :| x in a;
      SubsetSize(a - {x}, b - {x});
    }
  }

  lemma CollidingMore<V>(hash: Key -> nat, m: map<Key, V>, key: Key, value: V)
    requires key !in m
    ensures |Colliding(hash, m[key := value], key)| == |Colliding(hash, m, key)| + 1
  {
    assert Colliding(hash, m[key := value], key) == Colliding(hash, m, key) + {key};
  }

  /** So a ninth colliding key cannot be added to a map that holds eight. */
  lemma NinthCannotEnter<V>(hash: Key -> nat, m: map<Key, V>, key: Key, value: V, t: seq<Element<V>>)
    requires TableInv(hash, t) && key !in m && |Colliding(hash, m, key)| >= 8
    ensures Contents(t) != m[key := value]
  {
    hide TableInv, Colliding;
    EightCollideAtMost(hash, t, key);
    CollidingMore(hash, m, key, value);
  }

  lemma {:induction false} Grows(n: nat, q: nat, p: nat)
    requires q < p
    ensures p * n >= q * n + n
    decreases p
  {
    if p > q + 1 {
      Grows(n, q, p - 1);
    }
    assert p * n == (p - 1) * n + n;
  }

  lemma Unique(n: nat, p: nat, s: nat, q: nat, r: nat)
    requires s < n && r < n && p * n + s == q * n + r
    ensures s == r
  {
    if p > q {
      Grows(n, q, p);
    } else if q > p {
      Grows(n, p, q);
    }
  }

  lemma ModUnique(h: nat, n: nat, q: nat, r: nat)
    requires r < n && h == q * n + r
    ensures h % n == r
  {
    var p, s := h / n, h % n;
    assert h == p * n + s;
    Unique(n, p, s, q, r);
  }

  lemma SplitDoubled(h: nat, n: nat, q: nat, r: nat, b: nat)
    requires h == q * (2 * n) + r && b <= 1
    ensures h == (2 * q + b) * n + (r - b * n)
  {
    assert q * (2 * n) == 2 * (q * n);
    assert (2 * q + b) * n == 2 * (q * n) + b * n;
  }

  lemma Divides(h: nat, d: nat) returns (q: nat, r: nat)
    requires d > 0
    ensures h == q * d + r && r < d && r == h % d
  {
    q, r := h / d, h % d;
  }

  lemma HalvedMod(h: nat, n: nat, d: nat, q: nat, r: nat)
    requires n > 0 && d == 2 * n && h == q * d + r && r < d
    ensures h % n == if r < n then r else r - n
  {
    var b := if r < n then 0 else 1;
    SplitDoubled(h, n, q, r, b);
    ModUnique(h, n, 2 * q + b, r - b * n);
  }

  lemma ModOfDouble(h: nat, n: nat, d: nat)
    requires n > 0 && d == 2 * n
    ensures h % d == h % n || h % d == h % n + n
  {
    var q, r := Divides(h, d);
    HalvedMod(h, n, d, q, r);
  }

  /** In the table of twice the size a key's home is where it was, or exactly one old table further on. */
  lemma DoubledHome(hash: Key -> nat, key: Key, n: nat)
    requires n > 0
    ensures Home(hash, key, 2 * n) == Home(hash, key, n) || Home(hash, key, 2 * n) == Home(hash, key, n) + n
  {
    ModOfDouble(hash(key), n, 2 * n);
  }

  // ---- room and place, probe by probe ----

  lemma FullExactly<V>(t: seq<Element<V>>)
    requires |t| > 0
    ensures |Live(t)| < |t| <==> exists i: nat :: i < |t| && !t[i].inUse
  {
    var all := Stretch(0, |t|, |t|);
    StretchSize(0, |t|, |t|);
    if i: nat :| i < |t| && !t[i].inUse {
      SubsetSize(Live(t), all - {i});
    } else {
      assert Live(t) == all;
    }
  }

  lemma ProbedExactly<V>(hash: Key -> nat, t: seq<Element<V>>, key: Key, d: nat)
    requires |t| > 0 && d < 8
    ensures Probed(hash, t, key, SlotAt(hash(key) % |t|, d, |t|))
  {
    var home := hash(key) % |t|;
    if d < |t| {
      SlotAtDist(home, d, |t|);
    } else {
      SlotReached(home, SlotAt(home, d, |t|), |t|);
    }
  }

  /** There is room for a key exactly if some slot is free, and the key is there or one of the eight slots from its home on,
      stepping modulo the size, is free. */
  lemma RoomExactly<V>(hash: Key -> nat, t: seq<Element<V>>, key: Key)
    requires TableInv(hash, t)
    ensures HasRoom(hash, t, key) <==>
            && (exists i: nat :: i < |t| && !t[i].inUse)
            && ((exists i: nat :: i < |t| && t[i].inUse && t[i].key == key)
                || exists d: nat :: d < 8 && !t[SlotAt(hash(key) % |t|, d, |t|)].inUse)
  {
    FullExactly(t);
    var home := hash(key) % |t|;
    if i: nat :| Probed(hash, t, key, i) && !t[i].inUse {
      SlotReached(home, i, |t|);
      assert !t[SlotAt(home, Dist(home, i, |t|), |t|)].inUse;
    }
    if d: nat :| d < 8 && !t[SlotAt(home, d, |t|)].inUse {
      ProbedExactly(hash, t, key, d);
    }
    if key in Contents(t) {
      var i := SlotOf(t, key);
      assert t[i].inUse && t[i].key == key;
    }
  }

  /** An absent key's place is the first free slot of those eight. */
  lemma PlaceExactly<V>(hash: Key -> nat, t: seq<Element<V>>, key: Key, i: nat)
    requires TableInv(hash, t) && key !in Contents(t) && Chosen(hash, t, key, i)
    ensures var home := hash(key) % |t|;
            exists d: nat :: d < 8 && i == SlotAt(home, d, |t|) && !t[i].inUse
                             && forall c: nat :: c < d ==> t[SlotAt(home, c, |t|)].inUse
  {
    var home := hash(key) % |t|;
    var d := Dist(home, i, |t|);
    SlotReached(home, i, |t|);
    forall c: nat | c < d ensures t[SlotAt(home, c, |t|)].inUse {
      ProbedExactly(hash, t, key, c);
      SlotAtDist(home, c, |t|);
    }
  }
}
