/** The open-addressing map of sys/include/lib/hashmap.h: eight probes, no tombstones, growth by rehashing. */
module HashMap {
  import opened Bits
  import opened ProbeTable
  import opened Allocation
  import opened Moves
  import opened Growth
  import CString

  datatype Option<+T> = None | Some(value: T)

  /** What a put or a rehash did on the way, when it failed: the calls of Create it made, the table it was growing from
      when it gave up, and how many of that table's slots had by then been moved into an abandoned replacement. */
  datatype Trace<V> = Trace(calls: seq<CreateCall>, before: seq<Element<V>>, moved: nat)

  class HashMap<V> {
    const hash: Key -> nat
    const nil: V
    const heap: Allocator
    var tableSize: nat
    var size: nat
    var data: array?<Element<V>>

    ghost predicate Valid()
      reads this, data
    {
      && data != null && data.Length == tableSize
      && TableInv(hash, data[..])
      && size == |Live(data[..])|
    }

    ghost function Table(): seq<Element<V>>
      reads this, data
      requires Valid()
    {
      data[..]
    }

    ghost function Map(): map<Key, V>
      reads this, data
      requires Valid()
    {
      Contents(data[..])
    }

    /** Uninitialised storage for a map; Create must follow. */
    constructor (hash: Key -> nat, nil: V, heap: Allocator)
      ensures this.hash == hash && this.nil == nil && this.heap == heap
    {
      this.hash, this.nil, this.heap := hash, nil, heap;
    }

    method HashHelperIntHelper(key: Key) returns (home: nat)
      requires tableSize > 0
      ensures home == Home(hash, key, tableSize)
    {
      home := hash(key) % tableSize;
    }

    static method MatchHelper(element: Element<V>, key: Key) returns (matches: bool)
      requires element.keyLen == |element.key|
      ensures matches <==> element.key == key
    {
      if element.keyLen != |key| {
        return false;
      }
      var c := CString.Memcmp(element.key, key, |key|);
      assert element.key[..|key|] == element.key && key[..|key|] == key;
      matches := c == 0;
    }

    method HashHelper(key: Key) returns (found: bool, index: nat)
      requires Valid() && |key| < U32
      ensures found <==> HasRoom(hash, Table(), key)
      ensures found ==> Chosen(hash, Table(), key, index)
    {
      index := 0;
      if size >= tableSize {
        return false, 0;
      }
      ghost var t := Table();
      var start := HashHelperIntHelper(key);
      var curr: nat, total: nat := start, 0;
      var i := 0;
      while i < MAX_CHAIN_LENGTH
        invariant 0 <= i <= MAX_CHAIN_LENGTH && Cursor(start, curr, tableSize, i)
        invariant forall s: nat :: Met(start, s, tableSize, i) ==> !Holds(t, s, key)
        invariant total <= i
        invariant total == i <==> forall s: nat :: Met(start, s, tableSize, i) ==> t[s].inUse
      {
        var inUse := data[curr].inUse;
        if inUse { total := total + 1; }
        if inUse {
          assert NearHome(hash, t, curr);
          var matches := MatchHelper(data[curr], key);
          if matches {
            KeyFound(hash, t, key, curr);
            return true, curr;
          }
        }
        ProbeStep(start, curr, tableSize, i);
        curr := (curr + 1) % tableSize;
        i := i + 1;
      }
      KeyAbsent(hash, t, key);
      curr := start;
      if total < MAX_CHAIN_LENGTH {
        i := 0;
        while i < MAX_CHAIN_LENGTH
          invariant 0 <= i <= MAX_CHAIN_LENGTH && Cursor(start, curr, tableSize, i)
          invariant forall s: nat :: Met(start, s, tableSize, i) ==> t[s].inUse
        {
          if !data[curr].inUse {
            FreeFound(hash, t, key, curr);
            return true, curr;
          }
          ProbeStep(start, curr, tableSize, i);
          curr := (curr + 1) % tableSize;
          i := i + 1;
        }
      }
      NoneFree(hash, t, key);
      return false, 0;
    }

    method Create(initialSize: nat) returns (r: int)
      requires initialSize < U32
      modifies this, heap
      ensures r == 0 || r == 1
      ensures r == 0 <==> heap.Served(CreateCall(initialSize, old(heap.asked)))
      ensures heap.asked == old(heap.asked) + (if PowerOfTwo(initialSize) then 1 else 0)
      ensures tableSize == initialSize && size == 0
      ensures r == 0 ==> Valid() && fresh(data) && Table() == Empty(hash, initialSize, nil) && Map() == map[]
      ensures r == 1 ==> data == if PowerOfTwo(initialSize) then null else old(data)
    {
      tableSize := initialSize;
      size := 0;
      if initialSize == 0 || And(initialSize, initialSize - 1) != 0 {
        if initialSize != 0 { PowerTest(initialSize); }
        return 1;
      }
      PowerTest(initialSize);
      data := heap.Kcalloc(initialSize, nil);
      if data == null {
        return 1;
      }
      FreshTable(hash, initialSize, nil);
      return 0;
    }

    method Get(key: Key) returns (value: V)
      requires Valid() && |key| < U32
      ensures value == if key in Map() then Map()[key] else nil
    {
      ghost var t := Table();
      var start := HashHelperIntHelper(key);
      var curr: nat := start;
      var i := 0;
      while i < MAX_CHAIN_LENGTH
        invariant 0 <= i <= MAX_CHAIN_LENGTH && Cursor(start, curr, tableSize, i)
        invariant forall s: nat :: Met(start, s, tableSize, i) ==> !Holds(t, s, key)
      {
        if data[curr].inUse {
          assert NearHome(hash, t, curr);
          var matches := MatchHelper(data[curr], key);
          if matches {
            LiveKeyIn(t, curr);
            return data[curr].data;
          }
        }
        ProbeStep(start, curr, tableSize, i);
        curr := (curr + 1) % tableSize;
        i := i + 1;
      }
      KeyAbsent(hash, t, key);
      return nil;
    }

    /** Zero a slot and count one entry less, as remove and the iterator do. */
    method BlankSlot(i: nat)
      requires Valid() && i < tableSize && data[i].inUse
      modifies this`size, data
      ensures Valid() && Table() == old(Table())[i := Blank(nil)] && Map() == old(Map()) - {old(data[i].key)}
    {
      ghost var t := Table();
      Free(hash, t, i, Blank(nil));
      data[i] := Blank(nil);
      assert data[..] == t[i := Blank(nil)];
      size := size - 1;
    }

    method Remove(key: Key) returns (r: int)
      requires Valid() && |key| < U32
      modifies this`size, data
      ensures Valid() && data == old(data) && tableSize == old(tableSize)
      ensures r == if key in old(Map()) then 0 else 1
      ensures Map() == old(Map()) - {key}
      ensures r == 0 ==> exists i: nat :: Holds(old(Table()), i, key) && Table() == old(Table())[i := Blank(nil)]
      ensures r == 1 ==> Table() == old(Table())
    {
      ghost var t := Table();
      var start := HashHelperIntHelper(key);
      var curr: nat := start;
      var i := 0;
      while i < MAX_CHAIN_LENGTH
        invariant 0 <= i <= MAX_CHAIN_LENGTH && Cursor(start, curr, tableSize, i)
        invariant forall s: nat :: Met(start, s, tableSize, i) ==> !Holds(t, s, key)
        invariant data[..] == t && size == old(size)
      {
        if data[curr].inUse {
          assert NearHome(hash, t, curr);
          var matches := MatchHelper(data[curr], key);
          if matches {
            LiveKeyIn(t, curr);
            assert Holds(t, curr, key);
            BlankSlot(curr);
            return 0;
          }
        }
        ProbeStep(start, curr, tableSize, i);
        curr := (curr + 1) % tableSize;
        i := i + 1;
      }
      KeyAbsent(hash, t, key);
      assert Map() - {key} == Map();
      return 1;
    }

    /** Free a slot field by field: its key length stays behind. */
    method VacateSlot(i: nat)
      requires Valid() && i < tableSize && data[i].inUse
      modifies this`size, data
      ensures Valid() && Map() == old(Map()) - {old(data[i].key)}
      ensures Table() == old(Table())[i := Element([], old(data[i].keyLen), false, nil)]
    {
      hide NearHome;
      ghost var t := Table();
      var e := data[i].(inUse := false, data := nil, key := []);
      Free(hash, t, i, e);
      data[i] := e;
      assert data[..] == t[i := e];
      size := size - 1;
    }

    /** Blanks everything but the stored key length, which stays behind in the freed slot. */
    method RemoveAndReturnKey(key: Key) returns (stored: Option<Key>)
      requires Valid() && |key| < U32
      modifies this`size, data
      ensures Valid() && data == old(data) && tableSize == old(tableSize)
      ensures stored == if key in old(Map()) then Some(key) else None
      ensures Map() == old(Map()) - {key}
      ensures stored == None ==> Table() == old(Table())
      ensures stored != None ==>
                exists i: nat :: Holds(old(Table()), i, key) && Table() == old(Table())[i := Element([], |key|, false, nil)]
    {
      ghost var t := Table();
      var start := HashHelperIntHelper(key);
      var curr: nat := start;
      var i := 0;
      while i < MAX_CHAIN_LENGTH
        invariant 0 <= i <= MAX_CHAIN_LENGTH && Cursor(start, curr, tableSize, i)
        invariant forall s: nat :: Met(start, s, tableSize, i) ==> !Holds(t, s, key)
        invariant data[..] == t && size == old(size)
      {
        if data[curr].inUse {
          assert NearHome(hash, t, curr);
          var matches := MatchHelper(data[curr], key);
          if matches {
            stored := Some(data[curr].key);
            LiveKeyIn(t, curr);
            assert Holds(t, curr, key);
            VacateSlot(curr);
            return;
          }
        }
        ProbeStep(start, curr, tableSize, i);
        curr := (curr + 1) % tableSize;
        i := i + 1;
      }
      KeyAbsent(hash, t, key);
      assert Map() - {key} == Map();
      return None;
    }

    /** What is left when growth is given up: a table with the map's contents, of which the first `moved` slots
        went with an abandoned replacement. The size refused tells which: nothing is lost if it was that of a replacement
        for this very table, and eight entries or more if it was for a table that was itself a replacement. */
    ghost predicate GaveUp(trace: Trace<V>, contents: map<Key, V>)
      reads this, data
      requires Valid()
    {
      trace.calls != [] && LeftBy(Last(trace.calls), trace.before, trace.moved, contents)
    }

    ghost predicate LeftBy(refused: nat, before: seq<Element<V>>, moved: nat, contents: map<Key, V>)
      reads this, data
      requires Valid()
    {
      && TableInv(hash, before) && Contents(before) == contents
      && moved <= |before| && Table() == DropPrefix(before, moved, nil)
      && AtLeastTwice(refused, tableSize)
      && if refused == Doubled(tableSize) then
           moved == 0 && Map() == contents
         else
           && AtLeastTwice(refused, 2 * tableSize)
           && moved < |before| && before[moved].inUse && |Map()| + 8 <= |contents|
    }

    /** Put loses something exactly when the table refused was not the first replacement for the one it was growing from,
        and then eight entries at least. */
    lemma LosesExactly(trace: Trace<V>, contents: map<Key, V>)
      requires Valid() && GaveUp(trace, contents)
      ensures Map() == contents <==> Last(trace.calls) == Doubled(tableSize)
      ensures Map() != contents ==> |Map()| + 8 <= |contents|
      ensures Submap(Map(), contents)
    {
      MoveConserves(hash, trace.before, trace.moved, nil);
    }

    /** With a heap that refuses nothing, growth is given up only where the size has wrapped to 0. */
    lemma GivesUpAtWrap(trace: Trace<V>, contents: map<Key, V>, from: nat, n: nat)
      requires Valid() && GaveUp(trace, contents) && PowerOfTwo(n) && n < U32
      requires heap.Account(trace.calls, from, n, false) && forall k :: heap.grants(k)
      ensures Last(trace.calls) == 0
    {
      heap.RefusedSize(trace.calls, from, n);
    }

    /** The tail of hashmap_put: fill in the slot it has found. */
    method StoreAt(index: nat, key: Key, value: V)
      requires Valid() && |key| < U32 && Chosen(hash, Table(), key, index)
      modifies this`size, data
      ensures Valid() && Map() == old(Map())[key := value]
      ensures Table() == old(Table())[index := Element(key, |key|, true, value)]
    {
      hide NearHome, Contents, HasRoom, Home, Dist;
      ghost var t := Table();
      Store(hash, t, index, key, value);
      data[index] := data[index].(data := value, key := key, keyLen := |key|);
      if !data[index].inUse {
        data[index] := data[index].(inUse := true);
        size := size + 1;
      }
      assert data[..] == t[index := Element(key, |key|, true, value)];
    }

    /** The loop of hashmap_put: grow the table until it has a place for the key, or give up. */
    method FindPlace(key: Key, ghost e: Element<V>) returns (r: int, index: nat, ghost trace: Trace<V>)
      requires Valid() && Storable(e) && e.key == key
      modifies this, data, heap
      ensures Valid() && (data == old(data) || fresh(data)) && tableSize >= old(tableSize)
      ensures r == 0 || r == 1
      ensures heap.Trail(trace.calls, old(heap.asked), old(tableSize), r == 0)
      ensures r == 0 ==> tableSize == SizeAfter(trace.calls, old(tableSize))
      ensures r == 0 ==> Map() == old(Map()) && Chosen(hash, Table(), key, index)
      ensures r == 1 ==> GaveUp(trace, old(Map()))
      ensures trace.calls == [] ==> data == old(data) && Table() == old(Table())
      ensures PutOf(heap, hash, nil, old(heap.asked), old(Table()), e)
              == Outcome(r == 0, if r == 0 then With(hash, Table(), e) else Table(), trace.calls)
      decreases U32 - tableSize, 6
    {
      hide PutOf, RehashOf, OnTheWay, GaveUp, HasRoom, Chosen;
      trace := Trace([], Table(), 0);
      ghost var t, contents, from := Table(), Map(), heap.asked;
      ghost var goal := PutOf(heap, hash, nil, from, t, e);
      PutStarts(heap, hash, nil, from, t, e);
      var found;
      found, index := HashHelper(key);
      while !found
        invariant Valid() && (data == old(data) || fresh(data)) && tableSize >= old(tableSize) && Map() == contents
        invariant found <==> HasRoom(hash, Table(), key)
        invariant found ==> Chosen(hash, Table(), key, index)
        invariant heap.Trail(trace.calls, from, |t|, true) && tableSize == SizeAfter(trace.calls, |t|)
        invariant trace.calls == [] ==> data == old(data) && Table() == t
        invariant OnTheWay(goal, heap, hash, nil, trace.calls, heap.asked, Table(), e)
        decreases U32 - tableSize
      {
        ghost var before, asked, first := Table(), heap.asked, trace;
        r, trace := Grow(first, from, |t|);
        PutGrows(goal, heap, hash, nil, first.calls, asked, before, e);
        if r != 0 {
          return 1, 0, trace;
        }
        found, index := HashHelper(key);
      }
      PutFits(goal, heap, hash, nil, trace.calls, heap.asked, Table(), e);
      r := 0;
    }

    /** One round of that loop. */
    method Grow(ghost first: Trace<V>, ghost from: nat, ghost n: nat) returns (r: int, ghost trace: Trace<V>)
      requires Valid() && heap.Trail(first.calls, from, n, true) && tableSize == SizeAfter(first.calls, n)
      modifies this, data, heap
      ensures Valid() && r in {0, 1} && trace.calls != []
      ensures heap.Trail(trace.calls, from, n, r == 0)
      ensures r == 0 ==> tableSize == SizeAfter(trace.calls, n)
      ensures r == 0 ==> Map() == old(Map()) && tableSize >= 2 * old(tableSize) && fresh(data)
      ensures r != 0 ==> data == old(data) && tableSize == old(tableSize) && GaveUp(trace, old(Map()))
      ensures var g := RehashOf(heap, hash, nil, old(heap.asked), old(Table()));
              && g.ok == (r == 0) && Table() == g.table && trace.calls == first.calls + g.calls
              && (r == 0 ==> heap.asked == old(heap.asked) + |g.calls|)
      decreases U32 - tableSize, 5
    {
      hide LeftBy, TableInv, RehashOf;
      ghost var more;
      ghost var mid, size := heap.asked, tableSize;
      r, more := RehashHelper();
      trace := Trace(first.calls + more.calls, more.before, more.moved);
      heap.TrailAppend(first.calls, more.calls, from, n, mid, size, r == 0);
      LastAppend(first.calls, more.calls);
    }

    /** A put comes to what PutOf says, whatever the table and the heap; and that keeps the promises listed here. */
    method Put(key: Key, value: V) returns (r: int, ghost trace: Trace<V>)
      requires Valid() && |key| < U32
      modifies this, data, heap
      ensures Valid() && (data == old(data) || fresh(data)) && tableSize >= old(tableSize)
      ensures r == 0 || r == 1
      ensures heap.Trail(trace.calls, old(heap.asked), old(tableSize), r == 0)
      ensures r == 0 ==> tableSize == SizeAfter(trace.calls, old(tableSize))
      ensures r == 0 ==> Map() == old(Map())[key := value]
      ensures r == 1 ==> GaveUp(trace, old(Map()))
      ensures trace.calls == [] <==> old(HasRoom(hash, Table(), key))
      ensures trace.calls == [] ==> data == old(data)
      ensures PutOf(heap, hash, nil, old(heap.asked), old(Table()), EntryFor(key, value))
              == Outcome(r == 0, Table(), trace.calls)
      decreases U32 - tableSize, 7
    {
      hide LeftBy, HasRoom, Chosen, NearHome, PutOf;
      ghost var e := EntryFor(key, value);
      PutAsks(heap, hash, nil, heap.asked, Table(), e);
      var index;
      r, index, trace := FindPlace(key, e);
      if r == 0 {
        WithIs(hash, Table(), e, index);
        StoreAt(index, key, value);
      }
    }

    static method RehashIterator(newHash: HashMap<V>, e: Element<V>) returns (r: int, ghost calls: seq<CreateCall>)
      requires newHash.Valid() && Storable(e)
      modifies newHash, newHash.data, newHash.heap
      ensures newHash.Valid() && (newHash.data == old(newHash.data) || fresh(newHash.data))
      ensures newHash.tableSize >= old(newHash.tableSize)
      ensures r == -1 || r == 1
      ensures newHash.heap.Trail(calls, old(newHash.heap.asked), old(newHash.tableSize), r == -1)
      ensures r == -1 ==> newHash.tableSize == SizeAfter(calls, old(newHash.tableSize))
      ensures r == -1 ==> newHash.Map() == old(newHash.Map())[e.key := e.data]
      ensures calls == [] ==> newHash.data == old(newHash.data)
      ensures PutOf(newHash.heap, newHash.hash, newHash.nil, old(newHash.heap.asked), old(newHash.Table()), e)
              == Outcome(r == -1, newHash.Table(), calls)
      decreases U32 - newHash.tableSize, 8
    {
      hide PutOf;
      assert EntryFor(e.key, e.data) == e;
      ghost var trace;
      var temp;
      temp, trace := newHash.Put(e.key, e.data);
      calls := trace.calls;
      if 0 < temp {
        return 1, calls;
      }
      return -1, calls;
    }

    /** Midway through a move of table t: the new map holds exactly what its first i slots held, and they are
        blank here. MoveConserves says that the two maps then share no key and together are what t stood for. */
    ghost predicate Moving(newHash: HashMap<V>, t: seq<Element<V>>, i: nat)
      reads this, data, newHash, newHash.data
    {
      && Valid() && newHash.Valid() && i <= |t| && UniqueKeys(t) && UniqueKeys(t[..i])
      && Table() == DropPrefix(t, i, nil) && newHash.Map() == Contents(t[..i])
    }

    lemma MovingStarts(newHash: HashMap<V>, t: seq<Element<V>>)
      requires Valid() && newHash.Valid() && t == Table() && newHash.Map() == map[]
      ensures Moving(newHash, t, 0)
    {
      MoveNone(t, nil);
    }

    lemma MovingEnds(newHash: HashMap<V>, t: seq<Element<V>>)
      requires Moving(newHash, t, |t|)
      ensures Valid() && newHash.Valid() && Table() == DropPrefix(t, |t|, nil) && newHash.Map() == Contents(t)
    {
      assert t[..|t|] == t;
    }

    /** A move that broke off at live entry i for a refused table. */
    lemma LeavesAt(calls: seq<CreateCall>, from: nat, t: seq<Element<V>>, i: nat, u: seq<Element<V>>)
      requires Valid() && TableInv(hash, t) && TableInv(hash, u) && |u| == 2 * |t|
      requires i < |t| && t[i].inUse && Table() == DropPrefix(t, i, nil) && |Map()| + 8 <= |Contents(t)|
      requires heap.Account(calls, from, |u|, false)
      ensures calls != [] && LeftBy(Last(calls), t, i, Contents(t))
    {
      heap.RefusedTwice(calls, from, |u|);
      assert tableSize == |Table()| == |t|;
      TwiceAgain(Last(calls), |t|);
    }

    /** The callback on live entry i of table t, whose first i slots are what the new map holds. */
    static method HandOver(newHash: HashMap<V>, e: Element<V>, ghost i: nat, ghost t: seq<Element<V>>)
        returns (r: int, ghost calls: seq<CreateCall>)
      requires newHash.Valid() && TableInv(newHash.hash, t) && i < |t| < newHash.tableSize && e == t[i] && e.inUse
      requires UniqueKeys(t[..i]) && newHash.Map() == Contents(t[..i])
      modifies newHash, newHash.data, newHash.heap
      ensures newHash.Valid() && (newHash.data == old(newHash.data) || fresh(newHash.data))
      ensures newHash.tableSize >= old(newHash.tableSize)
      ensures r == -1 || r == 1
      ensures newHash.heap.Trail(calls, old(newHash.heap.asked), old(newHash.tableSize), r == -1)
      ensures r == -1 ==> newHash.tableSize == SizeAfter(calls, old(newHash.tableSize))
      ensures r == -1 ==> UniqueKeys(t[..i + 1]) && newHash.Map() == Contents(t[..i + 1])
      ensures r == 1 ==> && UniqueKeys(DropPrefix(t, i, newHash.nil))
                         && |Contents(DropPrefix(t, i, newHash.nil))| + 8 <= |Contents(t)|
      ensures EntryOf(newHash.heap, newHash.hash, newHash.nil, old(newHash.heap.asked), t, i, old(newHash.Table()))
              == Outcome(r == -1, newHash.Table(), calls)
      decreases U32 - newHash.tableSize, 9
    {
      hide PutOf;
      MoveSlot(t, i);
      assert NearHome(newHash.hash, t, i);
      PutAsks(newHash.heap, newHash.hash, newHash.nil, newHash.heap.asked, newHash.Table(), e);
      if !HasRoom(newHash.hash, newHash.Table(), e.key) {
        EightMissing(newHash.hash, t, i, newHash.Table(), newHash.nil);
      }
      r, calls := RehashIterator(newHash, e);
    }

    /** The body of the iterator's loop: hand a live entry to the callback and, if that asks for it, blank the slot. */
    method MoveEntry(newHash: HashMap<V>, i: nat, ghost t: seq<Element<V>>) returns (r: int, ghost calls: seq<CreateCall>)
      requires Moving(newHash, t, i) && i < tableSize && TableInv(hash, t) && newHash != this && newHash.data != data
      requires newHash.hash == hash && newHash.heap == heap && newHash.nil == nil && newHash.tableSize > tableSize
      modifies this`size, data, newHash, newHash.data, heap
      ensures data == old(data) && tableSize == old(tableSize) && newHash.Valid()
      ensures newHash.data == old(newHash.data) || fresh(newHash.data)
      ensures newHash.tableSize >= old(newHash.tableSize)
      ensures r == 0 || r == 1
      ensures heap.Trail(calls, old(heap.asked), old(newHash.tableSize), r == 0)
      ensures r == 0 ==> newHash.tableSize == SizeAfter(calls, old(newHash.tableSize))
      ensures r == 0 ==> Moving(newHash, t, i + 1)
      ensures r == 1 ==> && Valid() && Table() == DropPrefix(t, i, nil) && t[i].inUse
                         && |Map()| + 8 <= |Contents(t)|
      ensures EntryOf(heap, hash, nil, old(heap.asked), t, i, old(newHash.Table()))
              == Outcome(r == 0, newHash.Table(), calls)
      decreases U32 - tableSize, 1
    {
      hide PutOf, NearHome, Contents;
      calls := [];
      var p := data[i];
      DropNext(t, i, nil);
      if !p.inUse {
        heap.NoCalls(newHash.tableSize);
        MoveSlot(t, i);
      }
      if p.inUse {
        var c;
        c, calls := HandOver(newHash, p, i, t);
        if c == -1 {
          BlankSlot(i);
        } else if c != 0 {
          return 1, calls;
        }
      }
      return 0, calls;
    }

    /** hashmap_iterate_pairs with hashmap_rehash_iterator as the callback. */
    method IteratePairs(newHash: HashMap<V>, ghost t: seq<Element<V>>, ghost u: seq<Element<V>>)
        returns (r: int, ghost moved: nat, ghost calls: seq<CreateCall>)
      requires Valid() && newHash.Valid() && newHash != this && newHash.data != data
      requires newHash.hash == hash && newHash.heap == heap && newHash.nil == nil
      requires t == Table() && u == newHash.Table() && |u| == 2 * |t| && Contents(u) == map[]
      modifies this`size, data, newHash, newHash.data, heap
      ensures Valid() && newHash.Valid() && data == old(data) && tableSize == old(tableSize)
      ensures newHash.data == old(newHash.data) || fresh(newHash.data)
      ensures newHash.tableSize >= |u|
      ensures r == 0 || r == 1
      ensures heap.Trail(calls, old(heap.asked), |u|, r == 0)
      ensures r == 0 ==> newHash.tableSize == SizeAfter(calls, |u|)
      ensures moved <= |t| && Table() == DropPrefix(t, moved, nil)
      ensures r == 0 ==> newHash.Map() == Contents(t)
      ensures r == 1 ==> calls != [] && LeftBy(Last(calls), t, moved, Contents(t))
      ensures MoveOf(heap, hash, nil, old(heap.asked), t, |t|, u) == Progress(r == 0, newHash.Table(), calls, moved)
      decreases U32 - tableSize, 2
    {
      hide MoveOf, EntryOf, LeftBy, Moving, TableInv, Allocator.Account;
      moved, calls := 0, [];
      ghost var from := heap.asked;
      MoveStarts(heap, hash, nil, from, t, u);
      MovingStarts(newHash, t);
      heap.NoCalls(|u|);
      for i := 0 to tableSize
        invariant moved == i <= tableSize && data == old(data) && tableSize == old(tableSize)
        invariant newHash.Valid() && Moving(newHash, t, i)
        invariant newHash.data == old(newHash.data) || fresh(newHash.data)
        invariant newHash.tableSize >= |u| && newHash.tableSize == SizeAfter(calls, |u|)
        invariant heap.Trail(calls, from, |u|, true)
        invariant MoveOf(heap, hash, nil, from, t, i, u) == Progress(true, newHash.Table(), calls, i)
      {
        ghost var before, now, mid, size := calls, newHash.Table(), heap.asked, newHash.tableSize;
        ghost var more;
        r, more := MoveEntry(newHash, i, t);
        calls := before + more;
        heap.TrailAppend(before, more, from, |u|, mid, size, r == 0);
        MoveSteps(heap, hash, nil, from, t, i, u, now, before, Outcome(r == 0, newHash.Table(), more));
        if r != 0 {
          LeavesAt(calls, from, t, i, u);
          return 1, i, calls;
        }
        moved := i + 1;
      }
      MovingEnds(newHash, t);
      return 0, moved, calls;
    }

    method Destroy()
      modifies this
      ensures tableSize == 0 && size == 0 && data == null
    {
      tableSize, size, data := 0, 0, null;
    }

    /** The struct copy that installs a replacement; the storage is then shared and the replacement forgotten. */
    method CopyFrom(newHash: HashMap<V>)
      requires newHash != this && newHash.Valid() && newHash.hash == hash
      modifies this
      ensures Valid() && tableSize == newHash.tableSize && data == newHash.data && Map() == newHash.Map()
    {
      tableSize, size, data := newHash.tableSize, newHash.size, newHash.data;
    }

    /** The start of hashmap_rehash_helper: ask for a table of twice the size. */
    method Replacement() returns (r: int, newHash: HashMap<V>, ghost call: CreateCall)
      requires Valid()
      modifies heap
      ensures fresh(newHash) && newHash.hash == hash && newHash.heap == heap && newHash.nil == nil
      ensures r in {0, 1} && call == CreateCall(Doubled(tableSize), old(heap.asked))
      ensures heap.Trail([call], old(heap.asked), tableSize, r == 0)
      ensures r == 0 ==> && newHash.Valid() && fresh(newHash.data) && call.size == 2 * tableSize == newHash.tableSize
                         && newHash.Table() == Empty(hash, call.size, nil) && newHash.Map() == map[]
      ensures r != 0 ==> AtLeastTwice(call.size, tableSize)
      ensures r == 0 <==> heap.Served(call)
    {
      DoubleWraps(tableSize);
      var newSize := Doubled(tableSize);
      newHash := new HashMap<V>(hash, nil, heap);
      call := CreateCall(newSize, heap.asked);
      r := newHash.Create(newSize);
    }

    /** Its move, into the table that the given call has granted. */
    method MoveInto(newHash: HashMap<V>, ghost call: CreateCall) returns (r: int, ghost trace: Trace<V>)
      requires Valid() && newHash.Valid() && newHash != this && newHash.data != data
      requires newHash.hash == hash && newHash.heap == heap && newHash.nil == nil
      requires call.size == 2 * tableSize == newHash.tableSize && PowerOfTwo(call.size)
      requires call.size == Doubled(tableSize) && heap.Served(call) && heap.asked == call.request + 1
      requires heap.Trail([call], call.request, tableSize, true)
      requires newHash.Table() == Empty(hash, call.size, nil) && newHash.Map() == map[]
      modifies this`size, data, newHash, newHash.data, heap
      ensures Valid() && newHash.Valid() && data == old(data) && tableSize == old(tableSize)
      ensures newHash.data == old(newHash.data) || fresh(newHash.data)
      ensures newHash.tableSize >= old(newHash.tableSize)
      ensures r in {0, 1} && heap.Trail(trace.calls, call.request, tableSize, r == 0)
      ensures RehashOf(heap, hash, nil, call.request, old(Table()))
              == Outcome(r == 0, if r == 0 then newHash.Table() else Table(), trace.calls)
      ensures r == 0 ==> newHash.Map() == old(Map()) && newHash.tableSize == SizeAfter(trace.calls, tableSize)
      ensures r != 0 ==> GaveUp(trace, old(Map()))
      decreases U32 - tableSize, 3
    {
      hide MoveOf, LeftBy;
      ghost var t, u, mid := Table(), newHash.Table(), heap.asked;
      ghost var moved, calls;
      r, moved, calls := IteratePairs(newHash, t, u);
      trace := Trace([call] + calls, t, moved);
      heap.TrailAppend([call], calls, call.request, tableSize, mid, |u|, r == 0);
      if r != 0 {
        LastAppend([call], calls);
      }
    }

    method RehashHelper() returns (r: int, ghost trace: Trace<V>)
      requires Valid()
      modifies this, data, heap
      ensures Valid() && r in {0, 1} && trace.calls != []
      ensures heap.Trail(trace.calls, old(heap.asked), old(tableSize), r == 0)
      ensures RehashOf(heap, hash, nil, old(heap.asked), old(Table())) == Outcome(r == 0, Table(), trace.calls)
      ensures r == 0 ==> Map() == old(Map()) && tableSize >= 2 * old(tableSize) && fresh(data)
      ensures r == 0 ==> tableSize == SizeAfter(trace.calls, old(tableSize))
      ensures r != 0 ==> data == old(data) && tableSize == old(tableSize) && GaveUp(trace, old(Map()))
      decreases U32 - tableSize, 4
    {
      hide MoveOf;
      MoveNone(Table(), nil);
      var newHash;
      ghost var call;
      r, newHash, call := Replacement();
      if r != 0 {
        trace := Trace([call], Table(), 0);
        return;
      }
      r, trace := MoveInto(newHash, call);
      if r != 0 {
        return;
      }
      Destroy();
      CopyFrom(newHash);
    }
  }
}
