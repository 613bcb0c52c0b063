/** sys/src/mm/heap.c: a bump allocator that threads its live blocks on a doubly linked list. */
module HeapList {
  import opened Bits

  const HEADER: nat := 32  // sizeof(heap_header_t)
  const CAPACITY: nat := 40960  // HEAP_SIZE_PAGES * PAGE_SIZE
  const MAGIC: nat := 0xCA7F00D

  /** A block header; 0 is the null pointer. */
  datatype Header = Header(magic: nat, size: nat, next: nat, prev: nat)

  /** The headers in memory, by address. The arena starts zeroed. */
  type Memory = map<nat, Header>

  function At(m: Memory, a: nat): Header {
    if a in m then m[a] else Header(0, 0, 0, 0)
  }

  // ---- the list, as memory holds it ----

  ghost predicate Ascending(chain: seq<nat>) {
    forall i, j :: 0 <= i < j < |chain| ==> chain[i] < chain[j]
  }

  /** `prev` and `next` thread the addresses of the chain in order, and nothing comes before the first. */
  ghost predicate Linked(m: Memory, chain: seq<nat>)
    requires chain != []
  {
    && At(m, chain[0]).prev == 0
    && (forall i :: 0 < i < |chain| ==> At(m, chain[i]).prev == chain[i - 1])
    && (forall i :: 0 <= i < |chain| - 1 ==> At(m, chain[i]).next == chain[i + 1])
  }

  /** What kmalloc writes: the header at the bump pointer, and a back link in the one after it. */
  function Extended(m: Memory, at: nat, n: nat, next: nat): Memory {
    var m1 := m[at := Header(MAGIC, n, next, At(m, at).prev)];
    m1[next := At(m1, next).(prev := at)]
  }

  lemma ExtendLinks(m: Memory, chain: seq<nat>, n: nat, next: nat)
    requires chain != [] && Ascending(chain) && Linked(m, chain) && chain[|chain| - 1] < next
    ensures Ascending(chain + [next]) && Linked(Extended(m, chain[|chain| - 1], n, next), chain + [next])
  {
    var last := |chain| - 1;
    var m', longer := Extended(m, chain[last], n, next), chain + [next];
    forall i | 0 <= i < last ensures At(m', chain[i]) == At(m, chain[i]) {
      assert chain[i] < chain[last];
    }
    forall i | 0 < i < |longer| ensures At(m', longer[i]).prev == longer[i - 1] {
      if i < last { assert At(m', chain[i]) == At(m, chain[i]); }
    }
    forall i | 0 <= i < |longer| - 1 ensures At(m', longer[i]).next == longer[i + 1] {
      if i < last { assert At(m', chain[i]) == At(m, chain[i]); }
    }
  }

  /** What kfree writes: the neighbours of the header are linked to each other. */
  function Unlinked(m: Memory, hdr: nat): Memory {
    var m1 := if At(m, hdr).prev != 0 then m[At(m, hdr).prev := At(m, At(m, hdr).prev).(next := At(m, hdr).next)] else m;
    if At(m1, hdr).next != 0 then m1[At(m1, hdr).next := At(m1, At(m1, hdr).next).(prev := At(m1, hdr).prev)] else m1
  }

  function Without<T>(s: seq<T>, k: nat): seq<T>
    requires k < |s|
  {
    s[..k] + s[k + 1..]
  }

  /** Unlinking a header that is not the last changes one `next` and one `prev`. */
  lemma UnlinkWrites(m: Memory, chain: seq<nat>, k: nat)
    requires k < |chain| - 1 && Ascending(chain) && Linked(m, chain) && chain[0] > 0
    ensures var m' := Unlinked(m, chain[k]);
            && At(m', chain[k + 1]) == At(m, chain[k + 1]).(prev := if k == 0 then 0 else chain[k - 1])
            && (k > 0 ==> At(m', chain[k - 1]) == At(m, chain[k - 1]).(next := chain[k + 1]))
            && forall i :: 0 <= i < |chain| && i != k - 1 && i != k + 1 ==> At(m', chain[i]) == At(m, chain[i])
  {
    assert chain[k] < chain[k + 1];
    if k > 0 {
      assert chain[0] <= chain[k - 1] < chain[k];
    }
  }

  lemma UnlinkLinks(m: Memory, chain: seq<nat>, k: nat)
    requires k < |chain| - 1 && Ascending(chain) && Linked(m, chain) && chain[0] > 0
    ensures Ascending(Without(chain, k)) && Linked(Unlinked(m, chain[k]), Without(chain, k))
  {
    UnlinkWrites(m, chain, k);
    var m', rest := Unlinked(m, chain[k]), Without(chain, k);
    forall i | 0 < i < |rest| ensures At(m', rest[i]).prev == rest[i - 1] {
      var j := if i < k then i else i + 1;
      assert rest[i] == chain[j];
    }
    forall i | 0 <= i < |rest| - 1 ensures At(m', rest[i]).next == rest[i + 1] {
      var j := if i < k then i else i + 1;
      assert rest[i] == chain[j];
    }
  }

  // ---- what the heap stands for ----

  /** A live block: where its header lies and how many bytes follow it. */
  datatype Block = Block(at: nat, size: nat) {
    function Payload(): nat { at + HEADER }

    function End(): nat { at + HEADER + size }
  }

  /** The bump pointer, the byte count and the live blocks, oldest first. */
  datatype State = State(free: nat, bytes: nat, live: seq<Block>)

  function Bytes(live: seq<Block>): nat {
    if live == [] then 0 else Bytes(live[..|live| - 1]) + live[|live| - 1].size
  }

  /** Blocks lie in order, each ending before the next header, the last before the bump pointer; the byte count is
      that of the live ones and within the capacity. */
  ghost predicate Sound(arena: nat, s: State) {
    && 0 < arena <= s.free
    && (forall i :: 0 <= i < |s.live| ==> arena <= s.live[i].at && s.live[i].End() <= s.free)
    && (forall i, j :: 0 <= i < j < |s.live| ==> s.live[i].End() <= s.live[j].at)
    && s.bytes == Bytes(s.live) <= CAPACITY
  }

  /** The list's headers: those of the live blocks, oldest first, and the one at the bump pointer. */
  function Chain(s: State): (c: seq<nat>)
    ensures |c| == |s.live| + 1
  {
    seq(|s.live|, i requires 0 <= i < |s.live| => s.live[i].at) + [s.free]
  }

  /** Memory threads exactly the live blocks, and each header records its block's size. */
  ghost predicate Represents(m: Memory, s: State) {
    Linked(m, Chain(s)) && Recorded(m, s.live)
  }

  ghost predicate Recorded(m: Memory, live: seq<Block>) {
    forall i :: 0 <= i < |live| ==> RecordedAt(m, live[i])
  }

  predicate RecordedAt(m: Memory, b: Block) {
    At(m, b.at).size == b.size && At(m, b.at).magic == MAGIC
  }

  /** An allocation that fits: the bump pointer moves over a header and n bytes, and a live block is added. */
  function Allocate(s: State, n: nat): (nat, State) {
    if s.bytes + n > CAPACITY then (0, s)
    else (s.free + HEADER, State(s.free + HEADER + n, s.bytes + n, s.live + [Block(s.free, n)]))
  }

  function Release(s: State, k: nat): State
    requires k < |s.live| && s.live[k].size <= s.bytes
  {
    State(s.free, s.bytes - s.live[k].size, Without(s.live, k))
  }

  lemma ChainAscends(arena: nat, s: State)
    requires Sound(arena, s)
    ensures Ascending(Chain(s)) && Chain(s)[0] > 0
  {
  }

  lemma {:induction false} BytesWithout(live: seq<Block>, k: nat)
    requires k < |live|
    ensures live[k].size <= Bytes(live) && Bytes(Without(live, k)) == Bytes(live) - live[k].size
  {
    var n := |live| - 1;
    var rest := Without(live, k);
    if k == n {
      assert rest == live[..n];
    } else {
      assert rest[..|rest| - 1] == Without(live[..n], k);
      BytesWithout(live[..n], k);
    }
  }

  lemma BytesWith(live: seq<Block>, b: Block)
    ensures Bytes(live + [b]) == Bytes(live) + b.size
  {
    assert (live + [b])[..|live|] == live;
  }

  lemma AllocateSound(arena: nat, s: State, n: nat)
    requires Sound(arena, s)
    ensures Sound(arena, Allocate(s, n).1)
  {
    hide Bytes;
    var b := Block(s.free, n);
    var live := s.live + [b];
    BytesWith(s.live, b);
    forall i | 0 <= i < |live| ensures arena <= live[i].at && live[i].End() <= b.End() {
      assert live[i] == if i < |s.live| then s.live[i] else b;
    }
    forall i, j | 0 <= i < j < |live| ensures live[i].End() <= live[j].at {
      assert live[i] == s.live[i] && live[j] == if j < |s.live| then s.live[j] else b;
    }
  }

  lemma WithoutInOrder(live: seq<Block>, k: nat)
    requires k < |live| && forall i, j :: 0 <= i < j < |live| ==> live[i].End() <= live[j].at
    ensures var rest := Without(live, k); forall i, j :: 0 <= i < j < |rest| ==> rest[i].End() <= rest[j].at
  {
    var rest := Without(live, k);
    forall i, j | 0 <= i < j < |rest| ensures rest[i].End() <= rest[j].at {
      var i', j' := if i < k then i else i + 1, if j < k then j else j + 1;
      assert rest[i] == live[i'] && rest[j] == live[j'];
    }
  }

  lemma WithoutWithin(arena: nat, free: nat, live: seq<Block>, k: nat)
    requires k < |live| && forall i :: 0 <= i < |live| ==> arena <= live[i].at && live[i].End() <= free
    ensures var rest := Without(live, k); forall i :: 0 <= i < |rest| ==> arena <= rest[i].at && rest[i].End() <= free
  {
    var rest := Without(live, k);
    forall i | 0 <= i < |rest| ensures arena <= rest[i].at && rest[i].End() <= free {
      assert rest[i] == live[if i < k then i else i + 1];
    }
  }

  lemma ReleaseSound(arena: nat, s: State, k: nat)
    requires Sound(arena, s) && k < |s.live|
    ensures s.live[k].size <= s.bytes && Sound(arena, Release(s, k))
  {
    hide Without, Bytes;
    BytesWithout(s.live, k);
    WithoutInOrder(s.live, k);
    WithoutWithin(arena, s.free, s.live, k);
  }

  lemma AllocateRepresented(arena: nat, m: Memory, s: State, n: nat)
    requires Sound(arena, s) && Represents(m, s) && s.bytes + n <= CAPACITY
    ensures Represents(Extended(m, s.free, n, s.free + HEADER + n), Allocate(s, n).1)
  {
    ChainAscends(arena, s);
    ExtendLinks(m, Chain(s), n, s.free + HEADER + n);
    assert Chain(Allocate(s, n).1) == Chain(s) + [s.free + HEADER + n];
    AllocateRecorded(arena, m, s, n);
  }

  lemma AllocateRecorded(arena: nat, m: Memory, s: State, n: nat)
    requires Sound(arena, s) && Recorded(m, s.live)
    ensures Recorded(Extended(m, s.free, n, s.free + HEADER + n), s.live + [Block(s.free, n)])
  {
  }

  lemma ReleaseRepresented(arena: nat, m: Memory, s: State, k: nat)
    requires Sound(arena, s) && Represents(m, s) && k < |s.live| && s.live[k].size <= s.bytes
    ensures Represents(Unlinked(m, s.live[k].at), Release(s, k))
  {
    ChainAscends(arena, s);
    assert Chain(s)[k] == s.live[k].at;
    UnlinkLinks(m, Chain(s), k);
    assert Chain(Release(s, k)) == Without(Chain(s), k);
    ReleaseRecorded(arena, m, s, k);
  }

  lemma ReleaseRecorded(arena: nat, m: Memory, s: State, k: nat)
    requires Sound(arena, s) && Represents(m, s) && k < |s.live|
    ensures Recorded(Unlinked(m, s.live[k].at), Without(s.live, k))
  {
    ChainAscends(arena, s);
    var c := Chain(s);
    UnlinkWrites(m, c, k);
    forall j | 0 <= j < |s.live| ensures RecordedAt(Unlinked(m, s.live[k].at), s.live[j]) {
      assert RecordedAt(m, s.live[j]) && c[j] == s.live[j].at && c[k] == s.live[k].at;
    }
  }

  lemma SizeKept(arena: nat, m: Memory, s: State, k: nat)
    requires Sound(arena, s) && Represents(m, s) && k < |s.live|
    ensures At(Unlinked(m, s.live[k].at), s.live[k].at).size == s.live[k].size
  {
  }

  // ---- the code ----

  class Heap {
    const arena: nat
    var heapStart: nat
    var freePtr: nat
    var bytesAllocated: nat
    var memory: Memory
    ghost var live: seq<Block>

    ghost function Abstract(): State
      reads this
    {
      State(if heapStart == 0 then arena else freePtr, bytesAllocated, live)
    }

    ghost predicate Valid()
      reads this
    {
      && (heapStart == 0 || heapStart == arena)
      && Sound(arena, Abstract()) && Represents(memory, Abstract())
    }

    /** Before the first call nothing is mapped; `arena` is where k_mmap will put the zeroed pages. */
    constructor (arena: nat)
      requires arena > 0
      ensures Valid() && Abstract() == State(arena, 0, []) && this.arena == arena
    {
      this.arena := arena;
      heapStart, freePtr, bytesAllocated, memory, live := 0, 0, 0, map[], [];
    }

    method HeapInit()
      requires Valid() && heapStart == 0
      modifies this
      ensures Valid() && heapStart == arena && Abstract() == old(Abstract())
    {
      heapStart := arena;
      freePtr := heapStart;
    }

    /** The header writes of kmalloc. */
    method WriteHeader(n: nat) returns (next: nat)
      requires freePtr + HEADER + n < U64
      modifies this`memory
      ensures next == freePtr + HEADER + n && memory == Extended(old(memory), freePtr, n, next)
    {
      memory := memory[freePtr := At(memory, freePtr).(size := n)];
      next := (freePtr + (HEADER + n)) % U64;
      memory := memory[freePtr := At(memory, freePtr).(magic := MAGIC)];
      memory := memory[freePtr := At(memory, freePtr).(next := next)];
      memory := memory[next := At(memory, next).(prev := freePtr)];
    }

    /** kmalloc once the request is known to fit. */
    method Bump(n: nat) returns (ptr: nat)
      requires Valid() && heapStart != 0 && bytesAllocated + n <= CAPACITY && freePtr + HEADER + n < U64
      modifies this
      ensures Valid() && (ptr, Abstract()) == Allocate(old(Abstract()), n)
    {
      hide Sound, Represents, Extended;
      ghost var s := Abstract();
      AllocateSound(arena, s, n);
      AllocateRepresented(arena, memory, s, n);
      var next := WriteHeader(n);
      live := live + [Block(freePtr, n)];
      freePtr := next;
      bytesAllocated := bytesAllocated + n;
      ptr := next - n;
      assert Abstract() == Allocate(s, n).1;
    }

    method Kmalloc(n: nat) returns (ptr: nat)
      requires Valid() && bytesAllocated + n < U64 && Abstract().free + HEADER + n < U64
      modifies this
      ensures Valid() && (ptr, Abstract()) == Allocate(old(Abstract()), n)
      ensures ptr == 0 <==> Bytes(old(live)) + n > 40960
      ensures live == if ptr == 0 then old(live) else old(live) + [Block(ptr - 32, n)]
    {
      hide Represents, Linked, Chain;
      if heapStart == 0 {
        HeapInit();
      }
      if (bytesAllocated + n) % U64 > CAPACITY {
        return 0;
      }
      ptr := Bump(n);
    }

    /** The link writes of kfree. */
    method UnlinkHeader(hdr: nat)
      modifies this`memory
      ensures memory == Unlinked(old(memory), hdr)
    {
      if At(memory, hdr).prev != 0 {
        memory := memory[At(memory, hdr).prev := At(memory, At(memory, hdr).prev).(next := At(memory, hdr).next)];
      }
      if At(memory, hdr).next != 0 {
        memory := memory[At(memory, hdr).next := At(memory, At(memory, hdr).next).(prev := At(memory, hdr).prev)];
      }
    }

    /** Give back the k-th live block. */
    method Kfree(ptr: nat, ghost k: nat)
      requires Valid() && k < |live| && ptr == live[k].Payload()
      modifies this
      ensures Valid() && live == old(live)[..k] + old(live)[k + 1..] && freePtr == old(freePtr)
      ensures old(live)[k].size <= old(bytesAllocated) && Abstract() == Release(old(Abstract()), k)
    {
      hide Sound, Represents, Unlinked;
      ghost var m, s := memory, Abstract();
      ReleaseSound(arena, s, k);
      ReleaseRepresented(arena, m, s, k);
      var hdr := ptr - HEADER;
      SizeKept(arena, m, s, k);
      UnlinkHeader(hdr);
      bytesAllocated := bytesAllocated - At(memory, hdr).size;
      live := Without(live, k);
    }
  }
}
