/** Runs of kmalloc and kfree: what the list, the blocks and the two counters are at every moment. */
module HeapRuns {
  import opened Bits
  import opened HeapList

  // ---- walking the list ----

  /** Follow `prev` from a header, at most k times. */
  function Back(m: Memory, a: nat, k: nat): seq<nat>
    decreases k
  {
    if k == 0 || At(m, a).prev == 0 then [] else [At(m, a).prev] + Back(m, At(m, a).prev, k - 1)
  }

  function NewestFirst(live: seq<Block>): seq<nat> {
    if live == [] then [] else [live[|live| - 1].at] + NewestFirst(live[..|live| - 1])
  }

  lemma {:induction false} BackFrom(arena: nat, m: Memory, s: State, i: nat, k: nat)
    requires Sound(arena, s) && Represents(m, s) && i <= |s.live| && i <= k
    ensures Back(m, Chain(s)[i], k) == NewestFirst(s.live[..i])
  {
    if i > 0 {
      assert Chain(s)[i - 1] == s.live[i - 1].at > 0;
      assert s.live[..i][..i - 1] == s.live[..i - 1];
      BackFrom(arena, m, s, i - 1, k - 1);
    }
  }

  /** The `prev` chain from the bump pointer visits exactly the live blocks, newest first, and stops. */
  lemma BackVisitsLive(arena: nat, m: Memory, s: State, k: nat)
    requires Sound(arena, s) && Represents(m, s) && k >= |s.live|
    ensures Back(m, s.free, k) == NewestFirst(s.live)
  {
    assert s.live[..|s.live|] == s.live;
    BackFrom(arena, m, s, |s.live|, k);
  }

  /** `next` mirrors `prev`: whatever lies behind a visited header points back at it. */
  lemma NextMirrorsPrev(arena: nat, m: Memory, s: State, i: nat)
    requires Sound(arena, s) && Represents(m, s) && i < |s.live|
    ensures At(m, At(m, s.live[i].at).next).prev == s.live[i].at
    ensures At(m, s.live[i].at).prev != 0 ==> At(m, At(m, s.live[i].at).prev).next == s.live[i].at
  {
    var c := Chain(s);
    assert c[i] == s.live[i].at;
    assert At(m, c[i]).next == c[i + 1] && At(m, c[i + 1]).prev == c[i];
    if i > 0 {
      assert At(m, c[i]).prev == c[i - 1] && At(m, c[i - 1]).next == c[i];
    }
  }

  /** Payloads of different live blocks share no byte with each other or with any header. */
  lemma PayloadsApart(arena: nat, s: State, i: nat, j: nat, byte: nat)
    requires Sound(arena, s) && i < |s.live| && j < |s.live| && s.live[i].Payload() <= byte < s.live[i].End()
    ensures arena <= byte < s.free
    ensures s.live[j].Payload() <= byte < s.live[j].End() ==> i == j
    ensures !(s.live[j].at <= byte < s.live[j].Payload())
  {
  }

  // ---- runs ----

  /** Ask for n bytes, or give back the k-th live block; to give back what is not live changes nothing. */
  datatype Op = Malloc(n: nat) | Free(k: nat)

  ghost predicate Step(s: State, op: Op, ptr: nat, s': State) {
    match op
    case Malloc(n) => (ptr, s') == Allocate(s, n)
    case Free(k) =>
      ptr == 0 && if k < |s.live| then s.live[k].size <= s.bytes && s' == Release(s, k) else s' == s
  }

  ghost predicate Run(arena: nat, states: seq<State>, ops: seq<Op>, ptrs: seq<nat>) {
    && |states| == |ops| + 1 && |ptrs| == |ops| && states[0] == State(arena, 0, [])
    && forall i :: 0 <= i < |ops| ==> Step(states[i], ops[i], ptrs[i], states[i + 1])
  }

  function SpentBy(op: Op, ptr: nat): nat {
    if op.Malloc? && ptr != 0 then HEADER + op.n else 0
  }

  /** A header and n bytes for every allocation that was granted. */
  function Spent(ops: seq<Op>, ptrs: seq<nat>): nat
    requires |ptrs| == |ops|
  {
    if ops == [] then 0 else
      var n := |ops| - 1;
      Spent(ops[..n], ptrs[..n]) + SpentBy(ops[n], ptrs[n])
  }

  lemma StepSound(arena: nat, s: State, op: Op, ptr: nat, s': State)
    requires Sound(arena, s) && Step(s, op, ptr, s')
    ensures Sound(arena, s') && s'.free == s.free + SpentBy(op, ptr)
  {
    match op {
      case Malloc(k) => AllocateSound(arena, s, k);
      case Free(k) =>
        if k < |s.live| {
          ReleaseSound(arena, s, k);
        }
    }
  }

  lemma SpentMore(ops: seq<Op>, ptrs: seq<nat>, n: nat)
    requires |ops| == |ptrs| && n < |ops|
    ensures Spent(ops[..n + 1], ptrs[..n + 1]) == Spent(ops[..n], ptrs[..n]) + SpentBy(ops[n], ptrs[n])
  {
    assert ops[..n + 1][..n] == ops[..n] && ptrs[..n + 1][..n] == ptrs[..n];
  }

  /** At every moment of every run the live blocks are sound, their bytes are counted exactly and within the capacity,
      and the bump pointer is past everything ever granted: nothing given back is used again. */
  lemma {:induction false} RunSound(arena: nat, states: seq<State>, ops: seq<Op>, ptrs: seq<nat>, n: nat)
    requires arena > 0 && Run(arena, states, ops, ptrs) && n <= |ops|
    ensures Sound(arena, states[n]) && states[n].free == arena + Spent(ops[..n], ptrs[..n])
  {
    hide Step, SpentBy;
    if n > 0 {
      RunSound(arena, states, ops, ptrs, n - 1);
      assert Step(states[n - 1], ops[n - 1], ptrs[n - 1], states[n]);
      StepSound(arena, states[n - 1], ops[n - 1], ptrs[n - 1], states[n]);
      SpentMore(ops, ptrs, n - 1);
    }
  }

  lemma {:induction false} FreeGrows(arena: nat, states: seq<State>, ops: seq<Op>, ptrs: seq<nat>, m: nat, n: nat)
    requires arena > 0 && Run(arena, states, ops, ptrs) && m <= n <= |ops|
    ensures states[m].free <= states[n].free
  {
    hide Step, Sound, SpentBy;
    if m < n {
      FreeGrows(arena, states, ops, ptrs, m, n - 1);
      RunSound(arena, states, ops, ptrs, n - 1);
      assert Step(states[n - 1], ops[n - 1], ptrs[n - 1], states[n]);
      StepSound(arena, states[n - 1], ops[n - 1], ptrs[n - 1], states[n]);
    }
  }

  lemma Granted(arena: nat, s: State, op: Op, ptr: nat, s': State)
    requires Sound(arena, s) && Step(s, op, ptr, s') && ptr != 0
    ensures op.Malloc? && ptr == s.free + HEADER && s'.free == ptr + op.n
  {
  }

  /** In a client's own terms: over every run each block granted lies, header and all, behind all those granted before it,
      whether or not they have been given back. */
  lemma NeverReused(arena: nat, states: seq<State>, ops: seq<Op>, ptrs: seq<nat>, m: nat, n: nat)
    requires arena > 0 && Run(arena, states, ops, ptrs) && m < n < |ops| && ptrs[m] != 0 && ptrs[n] != 0
    ensures ops[m].Malloc? && ops[n].Malloc? && ptrs[m] + ops[m].n + HEADER <= ptrs[n]
  {
    hide Step, Sound;
    RunSound(arena, states, ops, ptrs, m);
    RunSound(arena, states, ops, ptrs, n);
    assert Step(states[m], ops[m], ptrs[m], states[m + 1]) && Step(states[n], ops[n], ptrs[n], states[n + 1]);
    Granted(arena, states[m], ops[m], ptrs[m], states[m + 1]);
    Granted(arena, states[n], ops[n], ptrs[n], states[n + 1]);
    FreeGrows(arena, states, ops, ptrs, m + 1, n);
  }

  /** Which requests are granted, at every moment of every run: exactly those that keep the bytes of the live blocks within
      40960. A grant adds one live block of that size, a release takes away the one it is for, and nothing else changes. */
  lemma GrantedExactly(arena: nat, states: seq<State>, ops: seq<Op>, ptrs: seq<nat>, i: nat)
    requires arena > 0 && Run(arena, states, ops, ptrs) && i < |ops|
    ensures var live, live' := states[i].live, states[i + 1].live;
            match ops[i]
            case Malloc(n) =>
              && (ptrs[i] == 0 <==> Bytes(live) + n > 40960)
              && live' == if ptrs[i] == 0 then live else live + [Block(ptrs[i] - 32, n)]
            case Free(k) => live' == if k < |live| then live[..k] + live[k + 1..] else live
  {
    hide Bytes;
    RunSound(arena, states, ops, ptrs, i);
    assert Step(states[i], ops[i], ptrs[i], states[i + 1]);
  }

  /** At most so much can be granted. */
  function Asked(ops: seq<Op>): nat {
    if ops == [] then 0 else
      var n := |ops| - 1;
      Asked(ops[..n]) + (if ops[n].Malloc? then HEADER + ops[n].n else 0)
  }

  /** The heap's memory threads exactly the live blocks at each moment. */
  ghost predicate Threaded(memories: seq<Memory>, states: seq<State>) {
    |memories| == |states| && forall i :: 0 <= i < |states| ==> Represents(memories[i], states[i])
  }

  lemma RunMore(arena: nat, states: seq<State>, ops: seq<Op>, ptrs: seq<nat>, op: Op, ptr: nat, s: State)
    requires Run(arena, states, ops, ptrs) && Step(states[|ops|], op, ptr, s)
    ensures Run(arena, states + [s], ops + [op], ptrs + [ptr])
  {
    hide Step;
    var states', ops', ptrs' := states + [s], ops + [op], ptrs + [ptr];
    forall i | 0 <= i < |ops'| ensures Step(states'[i], ops'[i], ptrs'[i], states'[i + 1]) {
      if i < |ops| {
        assert Step(states[i], ops[i], ptrs[i], states[i + 1]);
      }
    }
  }

  function Payloads(live: seq<Block>): (ptrs: seq<nat>)
    ensures |ptrs| == |live|
  {
    seq(|live|, i requires 0 <= i < |live| => live[i].Payload())
  }

  lemma PayloadsMore(live: seq<Block>, b: Block)
    ensures Payloads(live + [b]) == Payloads(live) + [b.Payload()]
  {
  }

  lemma PayloadsWithout(live: seq<Block>, k: nat)
    requires k < |live|
    ensures Payloads(Without(live, k)) == Without(Payloads(live), k)
  {
  }

  lemma PayloadAt(live: seq<Block>, k: nat)
    requires k < |live|
    ensures Payloads(live)[k] == live[k].Payload()
  {
  }

  /** One ask: a call, or none if there is nothing to give back; `held` are the live payloads. */
  method RunOne(h: Heap, op: Op, held: seq<nat>) returns (ptr: nat, held': seq<nat>)
    requires h.Valid() && Payloads(h.live) == held
    requires op.Malloc? ==> h.bytesAllocated + op.n < U64 && h.Abstract().free + HEADER + op.n < U64
    modifies h
    ensures h.Valid() && Payloads(h.live) == held'
    ensures Step(old(h.Abstract()), op, ptr, h.Abstract())
  {
    hide Sound, Represents, Payloads, Without;
    ptr, held' := 0, held;
    match op
    case Malloc(n) =>
      PayloadsMore(h.live, Block(h.Abstract().free, n));
      ptr := h.Kmalloc(n);
      if ptr != 0 {
        held' := held + [ptr];
      }
    case Free(k) =>
      if k < |held| {
        PayloadAt(h.live, k);
        PayloadsWithout(h.live, k);
        h.Kfree(held[k], k);
        held' := Without(held, k);
      }
  }

  lemma RunNone(arena: nat)
    ensures Run(arena, [State(arena, 0, [])], [], [])
  {
  }

  lemma ThreadedNow(h: Heap)
    requires h.Valid()
    ensures Represents(h.memory, h.Abstract()) && Sound(h.arena, h.Abstract()) && h.Abstract().bytes <= CAPACITY
  {
  }

  lemma {:induction false} AskedMore(ops: seq<Op>, i: nat)
    requires i < |ops|
    ensures Asked(ops[..i + 1]) == Asked(ops[..i]) + (if ops[i].Malloc? then HEADER + ops[i].n else 0) <= Asked(ops)
    decreases |ops|
  {
    assert ops[..i + 1][..i] == ops[..i];
    var n := |ops| - 1;
    if i < n {
      AskedMore(ops[..n], i);
      assert ops[..n][..i + 1] == ops[..i + 1] && ops[..n][..i] == ops[..i];
    } else {
      assert ops[..i + 1] == ops;
    }
  }

  lemma FreeMoves(s: State, op: Op, ptr: nat, s': State)
    requires Step(s, op, ptr, s')
    ensures s'.free <= s.free + (if op.Malloc? then HEADER + op.n else 0)
  {
  }

  /** Drive a heap through any sequence of asks, as long as no sum can wrap. It is a run, and the list in memory is in
      order at every moment of it. */
  method RunAll(h: Heap, asks: seq<Op>) returns (ptrs: seq<nat>, ghost states: seq<State>, ghost memories: seq<Memory>)
    requires h.Valid() && h.Abstract() == State(h.arena, 0, []) && h.arena + CAPACITY + HEADER + Asked(asks) < U64
    modifies h
    ensures h.Valid() && Run(h.arena, states, asks, ptrs) && Threaded(memories, states)
    ensures states[|asks|] == h.Abstract() && memories[|asks|] == h.memory
  {
    hide Step, Run, Represents, Sound;
    ptrs, states, memories := [], [h.Abstract()], [h.memory];
    RunNone(h.arena);
    ThreadedNow(h);
    var held: seq<nat> := [];
    for i := 0 to |asks|
      invariant h.Valid() && Payloads(h.live) == held
      invariant |states| == i + 1 == |memories| && Run(h.arena, states, asks[..i], ptrs) && Threaded(memories, states)
      invariant states[i] == h.Abstract() && memories[i] == h.memory
      invariant h.Abstract().free <= h.arena + Asked(asks[..i])
    {
      AskedMore(asks, i);
      ThreadedNow(h);
      ghost var s := h.Abstract();
      var ptr;
      ptr, held := RunOne(h, asks[i], held);
      FreeMoves(s, asks[i], ptr, h.Abstract());
      RunMore(h.arena, states, asks[..i], ptrs, asks[i], ptr, h.Abstract());
      assert asks[..i + 1] == asks[..i] + [asks[i]];
      ThreadedNow(h);
      ptrs, states, memories := ptrs + [ptr], states + [h.Abstract()], memories + [h.memory];
    }
    assert asks[..|asks|] == asks;
  }

  /** What the code needs and does not check: if everything ever granted leaves room for one more header, all it writes
      lies in the arena. */
  lemma RunInArena(arena: nat, states: seq<State>, ops: seq<Op>, ptrs: seq<nat>, n: nat)
    requires arena > 0 && Run(arena, states, ops, ptrs) && n <= |ops|
    ensures states[n].free + HEADER <= arena + CAPACITY <==> Spent(ops[..n], ptrs[..n]) + HEADER <= CAPACITY
    ensures forall i :: 0 <= i < |states[n].live| ==> states[n].live[i].End() <= states[n].free
  {
    RunSound(arena, states, ops, ptrs, n);
  }

  /** The size check alone does not do it: the first request may be for the whole capacity, and is granted. */
  lemma CheckLetsArenaOverflow(arena: nat)
    requires arena > 0
    ensures var (ptr, s) := Allocate(State(arena, 0, []), CAPACITY); ptr != 0 && s.live[0].End() > arena + CAPACITY
  {
  }

  /** Rounds of allocating n bytes and giving them back. */
  function Rounds(n: nat, r: nat): seq<Op> {
    if r == 0 then [] else Rounds(n, r - 1) + [Malloc(n), Free(0)]
  }

  /** Such rounds leave nothing live and still move the bump pointer by a header and n bytes each, without end. */
  lemma {:induction false} RoundsLeak(arena: nat, n: nat, r: nat) returns (states: seq<State>, ptrs: seq<nat>)
    requires arena > 0 && n <= CAPACITY
    ensures Run(arena, states, Rounds(n, r), ptrs) && |Rounds(n, r)| == 2 * r
    ensures states[2 * r] == State(arena + r * (HEADER + n), 0, [])
  {
    if r == 0 {
      states, ptrs := [State(arena, 0, [])], [];
    } else {
      states, ptrs := RoundsLeak(arena, n, r - 1);
      var s := states[2 * r - 2];
      var (ptr, s1) := Allocate(s, n);
      assert s1.live == [Block(s.free, n)];
      var s2 := Release(s1, 0);
      assert s2.live == [];
      assert s.free + HEADER + n == arena + r * (HEADER + n) by { assert (r - 1) * (HEADER + n) + (HEADER + n) == r * (HEADER + n); }
      states, ptrs := states + [s1, s2], ptrs + [ptr, 0];
    }
  }

  /** The capacity check on 64-bit sizes refuses exactly the requests it should, unless the sum wraps. */
  lemma CheckIsExact(bytes: nat, n: nat)
    requires bytes <= CAPACITY && n < U64
    ensures ((bytes + n) % U64 > CAPACITY <==> bytes + n > CAPACITY) <==> bytes + n < U64
  {
  }
}
