/** Runs of a map: any sequence of put, get and remove, against the abstract map it stands for. */
module HashMapRuns {
  import opened Bits
  import opened ProbeTable
  import opened Allocation
  import opened Growth
  import opened HashMap
  import opened Displacement

  datatype Op<V> = Put(key: Key, value: V) | Get(key: Key) | Remove(key: Key)

  /** What a caller sees: a status, or the value got. */
  datatype Reply<V> = Status(code: int) | Value(value: V)

  /** One operation on the abstract map. Only a put has a choice: to do its work, or to fail and lose nothing, or to fail
      and lose eight entries or more. */
  ghost predicate Step<V>(nil: V, m: map<Key, V>, op: Op<V>, reply: Reply<V>, m': map<Key, V>) {
    match op
    case Put(key, value) =>
      || (reply == Status(0) && m' == m[key := value])
      || (reply == Status(1) && Submap(m', m) && (m' == m || |m'| + 8 <= |m|))
    case Get(key) =>
      reply == Value(if key in m then m[key] else nil) && m' == m
    case Remove(key) =>
      reply == Status(if key in m then 0 else 1) && m' == m - {key}
  }

  /** A run: the maps it passes through, first to last. */
  ghost predicate Run<V>(nil: V, maps: seq<map<Key, V>>, ops: seq<Op<V>>, replies: seq<Reply<V>>) {
    && |maps| == |ops| + 1 && |replies| == |ops|
    && forall i :: 0 <= i < |ops| ==> Step(nil, maps[i], ops[i], replies[i], maps[i + 1])
  }

  ghost predicate Failed<V>(op: Op<V>, reply: Reply<V>) {
    op.Put? && reply == Status(1)
  }

  // ---- runs of a table ----

  /** What an operation comes to, table, heap and reply together. */
  ghost predicate Exact<V>(heap: Allocator, hash: Key -> nat, nil: V, t: seq<Element<V>>, op: Op<V>, reply: Reply<V>,
                           calls: seq<CreateCall>, from: nat, t': seq<Element<V>>)
    requires TableInv(hash, t)
  {
    match op
    case Put(key, value) =>
      && |key| < U32 && reply in {Status(0), Status(1)}
      && PutOf(heap, hash, nil, from, t, EntryFor(key, value)) == Outcome(reply == Status(0), t', calls)
    case Get(key) => t' == t
    case Remove(key) => t' == t || exists i: nat :: Holds(t, i, key) && t' == t[i := Blank(nil)]
  }

  /** One operation on a table, as the code does it: the step of the abstract map that it is, and the tables it asks the
      heap for, the first of them with request `from`. It asks for one exactly if it is a put that finds no room, and it
      fails exactly if one is refused. */
  ghost predicate TableStep<V>(heap: Allocator, hash: Key -> nat, nil: V, t: seq<Element<V>>, op: Op<V>, reply: Reply<V>,
                               calls: seq<CreateCall>, from: nat, t': seq<Element<V>>)
  {
    && TableInv(hash, t) && TableInv(hash, t') && Step(nil, Contents(t), op, reply, Contents(t'))
    && Exact(heap, hash, nil, t, op, reply, calls, from, t') && heap.Account(calls, from, |t|, !Failed(op, reply))
    && (calls == [] <==> (op.Put? ==> HasRoom(hash, t, op.key)))
    && if Failed(op, reply) then Contents(t') == Contents(t) <==> Last(calls) == Doubled(|t'|)
       else |t'| == SizeAfter(calls, |t|)
  }

  /** A run: the tables it passes through, what it asks of the heap on the way from each to the next, and the number of
      the next request at each. */
  ghost predicate TableRun<V>(heap: Allocator, hash: Key -> nat, nil: V, tables: seq<seq<Element<V>>>, ops: seq<Op<V>>,
                              replies: seq<Reply<V>>, trails: seq<seq<CreateCall>>, asked: seq<nat>)
  {
    && |tables| == |asked| == |ops| + 1 && |replies| == |trails| == |ops|
    && forall i :: 0 <= i < |ops| ==> RunAt(heap, hash, nil, tables, ops, replies, trails, asked, i)
  }

  ghost predicate RunAt<V>(heap: Allocator, hash: Key -> nat, nil: V, tables: seq<seq<Element<V>>>, ops: seq<Op<V>>,
                           replies: seq<Reply<V>>, trails: seq<seq<CreateCall>>, asked: seq<nat>, i: nat)
    requires |tables| == |asked| == |ops| + 1 && |replies| == |trails| == |ops| && i < |ops|
  {
    && TableStep(heap, hash, nil, tables[i], ops[i], replies[i], trails[i], asked[i], tables[i + 1])
    && asked[i + 1] == asked[i] + Requests(trails[i])
  }

  lemma TableRunMore<V>(heap: Allocator, hash: Key -> nat, nil: V, tables: seq<seq<Element<V>>>, ops: seq<Op<V>>,
                        replies: seq<Reply<V>>, trails: seq<seq<CreateCall>>, asked: seq<nat>,
                        op: Op<V>, reply: Reply<V>, calls: seq<CreateCall>, t: seq<Element<V>>, now: nat)
    requires TableRun(heap, hash, nil, tables, ops, replies, trails, asked)
    requires TableStep(heap, hash, nil, tables[|ops|], op, reply, calls, asked[|ops|], t)
    requires now == asked[|ops|] + Requests(calls)
    ensures TableRun(heap, hash, nil, tables + [t], ops + [op], replies + [reply], trails + [calls], asked + [now])
  {
    hide TableStep, Requests;
    var tables', ops', replies' := tables + [t], ops + [op], replies + [reply];
    var trails', asked' := trails + [calls], asked + [now];
    forall i | 0 <= i < |ops'| ensures RunAt(heap, hash, nil, tables', ops', replies', trails', asked', i) {
      if i < |ops| {
        assert RunAt(heap, hash, nil, tables, ops, replies, trails, asked, i);
      }
    }
  }

  lemma PutStep<V>(heap: Allocator, hash: Key -> nat, nil: V, t: seq<Element<V>>, key: Key, value: V, r: int,
                   calls: seq<CreateCall>, from: nat, t': seq<Element<V>>)
    requires TableInv(hash, t) && TableInv(hash, t') && (r == 0 || r == 1) && heap.Account(calls, from, |t|, r == 0)
    requires |key| < U32 && PutOf(heap, hash, nil, from, t, EntryFor(key, value)) == Outcome(r == 0, t', calls)
    requires calls == [] <==> HasRoom(hash, t, key)
    requires r == 0 ==> |t'| == SizeAfter(calls, |t|) && Contents(t') == Contents(t)[key := value]
    requires r == 1 ==> Submap(Contents(t'), Contents(t))
    requires r == 1 && Contents(t') != Contents(t) ==> |Contents(t')| + 8 <= |Contents(t)|
    requires r == 1 ==> (Contents(t') == Contents(t) <==> Last(calls) == Doubled(|t'|))
    ensures TableStep(heap, hash, nil, t, Put(key, value), Status(r), calls, from, t')
  {
    hide TableInv, HasRoom, Contents, PutOf;
  }

  method RunPut<V>(m: HashMap<V>, key: Key, value: V) returns (r: int, ghost calls: seq<CreateCall>)
    requires m.Valid() && |key| < U32
    modifies m, m.data, m.heap
    ensures m.Valid() && (m.data == old(m.data) || fresh(m.data))
    ensures TableStep(m.heap, m.hash, m.nil, old(m.Table()), Put(key, value), Status(r),
                      calls, old(m.heap.asked), m.Table())
    ensures m.heap.asked == old(m.heap.asked) + Requests(calls)
  {
    hide TableStep, TableInv, HasRoom, Chosen, Contents, PutOf, HashMap.GaveUp, Submap;
    ghost var t, contents, asked := m.Table(), m.Map(), m.heap.asked;
    ghost var trace;
    r, trace := m.Put(key, value);
    if r == 1 {
      m.LosesExactly(trace, contents);
    }
    calls := trace.calls;
    PutStep(m.heap, m.hash, m.nil, t, key, value, r, calls, asked, m.Table());
    m.heap.AccountCounts(calls, asked, |t|, r == 0);
  }

  lemma OtherStep<V>(heap: Allocator, hash: Key -> nat, nil: V, t: seq<Element<V>>, op: Op<V>, reply: Reply<V>, from: nat,
                     t': seq<Element<V>>)
    requires TableInv(hash, t) && TableInv(hash, t') && |t'| == |t| && !op.Put?
    requires Step(nil, Contents(t), op, reply, Contents(t')) && Exact(heap, hash, nil, t, op, reply, [], from, t')
    ensures TableStep(heap, hash, nil, t, op, reply, [], from, t') && Requests([]) == 0
  {
    hide TableInv, HasRoom, Contents, Exact;
  }

  method RunOne<V>(m: HashMap<V>, op: Op<V>) returns (reply: Reply<V>, ghost calls: seq<CreateCall>)
    requires m.Valid() && |op.key| < U32
    modifies m, m.data, m.heap
    ensures m.Valid() && (m.data == old(m.data) || fresh(m.data))
    ensures TableStep(m.heap, m.hash, m.nil, old(m.Table()), op, reply, calls, old(m.heap.asked), m.Table())
    ensures m.heap.asked == old(m.heap.asked) + Requests(calls)
  {
    hide TableStep, TableInv, Contents, PutOf;
    calls := [];
    ghost var t := m.Table();
    match op
    case Put(key, value) =>
      var r;
      r, calls := RunPut(m, key, value);
      reply := Status(r);
    case Get(key) =>
      var v := m.Get(key);
      reply := Value(v);
      OtherStep(m.heap, m.hash, m.nil, t, op, reply, m.heap.asked, m.Table());
    case Remove(key) =>
      var r := m.Remove(key);
      reply := Status(r);
      OtherStep(m.heap, m.hash, m.nil, t, op, reply, m.heap.asked, m.Table());
  }

  /** Drive a map through any sequence of operations: what its table goes through, and what it asks of its heap, is a
      run. */
  method RunAll<V>(m: HashMap<V>, ops: seq<Op<V>>)
      returns (replies: seq<Reply<V>>, ghost tables: seq<seq<Element<V>>>, ghost trails: seq<seq<CreateCall>>,
               ghost asked: seq<nat>)
    requires m.Valid() && forall op :: op in ops ==> |op.key| < U32
    modifies m, m.data, m.heap
    ensures m.Valid() && TableRun(m.heap, m.hash, m.nil, tables, ops, replies, trails, asked)
    ensures tables[0] == old(m.Table()) && tables[|ops|] == m.Table()
    ensures asked[0] == old(m.heap.asked) && asked[|ops|] == m.heap.asked
  {
    hide TableStep, Requests, RunAt;
    replies, tables, trails, asked := [], [m.Table()], [], [m.heap.asked];
    for i := 0 to |ops|
      invariant m.Valid() && (m.data == old(m.data) || fresh(m.data))
      invariant TableRun(m.heap, m.hash, m.nil, tables, ops[..i], replies, trails, asked)
      invariant tables[0] == old(m.Table()) && tables[i] == m.Table()
      invariant asked[0] == old(m.heap.asked) && asked[i] == m.heap.asked
    {
      assert ops[i] in ops;
      assert ops[..i + 1] == ops[..i] + [ops[i]];
      var reply;
      ghost var calls;
      reply, calls := RunOne(m, ops[i]);
      TableRunMore(m.heap, m.hash, m.nil, tables, ops[..i], replies, trails, asked,
                   ops[i], reply, calls, m.Table(), m.heap.asked);
      replies, tables, trails := replies + [reply], tables + [m.Table()], trails + [calls];
      asked := asked + [m.heap.asked];
    }
    assert ops[..|ops|] == ops;
  }

  // ---- what a run of a table is ----

  ghost predicate Legal<V>(hash: Key -> nat, tables: seq<seq<Element<V>>>) {
    forall i :: 0 <= i < |tables| ==> TableInv(hash, tables[i])
  }

  ghost function Maps<V>(hash: Key -> nat, tables: seq<seq<Element<V>>>): (maps: seq<map<Key, V>>)
    requires Legal(hash, tables)
    ensures |maps| == |tables|
  {
    seq(|tables|, i requires 0 <= i < |tables| => Contents(tables[i]))
  }

  /** It is a run of the abstract map, with the same replies. */
  lemma Refines<V>(heap: Allocator, hash: Key -> nat, nil: V, tables: seq<seq<Element<V>>>, ops: seq<Op<V>>,
                   replies: seq<Reply<V>>, trails: seq<seq<CreateCall>>, asked: seq<nat>)
    requires TableRun(heap, hash, nil, tables, ops, replies, trails, asked) && TableInv(hash, tables[0])
    ensures Legal(hash, tables) && Run(nil, Maps(hash, tables), ops, replies)
  {
    hide TableInv, Step, Exact, Contents;
    forall i | 0 <= i < |tables| ensures TableInv(hash, tables[i]) {
      if i > 0 {
        assert RunAt(heap, hash, nil, tables, ops, replies, trails, asked, i - 1);
      }
    }
    var maps := Maps(hash, tables);
    forall i | 0 <= i < |ops| ensures Step(nil, maps[i], ops[i], replies[i], maps[i + 1]) {
      assert RunAt(heap, hash, nil, tables, ops, replies, trails, asked, i);
    }
  }

  /** All the calls of Create up to the n-th operation. */
  ghost function CallsUpTo(trails: seq<seq<CreateCall>>, n: nat): seq<CreateCall>
    requires n <= |trails|
  {
    if n == 0 then [] else CallsUpTo(trails, n - 1) + trails[n - 1]
  }

  /** How many of the first n operations are puts that failed. */
  ghost function Failures<V>(ops: seq<Op<V>>, replies: seq<Reply<V>>, n: nat): nat
    requires n <= |ops| == |replies|
  {
    if n == 0 then 0 else Failures(ops, replies, n - 1) + (if Failed(ops[n - 1], replies[n - 1]) then 1 else 0)
  }

  lemma NoneYet(heap: Allocator, from: nat)
    ensures heap.Refusals([]) == 0 && Requests([]) == 0 && Numbered([], from)
  {
  }

  lemma CountsMore(heap: Allocator, calls: seq<CreateCall>, from: nat, more: seq<CreateCall>, n: nat, ok: bool)
    requires Numbered(calls, from) && heap.Account(more, from + Requests(calls), n, ok)
    ensures heap.Refusals(calls + more) == heap.Refusals(calls) + (if ok then 0 else 1)
    ensures Numbered(calls + more, from) && Requests(calls + more) == Requests(calls) + Requests(more)
  {
    hide Numbered, Requests;
    heap.AccountCounts(more, from + Requests(calls), n, ok);
    heap.RefusalsAppend(calls, more);
    RequestsAppend(calls, more, from);
  }

  /** Puts fail exactly as often as tables are refused, and request numbers run through the run without a gap. */
  lemma {:induction false} FailuresAreRefusals<V>(
      heap: Allocator, hash: Key -> nat, nil: V, tables: seq<seq<Element<V>>>, ops: seq<Op<V>>,
      replies: seq<Reply<V>>, trails: seq<seq<CreateCall>>, asked: seq<nat>, n: nat)
    requires TableRun(heap, hash, nil, tables, ops, replies, trails, asked) && n <= |ops|
    ensures var calls := CallsUpTo(trails, n);
            && Failures(ops, replies, n) == heap.Refusals(calls)
            && Numbered(calls, asked[0]) && asked[n] == asked[0] + Requests(calls)
  {
    hide Requests, Numbered, TableInv, Step, Exact, HasRoom, Contents, Allocator.Account, Allocator.Refusals, Failed;
    if n == 0 {
      NoneYet(heap, asked[0]);
    } else {
      var k := n - 1;
      FailuresAreRefusals(heap, hash, nil, tables, ops, replies, trails, asked, k);
      assert RunAt(heap, hash, nil, tables, ops, replies, trails, asked, k);
      CountsMore(heap, CallsUpTo(trails, k), asked[0], trails[k], |tables[k]|, !Failed(ops[k], replies[k]));
    }
  }

  /** The value a key was last given by a successful put and not since removed from, if any. */
  ghost function LastWritten<V>(ops: seq<Op<V>>, replies: seq<Reply<V>>, key: Key): Option<V>
    requires |ops| == |replies|
  {
    if ops == [] then None else
      var last := |ops| - 1;
      var before := LastWritten(ops[..last], replies[..last], key);
      match ops[last]
      case Put(k, v) => if k == key && replies[last] == Status(0) then Some(v) else before
      case Get(_) => before
      case Remove(k) => if k == key then None else before
  }

  lemma RunPrefix<V>(nil: V, maps: seq<map<Key, V>>, ops: seq<Op<V>>, replies: seq<Reply<V>>)
    requires Run(nil, maps, ops, replies) && ops != []
    ensures Run(nil, maps[..|ops|], ops[..|ops| - 1], replies[..|ops| - 1])
    ensures Step(nil, maps[|ops| - 1], ops[|ops| - 1], replies[|ops| - 1], maps[|ops|])
  {
  }

  /** Safety over every run from an empty map: a key's value is the one last written and not removed, or, only
      if some put has failed, the key is gone. No run invents, keeps or revives a value. */
  lemma {:induction false} NeverStale<V>(nil: V, maps: seq<map<Key, V>>, ops: seq<Op<V>>, replies: seq<Reply<V>>, key: Key)
    requires Run(nil, maps, ops, replies) && maps[0] == map[]
    ensures var m := maps[|ops|];
            && (key in m ==> LastWritten(ops, replies, key) == Some(m[key]))
            && (key !in m && LastWritten(ops, replies, key) != None ==>
                  exists i :: 0 <= i < |ops| && ops[i].Put? && replies[i] == Status(1))
  {
    if ops != [] {
      var n := |ops| - 1;
      RunPrefix(nil, maps, ops, replies);
      NeverStale(nil, maps[..n + 1], ops[..n], replies[..n], key);
      var m := maps[n];
      assert maps[..n + 1][n] == m;
      if key !in maps[n + 1] && LastWritten(ops, replies, key) != None {
        if ops[n].Put? && replies[n] == Status(1) {
        } else {
          assert key !in m;
          var i :| 0 <= i < n && ops[..n][i].Put? && replies[..n][i] == Status(1);
          assert ops[i].Put? && replies[i] == Status(1);
        }
      }
    }
  }

  /** Putting a ninth key of one 32-bit hash fails, however large the table and whatever the heap grants. */
  method PutNinth<V>(m: HashMap<V>, key: Key, value: V) returns (r: int)
    requires m.Valid() && |key| < U32
    requires key !in m.Map() && |Colliding(m.hash, m.Map(), key)| >= 8
    modifies m, m.data, m.heap
    ensures r == 1 && m.Valid() && Submap(m.Map(), old(m.Map()))
  {
    ghost var contents := m.Map();
    ghost var trace;
    r, trace := m.Put(key, value);
    NinthCannotEnter(m.hash, contents, key, value, m.Table());
    m.LosesExactly(trace, contents);
  }
}
