/** Building a tree from vfs_init on, call by call, and resolving paths in it. */
module VfsRuns {
  import opened Bits
  import opened ProbeTable
  import opened Allocation
  import opened Moves
  import opened Growth
  import opened HashMap
  import opened CString
  import opened Displacement
  import opened Paths
  import opened Vfs

  // ---- scripts ----

  /** A call of vfs_make_node, under the node that an earlier call made; node 0 is the root. */
  datatype Make = Make(parent: nat, name: Name, flags: bv8)

  predicate Ordered(ops: seq<Make>) {
    forall i :: 0 <= i < |ops| ==> ops[i].parent <= i
  }

  /** The names that lead to node k. */
  function ChainOf(ops: seq<Make>, k: nat): Chain
    requires Ordered(ops) && k <= |ops|
  {
    if k == 0 then [] else ChainOf(ops, ops[k - 1].parent) + [ops[k - 1].name]
  }

  function FlagsOf(ops: seq<Make>, k: nat): bv8
    requires k <= |ops|
  {
    if k == 0 then FILE_FLAG_DIR else ops[k - 1].flags
  }

  /** Legal names, and none twice under one parent. */
  ghost predicate Script(ops: seq<Make>) {
    && Ordered(ops)
    && (forall i :: 0 <= i < |ops| ==> Proper(ops[i].name) && |ops[i].name| <= 256)
    && (forall j, k :: 0 <= j < k <= |ops| ==> ChainOf(ops, j) != ChainOf(ops, k))
  }

  /** The names that the first n calls put under node p. */
  ghost function ChildNames(ops: seq<Make>, n: nat, p: nat): set<Name>
    requires n <= |ops|
  {
    set i | 0 <= i < n && ops[i].parent == p :: ops[i].name
  }

  /** No directory gets more than eight children. */
  ghost predicate Narrow(ops: seq<Make>) {
    forall p: nat :: p <= |ops| ==> |ChildNames(ops, |ops|, p)| <= 8
  }

  // ---- the tree a script builds ----

  ghost predicate BuiltAt(t: Tree, ops: seq<Make>, nodes: seq<VfsNode>, k: nat)
    requires Ordered(ops) && k <= |ops| && k < |nodes|
  {
    ChainOf(ops, k) in t && t[ChainOf(ops, k)] == nodes[k] && nodes[k].flags == FlagsOf(ops, k)
  }

  /** After n calls the tree is the n + 1 nodes made, each at the end of its chain. */
  ghost predicate Built(t: Tree, ops: seq<Make>, nodes: seq<VfsNode>, n: nat)
    requires Ordered(ops) && n <= |ops|
  {
    && |nodes| == n + 1
    && (forall k :: 0 <= k <= n ==> BuiltAt(t, ops, nodes, k))
    && (forall c :: c in t ==> exists k :: 0 <= k <= n && c == ChainOf(ops, k))
  }

  lemma NotYetBuilt(t: Tree, ops: seq<Make>, nodes: seq<VfsNode>, n: nat)
    requires Script(ops) && n < |ops| && Built(t, ops, nodes, n)
    ensures ops[n].parent < |nodes| == n + 1 && ChainOf(ops, ops[n].parent) in t
    ensures nodes[ops[n].parent] == t[ChainOf(ops, ops[n].parent)]
    ensures ChainOf(ops, ops[n].parent) + [ops[n].name] !in t
  {
    assert BuiltAt(t, ops, nodes, ops[n].parent);
    assert forall k :: 0 <= k <= n ==> ChainOf(ops, k) != ChainOf(ops, n + 1);
  }

  lemma BuiltMore(t: Tree, ops: seq<Make>, nodes: seq<VfsNode>, n: nat, node: VfsNode)
    requires Script(ops) && n < |ops| && Built(t, ops, nodes, n) && node.flags == ops[n].flags && TreeShape(t)
    ensures Built(Grown(t, ChainOf(ops, ops[n].parent), ops[n].name, node), ops, nodes + [node], n + 1)
  {
    hide ChainOf, From, Grown, TreeShape;
    var t', nodes' := Grown(t, ChainOf(ops, ops[n].parent), ops[n].name, node), nodes + [node];
    ChainStep(ops, n);
    NotYetBuilt(t, ops, nodes, n);
    GrownByOne(t, ChainOf(ops, ops[n].parent), ops[n].name, node);
    forall k | 0 <= k <= n + 1 ensures BuiltAt(t', ops, nodes', k) {
      if k <= n {
        assert BuiltAt(t, ops, nodes, k);
        assert ChainOf(ops, k) != ChainOf(ops, n + 1);
      }
    }
    forall c | c in t' ensures exists k :: 0 <= k <= n + 1 && c == ChainOf(ops, k) {
      if c != ChainOf(ops, n + 1) {
        var k :| 0 <= k <= n && c == ChainOf(ops, k);
      }
    }
  }

  lemma ChainStep(ops: seq<Make>, n: nat)
    requires Ordered(ops) && n < |ops|
    ensures ChainOf(ops, n + 1) == ChainOf(ops, ops[n].parent) + [ops[n].name]
  {
  }

  // ---- room for eight ----

  /** A chain that is one name longer than that of node p was made under node p with that name. */
  lemma LastStep(ops: seq<Make>, k: nat, p: nat, x: Name)
    requires Script(ops) && k <= |ops| && p <= |ops| && ChainOf(ops, p) + [x] == ChainOf(ops, k)
    ensures k > 0 && ops[k - 1].parent == p && ops[k - 1].name == x
  {
    var c := ChainOf(ops, p);
    assert ChainOf(ops, k)[..|c|] == c && ChainOf(ops, k)[|c|] == x;
    var q := ops[k - 1].parent;
    assert ChainOf(ops, k) == ChainOf(ops, q) + [ops[k - 1].name];
    assert ChainOf(ops, q) == ChainOf(ops, k)[..|c|];
  }

  /** The children a node has are those the script has put there. */
  lemma ChildrenNamed(t: Tree, ops: seq<Make>, nodes: seq<VfsNode>, n: nat, p: nat, m: map<Key, VfsNode?>)
    requires Script(ops) && n <= |ops| && p <= n && Built(t, ops, nodes, n) && Children(t, ChainOf(ops, p), m)
    ensures m.Keys == ChildNames(ops, n, p)
  {
    forall x | x in m ensures x in ChildNames(ops, n, p) {
      NameOfChild(t, ops, nodes, n, p, x);
    }
    forall x | x in ChildNames(ops, n, p) ensures x in m {
      var i :| 0 <= i < n && ops[i].parent == p && ops[i].name == x;
      ChainStep(ops, i);
      assert BuiltAt(t, ops, nodes, i + 1);
    }
  }

  lemma NameOfChild(t: Tree, ops: seq<Make>, nodes: seq<VfsNode>, n: nat, p: nat, x: Name)
    requires Script(ops) && n <= |ops| && p <= n && Built(t, ops, nodes, n) && ChainOf(ops, p) + [x] in t
    ensures x in ChildNames(ops, n, p)
  {
    hide ChainOf;
    var k :| 0 <= k <= n && ChainOf(ops, p) + [x] == ChainOf(ops, k);
    LastStep(ops, k, p, x);
  }

  lemma NamesGrow(ops: seq<Make>, n: nat)
    requires Script(ops) && n < |ops|
    ensures var p := ops[n].parent; |ChildNames(ops, n, p)| < |ChildNames(ops, |ops|, p)|
  {
    var p := ops[n].parent;
    var before, all := ChildNames(ops, n, p), ChildNames(ops, |ops|, p);
    if ops[n].name in before {
      var i :| 0 <= i < n && ops[i].parent == p && ops[i].name == ops[n].name;
      assert ChainOf(ops, i + 1) == ChainOf(ops, n + 1);
    }
    assert before + {ops[n].name} <= all;
    SubsetSize(before + {ops[n].name}, all);
  }

  /** A table of eight slots has room for a new key exactly if it is not full. */
  lemma RoomInEight<V>(hash: Key -> nat, t: seq<Element<V>>, key: Key)
    requires TableInv(hash, t) && |t| == 8 && key !in Contents(t)
    ensures HasRoom(hash, t, key) <==> |Contents(t)| < 8
  {
    if |Contents(t)| < 8 && !HasRoom(hash, t, key) {
      NoRoomMeansEight(hash, t, key);
    }
    if |Live(t)| < 8 {
      forall key | key in Contents(t).Keys ensures exists i :: i in Live(t) && Holds(t, i, key) {
        var i := SlotOf(t, key);
        assert i in Live(t);
      }
      KeysPerSlots(t, Contents(t).Keys, Live(t));
    }
  }

  /** So a directory's map, as it is made, has room for eight children and no more. */
  lemma RoomUnder(fs: FileSystem, ops: seq<Make>, nodes: seq<VfsNode>, n: nat)
    requires fs.Valid() && Script(ops) && n < |ops| && Built(fs.tree, ops, nodes, n) && ops[n].parent < |nodes|
    requires nodes[ops[n].parent].children.tableSize == 8
    ensures fs.RoomIn(nodes[ops[n].parent].children, ops[n].name) <==> |ChildNames(ops, n, ops[n].parent)| < 8
  {
    hide ChainOf, HasRoom, TableInv, TreeShape, Separate, Built;
    var p, name := ops[n].parent, ops[n].name;
    NotYetBuilt(fs.tree, ops, nodes, n);
    var m := nodes[p].children;
    assert fs.Node(fs.tree, ChainOf(ops, p));
    ChildrenNamed(fs.tree, ops, nodes, n, p, m.Map());
    assert |m.Map()| == |m.Map().Keys|;
    RoomInEight(fs.hash, m.Table(), name);
  }

  /** What is in a node's map, as a table. */
  lemma TableUnder(fs: FileSystem, ops: seq<Make>, nodes: seq<VfsNode>, n: nat)
    requires fs.Valid() && Script(ops) && n < |ops| && Built(fs.tree, ops, nodes, n) && ops[n].parent < |nodes|
    ensures var t := fs.TableOf(nodes[ops[n].parent].children);
            && TableInv(fs.hash, t) && |t| == nodes[ops[n].parent].children.tableSize
            && Contents(t).Keys == ChildNames(ops, n, ops[n].parent) && ops[n].name !in Contents(t)
  {
    hide ChainOf, HasRoom, TableInv, TreeShape, Separate, Built, ChildNames;
    var p := ops[n].parent;
    NotYetBuilt(fs.tree, ops, nodes, n);
    var m := nodes[p].children;
    assert fs.Node(fs.tree, ChainOf(ops, p));
    ChildrenNamed(fs.tree, ops, nodes, n, p, m.Map());
  }

  /** The ninth child of a directory, if the nine names have homes of their own in a map of sixteen slots, costs one table,
      and is linked exactly if that is granted. */
  lemma NinthChild(heap: Allocator, hash: Key -> nat, from: nat, t: seq<Element<VfsNode?>>, name: Name, node: VfsNode)
    requires TableInv(hash, t) && |t| == 8 && |Contents(t)| == 8 && name !in Contents(t) && |name| < U32
    requires HomesApart(hash, Contents(t).Keys + {name}, 16)
    ensures var o := PutOf(heap, hash, null, from, t, EntryFor(name, node));
            o.ok == heap.grants(from) && o.calls == [CreateCall(16, from)]
  {
    hide PutOf, HasRoom, HomesApart;
    RoomInEight(hash, t, name);
    DoubleWraps(8);
    SpreadKeysFit(heap, hash, null, from, t, EntryFor(name, node));
  }

  // ---- what a build asks of the heap ----

  /** What became of the calls made so far: the sizes of the maps, that of node k first after call k - 1, what each put
      asked of the heap, and the number of the next request, before each call and after the last. */
  datatype Log = Log(sizes: seq<seq<nat>>, trails: seq<seq<CreateCall>>, asked: seq<nat>)

  /** Call i is for the ninth child of its parent, and the nine names differ in their hashes modulo 16. */
  ghost predicate NinthApart(hash: Key -> nat, ops: seq<Make>, i: nat)
    requires i < |ops|
  {
    var names := ChildNames(ops, i, ops[i].parent);
    |names| == 8 && HomesApart(hash, names + {ops[i].name}, 16)
  }

  /** Call i: the new node's map is granted, and the put into the parent's map, of the size it has by now, succeeds
      exactly if all tables it asks for are. A map of eight slots asks for none exactly if it holds fewer than eight, and
      for one, of sixteen, if the ninth name and those eight have homes of their own there. */
  ghost predicate MakeStep(heap: Allocator, hash: Key -> nat, ops: seq<Make>, i: nat, sizes: seq<nat>,
                           calls: seq<CreateCall>, from: nat, ok: bool)
    requires i < |ops|
  {
    && ops[i].parent < |sizes| && heap.grants(from) && heap.Account(calls, from + 1, sizes[ops[i].parent], ok)
    && (sizes[ops[i].parent] == 8 ==> (calls == [] <==> |ChildNames(ops, i, ops[i].parent)| < 8))
    && (sizes[ops[i].parent] == 8 && NinthApart(hash, ops, i) ==> |calls| == 1)
  }

  /** The sizes after a call that linked its node. */
  function SizesAfter(sizes: seq<nat>, p: nat, calls: seq<CreateCall>): seq<nat>
    requires p < |sizes|
  {
    sizes[p := if calls == [] then sizes[p] else calls[|calls| - 1].size] + [8]
  }

  ghost predicate LoggedAt(heap: Allocator, hash: Key -> nat, ops: seq<Make>, log: Log, i: nat)
    requires i < |ops| && i < |log.trails| && |log.sizes| == |log.asked| == |log.trails| + 1
  {
    && MakeStep(heap, hash, ops, i, log.sizes[i], log.trails[i], log.asked[i], true)
    && log.sizes[i + 1] == SizesAfter(log.sizes[i], ops[i].parent, log.trails[i])
    && log.asked[i + 1] == log.asked[i] + 1 + Requests(log.trails[i])
  }

  /** The first n calls, all of which linked their nodes. */
  ghost predicate Logged(heap: Allocator, hash: Key -> nat, ops: seq<Make>, n: nat, log: Log)
    requires n <= |ops|
  {
    && |log.sizes| == |log.asked| == n + 1 && |log.trails| == n && log.sizes[0] == [8]
    && forall i :: 0 <= i < n ==> LoggedAt(heap, hash, ops, log, i)
  }

  /** The log with one more call, under node p. */
  ghost function LogMore(log: Log, p: nat, calls: seq<CreateCall>): Log
    requires |log.sizes| == |log.asked| == |log.trails| + 1 && p < |log.sizes[|log.trails|]|
  {
    var n := |log.trails|;
    Log(log.sizes + [SizesAfter(log.sizes[n], p, calls)], log.trails + [calls],
        log.asked + [log.asked[n] + 1 + Requests(calls)])
  }

  lemma LoggedMore(heap: Allocator, hash: Key -> nat, ops: seq<Make>, n: nat, log: Log, calls: seq<CreateCall>)
    requires n < |ops| && Logged(heap, hash, ops, n, log)
    requires MakeStep(heap, hash, ops, n, log.sizes[n], calls, log.asked[n], true)
    ensures Logged(heap, hash, ops, n + 1, LogMore(log, ops[n].parent, calls))
  {
    hide ChildNames, Requests, Allocator.Account;
    var more := LogMore(log, ops[n].parent, calls);
    forall i | 0 <= i < n + 1 ensures LoggedAt(heap, hash, ops, more, i) {
      if i < n {
        assert LoggedAt(heap, hash, ops, log, i);
      }
    }
  }

  /** How many replacements the map of node p has had. */
  ghost function Replacements(ops: seq<Make>, trails: seq<seq<CreateCall>>, p: nat, n: nat): nat
    requires n <= |trails| && n <= |ops|
  {
    if n == 0 then 0 else Replacements(ops, trails, p, n - 1) + (if ops[n - 1].parent == p then |trails[n - 1]| else 0)
  }

  lemma {:induction false} ReplacementsStart(ops: seq<Make>, trails: seq<seq<CreateCall>>, p: nat, n: nat)
    requires Ordered(ops) && n <= |trails| && n <= |ops| && n <= p
    ensures Replacements(ops, trails, p, n) == 0
  {
    if n > 0 {
      ReplacementsStart(ops, trails, p, n - 1);
    }
  }

  lemma {:induction false} ReplacementsPrefix(ops: seq<Make>, trails: seq<seq<CreateCall>>, m: nat, p: nat, n: nat)
    requires n <= m <= |trails| && n <= |ops|
    ensures Replacements(ops, trails[..m], p, n) == Replacements(ops, trails, p, n)
  {
    if n > 0 {
      ReplacementsPrefix(ops, trails, m, p, n - 1);
    }
  }

  /** Each map has eight slots, doubled as many times as it has been replaced. */
  lemma {:induction false} SizesLogged(heap: Allocator, hash: Key -> nat, ops: seq<Make>, n: nat, log: Log, p: nat)
    requires Ordered(ops) && n <= |ops| && Logged(heap, hash, ops, n, log) && p <= n
    ensures |log.sizes[n]| == n + 1 && log.sizes[n][p] == Pow2(3 + Replacements(ops, log.trails, p, n)) < U32
    decreases n
  {
    hide Requests, ChildNames, Allocator.Account;
    if n > 0 {
      var i, q := n - 1, ops[n - 1].parent;
      var before := Log(log.sizes[..n], log.trails[..i], log.asked[..n]);
      forall j | 0 <= j < i ensures LoggedAt(heap, hash, ops, before, j) {
        assert LoggedAt(heap, hash, ops, log, j);
      }
      assert LoggedAt(heap, hash, ops, log, i);
      ReplacementsPrefix(ops, log.trails, i, p, i);
      if p < n {
        SizesLogged(heap, hash, ops, i, before, p);
        if q == p && log.trails[i] != [] {
          var k := 3 + Replacements(ops, log.trails, p, i);
          heap.SizeAt(log.trails[i], log.asked[i] + 1, log.sizes[i][p], true, k, |log.trails[i]| - 1);
        }
      } else {
        SizesLogged(heap, hash, ops, i, before, 0);
        ReplacementsStart(ops, log.trails, p, n);
      }
    }
  }

  lemma NarrowEight(heap: Allocator, hash: Key -> nat, ops: seq<Make>, n: nat, log: Log, i: nat)
    requires Script(ops) && Narrow(ops) && n <= |ops| && Logged(heap, hash, ops, n, log) && i <= n
    ensures |log.sizes[i]| == i + 1 && forall k :: 0 <= k <= i ==> log.sizes[i][k] == 8
  {
    hide Requests, ChildNames, Allocator.Account;
    if i > 0 {
      NarrowEight(heap, hash, ops, n, log, i - 1);
      assert LoggedAt(heap, hash, ops, log, i - 1);
      NamesGrow(ops, i - 1);
    }
  }

  /** If no directory gets more than eight children, no put asks for memory, and so none fails. */
  lemma NarrowFits(heap: Allocator, hash: Key -> nat, ops: seq<Make>, n: nat, log: Log, calls: seq<CreateCall>, ok: bool)
    requires Script(ops) && Narrow(ops) && n < |ops| && Logged(heap, hash, ops, n, log)
    requires MakeStep(heap, hash, ops, n, log.sizes[n], calls, log.asked[n], ok)
    ensures calls == [] && ok
  {
    NarrowEight(heap, hash, ops, n, log, n);
    NamesGrow(ops, n);
  }

  /** With a heap that refuses nothing, a put fails exactly where its directory's map has been doubled 28 times, to 2^31
      slots, and asks for a 29th replacement. */
  lemma FailsAt29(heap: Allocator, hash: Key -> nat, ops: seq<Make>, n: nat, log: Log, calls: seq<CreateCall>)
    requires Script(ops) && n < |ops| && Logged(heap, hash, ops, n, log) && (forall k :: heap.grants(k))
    requires MakeStep(heap, hash, ops, n, log.sizes[n], calls, log.asked[n], false)
    ensures Replacements(ops, log.trails, ops[n].parent, n) + |calls| == 29
  {
    hide LoggedAt, Replacements, Pow2, ChildNames, ChainOf, Allocator.Account;
    var p := ops[n].parent;
    SizesLogged(heap, hash, ops, n, log, p);
    heap.WrapsAt32(calls, log.asked[n] + 1, log.sizes[n][p], 3 + Replacements(ops, log.trails, p, n));
  }

  // ---- the runs ----

  ghost predicate SizesAre(nodes: seq<VfsNode>, sizes: seq<nat>)
    reads set k | 0 <= k < |nodes| :: nodes[k].children
  {
    |sizes| == |nodes| && forall k :: 0 <= k < |nodes| ==> nodes[k].children.tableSize == sizes[k]
  }

  /** The same of all maps but that of node p. */
  ghost predicate SizesBut(nodes: seq<VfsNode>, sizes: seq<nat>, p: nat)
    reads set k | 0 <= k < |nodes| :: nodes[k].children
  {
    |sizes| == |nodes| && forall k :: 0 <= k < |nodes| && k != p ==> nodes[k].children.tableSize == sizes[k]
  }

  lemma OthersApart(t: Tree, ops: seq<Make>, nodes: seq<VfsNode>, n: nat, k: nat)
    requires Script(ops) && n < |ops| && Built(t, ops, nodes, n) && k <= n && k != ops[n].parent
    ensures k < |nodes| && ChainOf(ops, k) in t && nodes[k] == t[ChainOf(ops, k)]
    ensures ChainOf(ops, k) != ChainOf(ops, ops[n].parent)
  {
    assert BuiltAt(t, ops, nodes, k);
  }

  lemma StepMade(fs: FileSystem, ops: seq<Make>, n: nat, sizes: seq<nat>, from: nat,
                 t: seq<Element<VfsNode?>>, node: VfsNode, linked: bool, t': seq<Element<VfsNode?>>, calls: seq<CreateCall>)
    requires n < |ops| && ops[n].parent < |sizes| && fs.heap.grants(from)
    requires fs.heap.Account(calls, from + 1, sizes[ops[n].parent], linked)
    requires sizes[ops[n].parent] == 8 ==> (calls == [] <==> |ChildNames(ops, n, ops[n].parent)| < 8)
    requires fs.Puts(t, ops[n].name, node, from + 1, linked, t', calls) && |t| == sizes[ops[n].parent]
    requires Contents(t).Keys == ChildNames(ops, n, ops[n].parent) && ops[n].name !in Contents(t)
    ensures MakeStep(fs.heap, fs.hash, ops, n, sizes, calls, from, linked)
  {
    hide ChildNames, PutOf, HomesApart, Allocator.Account;
    assert |Contents(t)| == |Contents(t).Keys|;
    if sizes[ops[n].parent] == 8 && NinthApart(fs.hash, ops, n) {
      NinthChild(fs.heap, fs.hash, from + 1, t, ops[n].name, node);
    }
  }

  /** One call of the script, for which the new node's own map is granted. */
  method MakeNext(fs: FileSystem, ops: seq<Make>, nodes: seq<VfsNode>, n: nat, ghost sizes: seq<nat>)
      returns (node: VfsNode, linked: bool, ghost calls: seq<CreateCall>)
    requires fs.Valid() && Script(ops) && n < |ops| && Built(fs.tree, ops, nodes, n) && SizesAre(nodes, sizes)
    requires fs.heap.grants(fs.heap.asked)
    modifies fs, fs.Repr(), fs.heap
    ensures fs.Valid() && fresh(fs.Repr() - old(fs.Repr()))
    ensures MakeStep(fs.heap, fs.hash, ops, n, sizes, calls, old(fs.heap.asked), linked)
    ensures calls == [] <==> old(fs.RoomIn(nodes[ops[n].parent].children, ops[n].name))
    ensures fs.Puts(old(fs.TableOf(nodes[ops[n].parent].children)), ops[n].name, node, old(fs.heap.asked) + 1,
                    linked, fs.TableOf(nodes[ops[n].parent].children), calls)
    ensures fs.heap.asked == old(fs.heap.asked) + 1 + Requests(calls)
    ensures if linked
            then
              && Built(fs.tree, ops, nodes + [node], n + 1)
              && SizesAre(nodes + [node], SizesAfter(sizes, ops[n].parent, calls))
            else SizesBut(nodes, sizes, ops[n].parent)
  {
    hide ChainOf, TableInv, TreeShape, Separate, Built, ChildNames, Grown, MakeStep, Allocator.Account;
    hide FileSystem.RoomIn, FileSystem.Repr, FileSystem.Node, FileSystem.TableOf, FileSystem.Puts, Requests, Contents;
    var p := ops[n].parent;
    ghost var at, t := ChainOf(ops, p), fs.tree;
    NotYetBuilt(t, ops, nodes, n);
    fs.InRepr(at);
    if sizes[p] == 8 {
      RoomUnder(fs, ops, nodes, n);
    }
    TableUnder(fs, ops, nodes, n);
    ghost var asked, table := fs.heap.asked, fs.TableOf(nodes[p].children);
    ghost var kept;
    node, linked, kept, calls := fs.MakeNode(ops[n].name, nodes[p], ops[n].flags, at);
    fs.heap.AccountCounts(calls, asked + 1, sizes[p], linked);
    StepMade(fs, ops, n, sizes, asked, table, node, linked, fs.TableOf(nodes[p].children), calls);
    forall k | 0 <= k <= n && k != p ensures nodes[k].children.tableSize == sizes[k] {
      OthersApart(t, ops, nodes, n, k);
    }
    if linked {
      BuiltMore(t, ops, nodes, n, node);
    }
  }

  /** How a build ends: done; or the map of the next node is refused, which the source does not survive; or a put has
      failed. */
  datatype Ending = Done | NoMap | Unlinked

  /** What the heap has been asked for by then, from request `from` on, and, unless a put has failed, the tree. `last` is
      what the put that failed asked for. */
  ghost predicate Ended(heap: Allocator, hash: Key -> nat, t: Tree, ops: seq<Make>, nodes: seq<VfsNode>, outcome: Ending,
                        log: Log, last: seq<CreateCall>, from: nat)
    requires Ordered(ops) && 0 < |nodes| <= |ops| + 1
    reads heap
  {
    var n := |nodes| - 1;
    && heap.grants(from) && Logged(heap, hash, ops, n, log) && log.asked[0] == from + 1
    && match outcome
       case Done => n == |ops| && Built(t, ops, nodes, n) && heap.asked == log.asked[n]
       case NoMap => n < |ops| && Built(t, ops, nodes, n) && heap.asked == log.asked[n] && !heap.grants(log.asked[n])
       case Unlinked =>
         && n < |ops| && MakeStep(heap, hash, ops, n, log.sizes[n], last, log.asked[n], false)
         && heap.asked == log.asked[n] + 1 + Requests(last)
  }

  /** vfs_init and the calls of the script, as long as there is memory for the new nodes' maps and the puts succeed. */
  method Build(fs: FileSystem, ops: seq<Make>)
      returns (nodes: seq<VfsNode>, outcome: Ending, ghost log: Log, ghost last: seq<CreateCall>)
    requires fs.tree == map[] && Script(ops)
    modifies fs, fs.heap
    ensures |nodes| <= |ops| + 1
    ensures nodes == [] ==> outcome == NoMap && !fs.heap.grants(old(fs.heap.asked)) && fs.heap.asked == old(fs.heap.asked)
    ensures nodes != [] ==>
              && fs.Valid() && fresh(fs.Repr())
              && Ended(fs.heap, fs.hash, fs.tree, ops, nodes, outcome, log, last, old(fs.heap.asked))
    ensures nodes != [] && outcome != Unlinked ==> SizesAre(nodes, log.sizes[|nodes| - 1])
    ensures outcome == Unlinked ==> SizesBut(nodes, log.sizes[|nodes| - 1], ops[|nodes| - 1].parent)
  {
    hide ChainOf, Built, MakeStep, LoggedAt, Requests, SizesAfter, SizesBut, PutOf;
    hide FileSystem.Valid, FileSystem.Repr, FileSystem.Puts, FileSystem.TableOf, FileSystem.RoomIn;
    last := [];
    log := Log([], [], []);
    if !fs.heap.grants(fs.heap.asked) {
      return [], NoMap, log, last;
    }
    fs.VfsInit();
    nodes := [fs.root];
    log := Log([[8]], [], [fs.heap.asked]);
    BuiltRoot(fs.root, ops);
    for i := 0 to |ops|
      invariant fs.Valid() && fresh(fs.Repr()) && Built(fs.tree, ops, nodes, i) && |nodes| == i + 1
      invariant Logged(fs.heap, fs.hash, ops, i, log) && log.asked[0] == old(fs.heap.asked) + 1
      invariant SizesAre(nodes, log.sizes[i]) && fs.heap.asked == log.asked[i]
    {
      if !fs.heap.grants(fs.heap.asked) {
        return nodes, NoMap, log, last;
      }
      ghost var repr := fs.Repr();
      label before:
      var node, linked;
      node, linked, last := MakeNext(fs, ops, nodes, i, log.sizes[i]);
      forall o | o in fs.Repr() ensures o != null && fresh(o) {
        assert o in repr || fresh@before(o);
      }
      if !linked {
        return nodes, Unlinked, log, last;
      }
      LoggedMore(fs.heap, fs.hash, ops, i, log, last);
      nodes := nodes + [node];
      log := LogMore(log, ops[i].parent, last);
    }
    outcome := Done;
  }

  lemma BuiltRoot(root: VfsNode, ops: seq<Make>)
    requires Ordered(ops) && root.flags == FILE_FLAG_DIR
    ensures Built(map[[] := root], ops, [root], 0)
  {
    assert ChainOf(ops, 0) == [];
    assert BuiltAt(map[[] := root], ops, [root], 0);
  }

  lemma {:induction false} JoinFree(names: seq<Name>)
    requires names != [] && Wrapped(names)
    ensures 0 !in Join(names, SLASH)
  {
    assert Proper(names[0]);
    if |names| > 1 {
      JoinFree(names[1..]);
    }
  }

  /** Resolve the path that a chain of names spells, given, if there is such a node, with or without a slash after it. */
  method Find(fs: FileSystem, c: Chain, slash: bool) returns (node: VfsNode?)
    requires fs.Valid() && c != [] && Wrapped(c) && c[..|c| - 1] in fs.tree && |Join(c, SLASH)| + 3 < U32
    requires slash ==> c in fs.tree
    ensures node == if c !in fs.tree || (slash && fs.tree[c].flags & FILE_FLAG_DIR == 0) then null else fs.tree[c]
  {
    hide Join, FileSystem.InOrder, FileSystem.Resolved, FileSystem.Walkable, FileSystem.Finds;
    JoinFree(c);
    if c in fs.tree {
      fs.ChainResolves(c);
    } else {
      fs.ChainMissing(c);
    }
    var path := [SLASH] + Join(c, SLASH);
    if slash {
      path := path + [SLASH];
    }
    var str := path + [0];
    assert str[..|path|] == path;
    TextOf(str, |path|);
    node := fs.PathToNode(str);
  }

  lemma EndedNarrow(heap: Allocator, hash: Key -> nat, t: Tree, ops: seq<Make>, nodes: seq<VfsNode>, outcome: Ending,
                    log: Log, last: seq<CreateCall>, from: nat)
    requires Script(ops) && Narrow(ops)
    requires 0 < |nodes| <= |ops| + 1 && Ended(heap, hash, t, ops, nodes, outcome, log, last, from)
    ensures outcome != Unlinked
  {
    if outcome == Unlinked {
      NarrowFits(heap, hash, ops, |nodes| - 1, log, last, false);
    }
  }

  lemma {:induction false} ChainWrapped(ops: seq<Make>, k: nat)
    requires Script(ops) && k <= |ops|
    ensures Wrapped(ChainOf(ops, k))
  {
    if k > 0 {
      ChainWrapped(ops, ops[k - 1].parent);
    }
  }

  lemma EndedDone(heap: Allocator, hash: Key -> nat, t: Tree, ops: seq<Make>, nodes: seq<VfsNode>,
                  log: Log, last: seq<CreateCall>, from: nat, k: nat)
    requires Script(ops) && 0 < k <= |ops|
    requires 0 < |nodes| <= |ops| + 1 && Ended(heap, hash, t, ops, nodes, Done, log, last, from)
    ensures k < |nodes| && ChainOf(ops, k) != [] && ChainOf(ops, k) in t
    ensures Wrapped(ChainOf(ops, k)) && ChainOf(ops, k)[..|ChainOf(ops, k)| - 1] in t
    ensures t[ChainOf(ops, k)] == nodes[k] && nodes[k].flags == ops[k - 1].flags
  {
    assert BuiltAt(t, ops, nodes, k);
    ChainWrapped(ops, k);
    var p := ops[k - 1].parent;
    assert BuiltAt(t, ops, nodes, p);
    assert ChainOf(ops, k)[..|ChainOf(ops, k)| - 1] == ChainOf(ops, p);
  }

  /** A run from start to end: build the tree, then look one of its nodes up by the names that lead to it. If no directory
      gets more than eight children, only a refused map for a new node can come between. */
  method BuildAndFind(fs: FileSystem, ops: seq<Make>, k: nat, slash: bool)
      returns (nodes: seq<VfsNode>, outcome: Ending, node: VfsNode?, ghost log: Log, ghost last: seq<CreateCall>)
    requires fs.tree == map[] && Script(ops)
    requires 0 < k <= |ops| && |Join(ChainOf(ops, k), SLASH)| + 3 < U32
    modifies fs, fs.heap
    ensures |nodes| <= |ops| + 1
    ensures nodes == [] ==> outcome == NoMap && !fs.heap.grants(old(fs.heap.asked))
    ensures nodes != [] ==>
              fs.Valid() && Ended(fs.heap, fs.hash, fs.tree, ops, nodes, outcome, log, last, old(fs.heap.asked))
    ensures Narrow(ops) ==> outcome != Unlinked
    ensures outcome == Done ==> node == if slash && ops[k - 1].flags & FILE_FLAG_DIR == 0 then null else nodes[k]
  {
    hide Narrow, Join, ChainOf, Ended, FileSystem.InOrder;
    node := null;
    nodes, outcome, log, last := Build(fs, ops);
    if nodes != [] && Narrow(ops) {
      EndedNarrow(fs.heap, fs.hash, fs.tree, ops, nodes, outcome, log, last, old(fs.heap.asked));
    }
    if outcome == Done {
      EndedDone(fs.heap, fs.hash, fs.tree, ops, nodes, log, last, old(fs.heap.asked), k);
      node := Find(fs, ChainOf(ops, k), slash);
    }
  }
}
