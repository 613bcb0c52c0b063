/** sys/src/fs/vfs.c: a tree of nodes, each holding its children in a hash map, and the resolution of paths in it. */
module Vfs {
  import opened Bits
  import opened ProbeTable
  import opened Allocation
  import opened Moves
  import opened Growth
  import opened HashMap
  import opened CString
  import opened Paths

  const FILE_FLAG_DIR: bv8 := 1

  class VfsNode {
    const name: Name
    const flags: bv8
    const children: HashMap<VfsNode?>
    var nChildren: nat

    constructor (name: Name, flags: bv8, children: HashMap<VfsNode?>)
      ensures this.name == name && this.flags == flags && this.children == children && nChildren == 0
    {
      this.name, this.flags, this.children, nChildren := name, flags, children, 0;
    }
  }

  type Chain = seq<Name>

  /** The tree as a value: the node at the end of each chain of names from the root. */
  type Tree = map<Chain, VfsNode>

  ghost predicate TreeShape(t: Tree) {
    && [] in t
    && (forall c :: c in t && c != [] ==> c[..|c| - 1] in t && Proper(c[|c| - 1]))
  }

  /** Distinct chains have nodes, maps and storage of their own. */
  ghost predicate Separate(t: Tree)
    reads set c | c in t :: t[c].children
  {
    && (forall c :: c in t ==> t[c].children.data != null)
    && (forall c, d :: c in t && d in t && c != d ==>
          t[c] != t[d] && t[c].children != t[d].children && t[c].children.data != t[d].children.data)
  }

  /** A map that holds exactly the nodes one name further on than chain c. */
  ghost predicate Children(t: Tree, c: Chain, m: map<Key, VfsNode?>) {
    && (forall x :: x in m ==> c + [x] in t && m[x] == t[c + [x]])
    && (forall x :: c + [x] in t ==> x in m)
  }

  lemma PowerEight()
    ensures PowerOfTwo(8)
  {
  }

  lemma {:induction false} PrefixIn(t: Tree, c: Chain, i: nat)
    requires TreeShape(t) && c in t && i <= |c|
    ensures c[..i] in t
    decreases |c|
  {
    if i < |c| {
      assert c[..|c| - 1][..i] == c[..i];
      PrefixIn(t, c[..|c| - 1], i);
    } else {
      assert c[..i] == c;
    }
  }

  lemma {:induction false} ChainProper(t: Tree, c: Chain)
    requires TreeShape(t) && c in t
    ensures Wrapped(c)
    decreases |c|
  {
    if c != [] {
      ChainProper(t, c[..|c| - 1]);
      assert forall i :: 0 <= i < |c| - 1 ==> c[i] == c[..|c| - 1][i];
    }
  }

  /** Looking up the next name of a chain in the map of the node reached so far finds the next node, if there is one. */
  lemma StepDown(t: Tree, c: Chain, i: nat, m: map<Key, VfsNode?>)
    requires TreeShape(t) && i < |c| && Children(t, c[..i], m) && c[..|c| - 1] in t
    ensures c[..i + 1] in t <==> c[i] in m
    ensures c[i] in m ==> m[c[i]] == t[c[..i + 1]]
    ensures i + 1 < |c| ==> c[..i + 1] in t
  {
    assert c[..i + 1] == c[..i] + [c[i]];
    if i + 1 < |c| {
      PrefixIn(t, c[..|c| - 1], i + 1);
      assert c[..|c| - 1][..i + 1] == c[..i + 1];
    }
  }

  /** Where the look-up of a chain stands after i names: at a node of the tree, and after the last at what there is. */
  ghost predicate Reached(t: Tree, c: Chain, i: nat, node: VfsNode?) {
    if i < |c| then c[..i] in t && node == t[c[..i]] else node == if c in t then t[c] else null
  }

  lemma ReachedRoot(t: Tree, c: Chain, root: VfsNode)
    requires [] in t && root == t[[]]
    ensures Reached(t, c, 0, root)
  {
    assert c[..0] == [];
  }

  lemma ReachedNext(t: Tree, c: Chain, i: nat, next: VfsNode?)
    requires i < |c| && next == (if c[..i + 1] in t then t[c[..i + 1]] else null) && (i + 1 < |c| ==> c[..i + 1] in t)
    ensures Reached(t, c, i + 1, next)
  {
    if i + 1 == |c| {
      assert c[..i + 1] == c;
    }
  }

  /** Chain c is d or runs on from it. */
  predicate From(c: Chain, d: Chain) {
    |c| >= |d| && c[..|d|] == d
  }

  /** The tree with a new node under the node at chain c, in place of any of that name and all below it. */
  ghost function Grown(t: Tree, c: Chain, name: Name, node: VfsNode): Tree {
    (map e | e in t && !From(e, c + [name]) :: t[e])[c + [name] := node]
  }

  /** If there was none of that name, the tree has one node more. */
  lemma GrownByOne(t: Tree, c: Chain, name: Name, node: VfsNode)
    requires TreeShape(t) && c + [name] !in t
    ensures Grown(t, c, name, node) == t[c + [name] := node]
  {
    forall e | e in t ensures !From(e, c + [name]) {
      if From(e, c + [name]) {
        PrefixIn(t, e, |c| + 1);
      }
    }
  }

  lemma RootChildren(root: VfsNode)
    ensures TreeShape(map[[] := root]) && Children(map[[] := root], [], map[])
  {
  }

  type Storage = map<Chain, array?<Element<VfsNode?>>>

  ghost function StorageOf(t: Tree): Storage
    reads set c | c in t :: t[c].children
  {
    map c | c in t :: t[c].children.data
  }

  /** What a tree is made of: nodes, maps and the maps' storage. */
  ghost function ReprOf(t: Tree, storage: Storage): set<object?> {
    (set c | c in t :: t[c]) + (set c | c in t :: t[c].children) + (set c | c in storage :: storage[c])
  }

  /** What one more node, or fewer, and other storage for the node at `at` add to it. */
  lemma ReprMore(t: Tree, storage: Storage, t': Tree, storage': Storage, at: Chain, name: Name, node: VfsNode)
    requires storage.Keys == t.Keys && storage'.Keys == t'.Keys && at in t && at in t'
    requires forall c :: c in t' ==> (c in t && t'[c] == t[c]) || (c == at + [name] && t'[c] == node)
    requires forall c :: c in t' && c != at ==>
               (c in t && t'[c] == t[c] && storage'[c] == storage[c])
               || (c == at + [name] && t'[c] == node && storage'[c] == node.children.data)
    ensures forall o :: o in ReprOf(t', storage') ==>
              o in ReprOf(t, storage) || o == node || o == node.children || o == node.children.data || o == storage'[at]
    ensures storage[at] in ReprOf(t, storage)
  {
  }

  /** Storage stays separate when one node's is replaced by storage that no other node has. */
  lemma SeparateAfter(t: Tree, at: Chain, node: VfsNode, storage: Storage)
    requires at in t && storage.Keys == t.Keys
    requires forall c, d :: c in t && d in t && c != d ==>
               t[c] != t[d] && t[c].children != t[d].children && storage[c] != storage[d]
    requires forall c :: c in t ==> t[c] != node && t[c].children != node.children && storage[c] != node.children.data
    requires forall c :: c in t && c != at ==> t[c].children.data == storage[c] != null && t[at].children.data != storage[c]
    requires t[at].children.data != null && node.children.data != null && t[at].children.data != node.children.data
    ensures Separate(t) && Apart(t, node)
  {
  }

  /** A node whose map and storage are no other node's. */
  ghost predicate Apart(t: Tree, node: VfsNode)
    reads node.children, (set c | c in t :: t[c].children)
  {
    && node.children.data != null
    && forall c :: c in t ==>
         t[c] != node && t[c].children != node.children && t[c].children.data != node.children.data
  }

  lemma FromLonger(e: Chain, d: Chain)
    requires e != [] && From(e[..|e| - 1], d)
    ensures From(e, d)
  {
    assert e[..|e| - 1][..|d|] == e[..|d|];
  }

  lemma GrowShape(t: Tree, c: Chain, name: Name, node: VfsNode)
    requires TreeShape(t) && c in t && Proper(name)
    ensures TreeShape(Grown(t, c, name, node))
  {
    var t' := Grown(t, c, name, node);
    forall e | e in t' && e != [] ensures e[..|e| - 1] in t' && Proper(e[|e| - 1]) {
      if e == c + [name] {
        assert e[..|e| - 1] == c;
      } else {
        if From(e[..|e| - 1], c + [name]) {
          FromLonger(e, c + [name]);
        }
      }
    }
  }

  lemma SameStep(d: Chain, x: Name, c: Chain, name: Name)
    ensures d + [x] == c + [name] <==> d == c && x == name
  {
    if d + [x] == c + [name] {
      assert |d| == |c|;
      assert d == (d + [x])[..|d|] == c;
      assert (d + [x])[|d|] == x;
    }
  }

  lemma FromStep(d: Chain, x: Name, c: Chain, name: Name)
    requires !From(d, c + [name])
    ensures From(d + [x], c + [name]) <==> d == c && x == name
  {
    SameStep(d, x, c, name);
    var e := d + [x];
    if |d| > |c| {
      assert e[..|c| + 1] == d[..|c| + 1];
    } else if |d| == |c| {
      assert e[..|c| + 1] == e;
    }
  }

  /** What each map must hold in the grown tree. */
  lemma GrowChildren(t: Tree, c: Chain, name: Name, node: VfsNode, d: Chain, m: map<Key, VfsNode?>)
    requires d in t && !From(d, c + [name]) && Children(t, d, m)
    ensures Children(Grown(t, c, name, node), d, if d == c then m[name := node] else m)
  {
    hide From;
    forall x ensures From(d + [x], c + [name]) <==> d == c && x == name {
      FromStep(d, x, c, name);
    }
    forall x ensures d + [x] == c + [name] <==> d == c && x == name {
      SameStep(d, x, c, name);
    }
  }

  lemma GrowLeaf(t: Tree, c: Chain, name: Name, node: VfsNode)
    ensures Children(Grown(t, c, name, node), c + [name], map[])
  {
    forall x ensures From(c + [name] + [x], c + [name]) {
      assert (c + [name] + [x])[..|c| + 1] == c + [name];
    }
  }

  /** Chain c runs through a child of the node at `at` that is not among the kept. */
  predicate Lost(c: Chain, at: Chain, kept: set<Name>) {
    |c| > |at| && c[..|at|] == at && c[|at|] !in kept
  }

  /** What is left of the tree when the node at `at` has kept only some children: the subtrees of the others are gone. */
  ghost function Pruned(t: Tree, at: Chain, kept: set<Name>): Tree {
    map c | c in t && !Lost(c, at, kept) :: t[c]
  }

  lemma PruneShape(t: Tree, at: Chain, kept: set<Name>)
    requires TreeShape(t)
    ensures TreeShape(Pruned(t, at, kept))
  {
  }

  lemma PruneChildren(t: Tree, at: Chain, m: map<Key, VfsNode?>, c: Chain, mc: map<Key, VfsNode?>)
    requires c in Pruned(t, at, m.Keys) && Children(t, c, mc) && (c == at ==> Submap(m, mc))
    ensures Children(Pruned(t, at, m.Keys), c, if c == at then m else mc)
  {
  }

  lemma PruneSeparate(t: Tree, at: Chain, kept: set<Name>)
    requires Separate(t)
    ensures Separate(Pruned(t, at, kept))
  {
  }

  class FileSystem {
    const hash: Key -> nat
    const heap: Allocator
    var root: VfsNode?  // g_rootfs
    ghost var tree: Tree

    ghost predicate Valid()
      reads this, (set c | c in tree :: tree[c].children), (set c | c in tree :: tree[c].children.data)
    {
      InOrder(tree) && root == tree[[]]
    }

    /** A tree whose nodes each have a map of their own that holds exactly their children. */
    ghost predicate InOrder(t: Tree)
      reads (set c | c in t :: t[c].children), (set c | c in t :: t[c].children.data)
    {
      TreeShape(t) && Separate(t) && forall c {:trigger Node(t, c)} :: c in t ==> Node(t, c)
    }

    /** The node at chain c: an intact map, of this file system, with the right children. */
    ghost predicate Node(t: Tree, c: Chain)
      requires c in t
      reads t[c].children, t[c].children.data
    {
      Intact(t[c].children) && Children(t, c, t[c].children.Map())
    }

    ghost predicate Intact(m: HashMap<VfsNode?>)
      reads m, m.data
    {
      m.hash == hash && m.heap == heap && m.nil == null && m.Valid()
    }

    /** A map with room for a name as it is. */
    ghost predicate RoomIn(m: HashMap<VfsNode?>, name: Name)
      reads m, m.data
    {
      Intact(m) && HasRoom(hash, m.Table(), name)
    }

    ghost function TableOf(m: HashMap<VfsNode?>): seq<Element<VfsNode?>>
      reads m, m.data
    {
      if Intact(m) then m.Table() else []
    }

    /** What putting a node in a map of the given table comes to. */
    ghost predicate Puts(t: seq<Element<VfsNode?>>, name: Name, node: VfsNode, from: nat, ok: bool,
                         t': seq<Element<VfsNode?>>, calls: seq<CreateCall>)
    {
      TableInv(hash, t) && |name| < U32 && PutOf(heap, hash, null, from, t, EntryFor(name, node)) == Outcome(ok, t', calls)
    }

    /** What a path resolves to. */
    ghost function Resolved(path: seq<Byte>): VfsNode?
      reads this
    {
      if path == [] || path[0] != SLASH then null else
        var t := path[1..];
        if Components(t) == [] || Components(t) !in tree then null else
          var node := tree[Components(t)];
          if WantsDirectory(t) && node.flags & FILE_FLAG_DIR == 0 then null else node
    }

    /** The source follows each link without looking: every directory on the way must exist, and, if the path ends in a
        slash, so must its last node. */
    ghost predicate Walkable(path: seq<Byte>)
      reads this
    {
      path != [] && path[0] == SLASH ==>
        var t := path[1..];
        var c := Components(t);
        (c != [] ==> c[..|c| - 1] in tree) && (WantsDirectory(t) ==> c in tree)
    }

    ghost function Repr(): set<object?>
      reads this, (set c | c in tree :: tree[c].children)
    {
      ReprOf(tree, StorageOf(tree))
    }

    lemma InRepr(c: Chain)
      requires c in tree
      ensures tree[c] in Repr() && tree[c].children in Repr() && tree[c].children.data in Repr()
    {
      assert StorageOf(tree)[c] == tree[c].children.data;
    }

    /** Before vfs_init there is no root. */
    constructor (hash: Key -> nat, heap: Allocator)
      ensures this.hash == hash && this.heap == heap && root == null && tree == map[]
    {
      this.hash, this.heap, root, tree := hash, heap, null, map[];
    }

    /** A node of its own with an empty map; the result of hashmap_create is not looked at, so it must not fail. */
    method NewNode(name: Name, flags: bv8) returns (node: VfsNode)
      requires |name| <= 256 && heap.grants(heap.asked)
      modifies heap
      ensures fresh(node) && fresh(node.children) && fresh(node.children.data)
      ensures node.name == name && node.flags == flags && node.nChildren == 0
      ensures Intact(node.children) && node.children.Map() == map[] && node.children.tableSize == 8
      ensures heap.asked == old(heap.asked) + 1
    {
      var children := new HashMap<VfsNode?>(hash, null, heap);
      PowerEight();
      var r := children.Create(8);
      node := new VfsNode(name, flags, children);
    }

    lemma RootAlone(root: VfsNode)
      requires tree == map[[] := root]
      ensures Repr() == {root, root.children, root.children.data}
    {
      var s := StorageOf(tree);
      assert [] in tree && [] in s && s[[]] == root.children.data;
      assert (set c | c in tree :: tree[c]) == {root};
      assert (set c | c in tree :: tree[c].children) == {root.children};
      assert (set c | c in s :: s[c]) == {root.children.data};
    }

    lemma RootInOrder(root: VfsNode)
      requires Intact(root.children) && root.children.Map() == map[]
      ensures InOrder(map[[] := root])
    {
      hide TreeShape, Children, Intact;
      RootChildren(root);
      RootSeparate(root);
      assert Node(map[[] := root], []);
    }

    lemma RootSeparate(root: VfsNode)
      requires Intact(root.children)
      ensures Separate(map[[] := root])
    {
    }

    /** vfs_init. */
    method VfsInit()
      requires tree == map[] && heap.grants(heap.asked)
      modifies this`root, this`tree, heap
      ensures Valid() && root != null && root.flags == FILE_FLAG_DIR && tree == map[[] := root]
      ensures fresh(Repr()) && root.children.tableSize == 8 && heap.asked == old(heap.asked) + 1
    {
      hide InOrder, Intact, Repr;
      root := NewNode([], FILE_FLAG_DIR);
      tree := map[[] := root];
      RootInOrder(root);
      RootAlone(root);
    }

    /** Once the parent's map holds the new node, the grown tree is in order. */
    lemma GrowNodes(t: Tree, at: Chain, name: Name, node: VfsNode, before: map<Key, VfsNode?>)
      requires TreeShape(t) && at in t
      requires forall c {:trigger Node(t, c)} :: c in t && c != at ==> Node(t, c)
      requires Intact(t[at].children) && Children(t, at, before) && t[at].children.Map() == before[name := node]
      requires Intact(node.children) && node.children.Map() == map[]
      ensures var t' := Grown(t, at, name, node); forall c {:trigger Node(t', c)} :: c in t' ==> Node(t', c)
    {
      var t' := Grown(t, at, name, node);
      GrowLeaf(t, at, name, node);
      forall c | c in t' ensures Node(t', c) {
        if c != at + [name] {
          assert c != at ==> Node(t, c);
          GrowChildren(t, at, name, node, c, if c == at then before else t[c].children.Map());
        }
      }
    }

    lemma GrowSeparate(t: Tree, at: Chain, name: Name, node: VfsNode)
      requires Separate(t) && Apart(t, node)
      ensures Separate(Grown(t, at, name, node))
    {
    }

    twostate predicate Untouched(m: HashMap<VfsNode?>)
      reads m, m.data
    {
      unchanged(m) && m.data != null && old(allocated(m.data)) && unchanged(m.data)
    }

    /** Nothing but the parent's map and the heap has changed, and the parent's storage, if new, is new altogether. */
    twostate predicate OnlyParent(t: Tree, at: Chain, node: VfsNode)
      requires at in t
      reads t[at].children, node.children, node.children.data
      reads (set c | c in t :: t[c].children), (set c | c in t :: t[c].children.data)
    {
      && (forall c :: c in t && c != at ==> Untouched(t[c].children))
      && Untouched(node.children)
      && (t[at].children.data == old(t[at].children.data) || fresh(t[at].children.data))
    }

    /** hashmap_put into one map, as the tree needs it: when it succeeds, and what is left when it does not. */
    method PutInto(m: HashMap<VfsNode?>, name: Name, node: VfsNode) returns (r: int, ghost calls: seq<CreateCall>)
      requires Intact(m) && |name| < U32
      modifies m, m.data, heap
      ensures Intact(m) && (m.data == old(m.data) || fresh(m.data)) && (r == 0 || r == 1)
      ensures heap.Trail(calls, old(heap.asked), old(m.tableSize), r == 0)
      ensures r == 0 ==> m.Map() == old(m.Map())[name := node]
      ensures r == 1 ==> Submap(m.Map(), old(m.Map()))
      ensures calls == [] <==> old(RoomIn(m, name))
      ensures r == 0 ==> m.tableSize == SizeAfter(calls, old(m.tableSize))
      ensures Puts(old(TableOf(m)), name, node, old(heap.asked), r == 0, TableOf(m), calls)
    {
      hide PutOf;
      ghost var contents := m.Map();
      ghost var trace;
      r, trace := m.Put(name, node);
      calls := trace.calls;
      if r == 1 {
        m.LosesExactly(trace, contents);
      }
    }

    /** The end of vfs_make_node: put the new node in its parent's map and count it. What hashmap_put returns is not
        looked at; here it is handed back as `linked`. If it succeeded the new node is in the tree; if it failed the tree
        has lost the subtrees of whatever children the map has lost. */
    method PutOnly(name: Name, parent: VfsNode, node: VfsNode, ghost at: Chain)
        returns (linked: bool, ghost kept: set<Name>, ghost calls: seq<CreateCall>)
      requires at in tree && parent == tree[at] && |name| < U32
      requires Separate(tree) && Apart(tree, node) && Intact(parent.children)
      modifies this`tree, parent`nChildren, parent.children, parent.children.data, heap
      ensures OnlyParent(old(tree), at, node) && Intact(parent.children) && parent.nChildren == old(parent.nChildren) + 1
      ensures linked ==> parent.children.Map() == old(parent.children.Map())[name := node]
      ensures !linked ==> Submap(parent.children.Map(), old(parent.children.Map())) && kept == parent.children.Map().Keys
      ensures tree == if linked then Grown(old(tree), at, name, node) else Pruned(old(tree), at, kept)
      ensures heap.Trail(calls, old(heap.asked), old(parent.children.tableSize), linked)
      ensures calls == [] <==> old(RoomIn(parent.children, name))
      ensures linked ==> parent.children.tableSize == SizeAfter(calls, old(parent.children.tableSize))
      ensures Puts(old(TableOf(parent.children)), name, node, old(heap.asked), linked, TableOf(parent.children), calls)
    {
      hide Puts, TableOf, TableInv, RoomIn, Submap, Grown, Pruned, HashMap.Valid;
      var r;
      r, calls := PutInto(parent.children, name, node);
      linked, kept := r == 0, parent.children.Map().Keys;
      parent.nChildren := parent.nChildren + 1;
      tree := if linked then Grown(tree, at, name, node) else Pruned(tree, at, kept);
    }

    lemma PruneNodes(t: Tree, at: Chain, before: map<Key, VfsNode?>)
      requires TreeShape(t) && at in t
      requires forall c {:trigger Node(t, c)} :: c in t && c != at ==> Node(t, c)
      requires Intact(t[at].children) && Children(t, at, before) && Submap(t[at].children.Map(), before)
      ensures var t' := Pruned(t, at, t[at].children.Map().Keys); forall c {:trigger Node(t', c)} :: c in t' ==> Node(t', c)
    {
      var m := t[at].children.Map();
      var t' := Pruned(t, at, m.Keys);
      forall c | c in t' ensures Node(t', c) {
        assert c != at ==> Node(t, c);
        PruneChildren(t, at, m, c, if c == at then before else t[c].children.Map());
      }
    }

    /** The put as seen by the rest of the tree: every other node is as it was. */
    method PutChild(name: Name, parent: VfsNode, node: VfsNode, ghost at: Chain)
        returns (linked: bool, ghost kept: set<Name>, ghost before: map<Key, VfsNode?>, ghost calls: seq<CreateCall>)
      requires Valid() && at in tree && parent == tree[at] && |name| < U32
      requires Apart(tree, node) && Intact(node.children) && node.children.Map() == map[]
      modifies this`tree, parent`nChildren, parent.children, parent.children.data, heap
      ensures Separate(old(tree)) && Apart(old(tree), node) && Intact(node.children) && node.children.Map() == map[]
      ensures forall c {:trigger Node(old(tree), c)} :: c in old(tree) && c != at ==> Node(old(tree), c)
      ensures Intact(parent.children) && Children(old(tree), at, before) && parent.nChildren == old(parent.nChildren) + 1
      ensures OnlyParent(old(tree), at, node)
      ensures linked ==> parent.children.Map() == before[name := node]
      ensures !linked ==> Submap(parent.children.Map(), before) && kept == parent.children.Map().Keys
      ensures tree == if linked then Grown(old(tree), at, name, node) else Pruned(old(tree), at, kept)
      ensures heap.Trail(calls, old(heap.asked), old(parent.children.tableSize), linked)
      ensures calls == [] <==> old(RoomIn(parent.children, name))
      ensures linked ==> parent.children.tableSize == SizeAfter(calls, old(parent.children.tableSize))
      ensures Puts(old(TableOf(parent.children)), name, node, old(heap.asked), linked, TableOf(parent.children), calls)
    {
      hide Puts, TableOf, TableInv, RoomIn;
      ghost var t := tree;
      assert Node(t, at);
      before := parent.children.Map();
      ghost var storage := StorageOf(t);
      linked, kept, calls := PutOnly(name, parent, node, at);
      SeparateAfter(t, at, node, storage);
    }

    lemma GrowInOrder(t: Tree, at: Chain, name: Name, node: VfsNode, before: map<Key, VfsNode?>)
      requires TreeShape(t) && at in t && Proper(name) && Separate(t) && Apart(t, node)
      requires forall c {:trigger Node(t, c)} :: c in t && c != at ==> Node(t, c)
      requires Intact(t[at].children) && Children(t, at, before) && t[at].children.Map() == before[name := node]
      requires Intact(node.children) && node.children.Map() == map[]
      ensures InOrder(Grown(t, at, name, node)) && Grown(t, at, name, node)[[]] == t[[]]
    {
      GrowShape(t, at, name, node);
      GrowNodes(t, at, name, node, before);
      GrowSeparate(t, at, name, node);
    }

    lemma PruneInOrder(t: Tree, at: Chain, before: map<Key, VfsNode?>)
      requires TreeShape(t) && at in t && Separate(t)
      requires forall c {:trigger Node(t, c)} :: c in t && c != at ==> Node(t, c)
      requires Intact(t[at].children) && Children(t, at, before) && Submap(t[at].children.Map(), before)
      ensures var kept := t[at].children.Map().Keys; InOrder(Pruned(t, at, kept)) && Pruned(t, at, kept)[[]] == t[[]]
    {
      PruneShape(t, at, t[at].children.Map().Keys);
      PruneNodes(t, at, before);
      PruneSeparate(t, at, t[at].children.Map().Keys);
    }

    /** The new node is a link of the tree exactly when every table asked for was granted. */
    method Link(name: Name, parent: VfsNode, node: VfsNode, ghost at: Chain)
        returns (linked: bool, ghost kept: set<Name>, ghost calls: seq<CreateCall>)
      requires Valid() && at in tree && parent == tree[at] && Proper(name) && |name| < U32
      requires Apart(tree, node) && Intact(node.children) && node.children.Map() == map[]
      modifies this`tree, parent`nChildren, parent.children, parent.children.data, heap
      ensures Valid() && parent.nChildren == old(parent.nChildren) + 1 && OnlyParent(old(tree), at, node)
      ensures tree == if linked then Grown(old(tree), at, name, node) else Pruned(old(tree), at, kept)
      ensures heap.Trail(calls, old(heap.asked), old(parent.children.tableSize), linked)
      ensures calls == [] <==> old(RoomIn(parent.children, name))
      ensures linked ==> parent.children.tableSize == SizeAfter(calls, old(parent.children.tableSize))
      ensures Puts(old(TableOf(parent.children)), name, node, old(heap.asked), linked, TableOf(parent.children), calls)
    {
      hide Puts, TableOf, TableInv, RoomIn, OnlyParent, Children, Separate, Apart, Submap;
      ghost var t, before := tree, map[];
      linked, kept, before, calls := PutChild(name, parent, node, at);
      if linked {
        GrowInOrder(t, at, name, node, before);
      } else {
        PruneInOrder(t, at, before);
      }
    }

    /** The same, with what it means for all that the tree is made of. */
    method Attach(name: Name, parent: VfsNode, node: VfsNode, ghost at: Chain)
        returns (linked: bool, ghost kept: set<Name>, ghost calls: seq<CreateCall>)
      requires Valid() && at in tree && parent == tree[at] && Proper(name) && |name| < U32
      requires Apart(tree, node) && Intact(node.children) && node.children.Map() == map[]
      modifies this`tree, parent`nChildren, parent.children, parent.children.data, heap
      ensures Valid() && parent.nChildren == old(parent.nChildren) + 1
      ensures forall o :: o in Repr() ==>
                o in old(Repr()) || o == node || o == node.children || o == old(node.children.data) || fresh(o)
      ensures forall c :: c in old(tree) && c != at ==> unchanged(old(tree)[c].children)
      ensures unchanged(node.children) && old(node.children.data) == node.children.data
      ensures tree == if linked then Grown(old(tree), at, name, node) else Pruned(old(tree), at, kept)
      ensures heap.Trail(calls, old(heap.asked), old(parent.children.tableSize), linked)
      ensures calls == [] <==> old(RoomIn(parent.children, name))
      ensures linked ==> parent.children.tableSize == SizeAfter(calls, old(parent.children.tableSize))
      ensures Puts(old(TableOf(parent.children)), name, node, old(heap.asked), linked, TableOf(parent.children), calls)
    {
      hide Puts, TableOf, TableInv, RoomIn, InOrder, Intact, ReprOf;
      ghost var t, storage := tree, StorageOf(tree);
      linked, kept, calls := Link(name, parent, node, at);
      ReprMore(t, storage, tree, StorageOf(tree), at, name, node);
    }

    /** vfs_make_node under an existing parent. A node it already holds by that name is replaced, with all below it. */
    method MakeNode(name: Name, parent: VfsNode, flags: bv8, ghost at: Chain)
        returns (node: VfsNode, linked: bool, ghost kept: set<Name>, ghost calls: seq<CreateCall>)
      requires Valid() && at in tree && parent == tree[at] && Proper(name) && |name| <= 256
      requires heap.grants(heap.asked)
      modifies this`tree, parent`nChildren, parent.children, parent.children.data, heap
      ensures Valid() && fresh(node) && node.name == name && node.flags == flags && node.nChildren == 0
      ensures fresh(node.children) && fresh(node.children.data) && node.children.tableSize == 8
      ensures parent.nChildren == old(parent.nChildren) + 1
      ensures fresh(Repr() - old(Repr()))
      ensures forall c :: c in old(tree) && c != at ==> unchanged(old(tree)[c].children)
      ensures tree == if linked then Grown(old(tree), at, name, node) else Pruned(old(tree), at, kept)
      ensures heap.Trail(calls, old(heap.asked) + 1, old(parent.children.tableSize), linked)
      ensures calls == [] <==> old(RoomIn(parent.children, name))
      ensures linked ==> parent.children.tableSize == SizeAfter(calls, old(parent.children.tableSize))
      ensures Puts(old(TableOf(parent.children)), name, node, old(heap.asked) + 1, linked, TableOf(parent.children), calls)
    {
      hide Puts, TableOf, TableInv, RoomIn, InOrder, Intact, ReprOf;
      node := NewNode(name, flags);
      linked, kept, calls := Attach(name, parent, node, at);
    }

    /** The body of the loop: cut the i-th name out of the text and look it up. */
    static method Child(rest: seq<Byte>, children: HashMap<VfsNode?>, i: nat) returns (next: VfsNode?)
      requires children.Valid() && children.nil == null
      requires 0 in rest && |rest| < U32 && i < |Components(Text(rest))|
      ensures var name := Components(Text(rest))[i];
              next == if name in children.Map() then children.Map()[name] else null
    {
      ComponentAt(Text(rest), i);
      var split := Strsplit(rest, SLASH, i);
      next := children.Get(Text(split[..]));
    }

    /** What that does in the tree: from the node the first i names lead to, to what the next one leads to. */
    method Descend(rest: seq<Byte>, node: VfsNode, i: nat) returns (next: VfsNode?)
      requires Valid() && 0 in rest && |rest| < U32
      requires var c := Components(Text(rest)); i < |c| && c[..i] in tree && node == tree[c[..i]] && c[..|c| - 1] in tree
      ensures var c := Components(Text(rest));
              next == (if c[..i + 1] in tree then tree[c[..i + 1]] else null) && (i + 1 < |c| ==> c[..i + 1] in tree)
    {
      hide Components, Text, TreeShape, Children, TableInv;
      ghost var c := Components(Text(rest));
      assert Node(tree, c[..i]);
      StepDown(tree, c, i, node.children.Map());
      next := Child(rest, node.children, i);
    }

    lemma RootIn()
      requires Valid()
      ensures [] in tree && root == tree[[]]
    {
    }

    /** The loop of vfs_path_to_node, over the text after the leading slash. */
    method Walk(rest: seq<Byte>, dilmCount: nat) returns (node: VfsNode?)
      requires Valid() && 0 in rest && |rest| < U32
      requires var c := Components(Text(rest)); dilmCount == |c| && (c != [] ==> c[..|c| - 1] in tree)
      ensures var c := Components(Text(rest)); node == if c in tree then tree[c] else null
    {
      hide Components, Text, InOrder;
      ghost var c := Components(Text(rest));
      RootIn();
      ReachedRoot(tree, c, root);
      node := root;
      for i := 0 to dilmCount
        invariant Valid() && Reached(tree, c, i, node)
      {
        node := Descend(rest, node, i);
        ReachedNext(tree, c, i, node);
      }
    }

    /** How many rounds the loop goes, and whether the path insists on a directory. */
    static method Rounds(path: seq<Byte>) returns (dilmCount: nat, shouldBeDir: bool)
      requires 0 in path && path[0] == SLASH
      ensures var t := Text(path[1..]); dilmCount == |Components(t)| && (shouldBeDir <==> WantsDirectory(t))
    {
      hide Components, Count;
      var rest := path[1..];
      ghost var t := Text(rest);
      ComponentCount(t);
      dilmCount := StrdilmCount(rest, SLASH);
      shouldBeDir := true;
      var len := Strlen(rest);
      assert path[len] == if t == [] then SLASH else t[len - 1];
      if path[len] != SLASH {
        dilmCount := dilmCount + 1;
        shouldBeDir := false;
      }
    }

    /** The path is "/" and the names of chain c joined by slashes, with a slash after them only if c leads to a
        directory. */
    ghost predicate Leads(path: seq<Byte>, c: Chain)
      reads this
    {
      c in tree && c != [] && (path == [0x2F] + Join(c, 0x2F) ||
                               (path == [0x2F] + Join(c, 0x2F) + [0x2F] && tree[c].flags & 1 != 0))
    }

    /** A chain whose last name is missing resolves to null, and may be walked. */
    lemma ChainMissing(c: Chain)
      requires Valid() && c !in tree && c != [] && Wrapped(c) && c[..|c| - 1] in tree
      ensures Walkable([SLASH] + Join(c, SLASH)) && Resolved([SLASH] + Join(c, SLASH)) == null
    {
      PlainPath(c);
      assert ([SLASH] + Join(c, SLASH))[1..] == Join(c, SLASH);
    }

    /** The node that the path leads to along some chain of the tree, or null if it leads nowhere. */
    ghost predicate Finds(path: seq<Byte>, node: VfsNode?)
      reads this
    {
      if node == null then forall c :: !Leads(path, c)
      else (exists c :: Leads(path, c)) && forall c :: Leads(path, c) ==> node == tree[c]
    }

    /** What paths are for. "/" and a chain of names joined by slashes resolves to exactly the node made along that
        chain; with a slash after it, it does so exactly if the node is a directory; and both may be walked. */
    lemma ChainResolves(c: Chain)
      requires Valid() && c in tree && c != []
      ensures var path := [SLASH] + Join(c, SLASH);
              && Walkable(path) && Resolved(path) == tree[c]
              && Walkable(path + [SLASH])
              && Resolved(path + [SLASH]) == if tree[c].flags & FILE_FLAG_DIR == 0 then null else tree[c]
    {
      ChainProper(tree, c);
      PlainPath(c);
      DirectoryPath(c);
      var path := [SLASH] + Join(c, SLASH);
      assert path[1..] == Join(c, SLASH);
      assert (path + [SLASH])[1..] == Join(c, SLASH) + [SLASH];
    }

    /** Paths resolve to what they lead to, and to null if they lead nowhere. */
    lemma LeadsExactly(path: seq<Byte>)
      requires Valid()
      ensures Finds(path, Resolved(path))
    {
      hide Components, InOrder;
      forall c | Leads(path, c) ensures Resolved(path) == tree[c] {
        ChainResolves(c);
      }
      if Resolved(path) != null {
        var t := path[1..];
        SpeltBack(t);
        assert path == [SLASH] + t;
        var c := Components(t);
        assert [SLASH] + Join(c, SLASH) + [SLASH] == [SLASH] + (Join(c, SLASH) + [SLASH]);
        assert Leads(path, c);
      }
    }

    /** What the code makes of the node its loop arrives at. */
    lemma AnswerIs(path: seq<Byte>, node: VfsNode?)
      requires Valid() && Walkable(path) && path != [] && path[0] == SLASH
      requires var c := Components(path[1..]); node == if c in tree then tree[c] else null
      ensures WantsDirectory(path[1..]) ==> node != null
      ensures Resolved(path) == if node == root then null
                                else if WantsDirectory(path[1..]) && node.flags & FILE_FLAG_DIR == 0 then null else node
    {
      hide Components, Node, Children;
      var c := Components(path[1..]);
      assert [] in tree;
    }

    method PathToNode(path: seq<Byte>) returns (node: VfsNode?)
      requires Valid() && 0 in path && |path| < U32 && Walkable(Text(path))
      ensures node == Resolved(Text(path))
      ensures Finds(Text(path), node)
    {
      hide Finds, InOrder;
      LeadsExactly(Text(path));
      if path[0] != SLASH {
        assert Text(path) == [] || Text(path)[0] != SLASH;
        return null;
      }
      hide Resolved;
      var rest := path[1..];
      ghost var t := Text(rest);
      assert Text(path) == [SLASH] + t;
      assert Text(path)[1..] == t;
      hide Components, Text, Walkable, WantsDirectory;
      var dilmCount, shouldBeDir := Rounds(path);
      node := Walk(rest, dilmCount);
      AnswerIs(Text(path), node);
      if node != root {
        if shouldBeDir && node.flags & FILE_FLAG_DIR == 0 {
          return null;
        }
      }
      return if node == root then null else node;
    }

    /** The root itself is never found, and different chains lead to different nodes. */
    lemma PathsApart(c: Chain, d: Chain)
      requires Valid() && c in tree && d in tree && c != [] && d != [] && c != d
      ensures Resolved([SLASH]) == null
      ensures Resolved([SLASH] + Join(c, SLASH)) != Resolved([SLASH] + Join(d, SLASH))
    {
      ChainResolves(c);
      ChainResolves(d);
      RootPath();
      assert [SLASH][1..] == [];
    }
  }
}
