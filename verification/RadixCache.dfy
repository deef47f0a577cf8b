/** python/sglang/srt/mem_cache/radix_cache.py: `RadixCache`, as the code updates it in place. The
    objects of the tree live in the dictionary `nodes`; `freed` lists the KV slots handed back to
    the allocator; `holders` records whose lock is still outstanding. */
module RadixCaching {
  import opened Prelude
  import opened RadixTree
  import opened RadixState

  // ----- what an operation may do to the cached prefixes

  ghost predicate SameSlots(t: Tree, t': Tree)
    requires Shape(t) && Shape(t')
  {
    forall k :: Slot(t', k) == Slot(t, k)
  }

  /** No slot changes; those that disappear belong to prefixes nobody holds. */
  ghost predicate OnlyForgets(t: Tree, t': Tree, hs: seq<Key>)
    requires Shape(t) && Shape(t')
  {
    forall k :: Slot(t', k) == Slot(t, k) || (Slot(t', k) == None && forall h :: h in hs ==> !(k <= h))
  }

  /** How often slot `x` is stored in the tree. */
  ghost function Stored(t: Tree, x: int): int { Weight(t, Keeps(x)) }

  ghost predicate SameStore(t: Tree, t': Tree) { forall x :: Stored(t', x) == Stored(t, x) }

  /** The tree may be cut up more finely, but means the same and keeps every node. */
  ghost predicate SameMeaning(t: Tree, t': Tree)
    requires Shape(t) && Shape(t')
  {
    SameSlots(t, t') && SameStore(t, t') && t.Keys <= t'.Keys
  }

  lemma {:induction false} SplitSame(t: Tree, c: Key, n: nat)
    requires CanSplit(t, c, n)
    ensures Linked(t, c) && Shape(Split(t, c, n))
    ensures SameMeaning(t, Split(t, c, n))
  {
    SplitShape(t, c, n);
    hide Slot, Weight, Linked;
    forall k { SplitSlot(t, c, n, k); }
    forall x { SplitWeights(t, c, n, x); }
  }

  /** A leaf nobody holds carries no prefix of a held node. */
  lemma {:induction false} PruneForgets(t: Tree, x: Key, hs: seq<Key>)
    requires CanPrune(t, x) && Locks(t, hs) && t[x].lock == 0
    ensures Shape(Prune(t, x)) && OnlyForgets(t, Prune(t, x), hs)
  {
    PruneShape(t, x);
    HoldersNone(hs, x);
    forall k ensures
      var t' := Prune(t, x); Slot(t', k) == Slot(t, k) || (Slot(t', k) == None && forall h :: h in hs ==> !(k <= h))
    {
      PruneSlot(t, x, k);
      forall h | h in hs && k <= h && Owns(t, x, k) ensures false {
        var p := PathCached(t, h, k);
        OwnerUnique(t, p, x, k);
      }
    }
  }

  lemma {:induction false} ForgetsTwice(t: Tree, t1: Tree, t2: Tree, hs: seq<Key>)
    requires Shape(t) && Shape(t1) && Shape(t2) && OnlyForgets(t, t1, hs) && OnlyForgets(t1, t2, hs)
    ensures OnlyForgets(t, t2, hs)
  {
    hide Shape, Slot;
  }

  lemma {:induction false} PruneStored(t: Tree, x: Key, y: int)
    requires CanPrune(t, x)
    ensures Stored(Prune(t, x), y) + multiset(t[x].value)[y] == Stored(t, y)
  {
    PruneWeight(t, x, Keeps(y));
  }

  /** Nodes may be gone, but those left have the values they had. */
  ghost predicate Remains(t: Tree, t': Tree) {
    t'.Keys <= t.Keys && forall p :: p in t' ==> t'[p].value == t[p].value
  }

  /** Every slot that leaves the tree is freed, once for each time it was stored. */
  ghost predicate Conserved(t: Tree, freed: seq<int>, t': Tree, freed': seq<int>) {
    forall x :: Stored(t', x) + multiset(freed')[x] == Stored(t, x) + multiset(freed)[x]
  }

  lemma {:induction false} PruneFrees(t: Tree, x: Key, freed: seq<int>)
    requires CanPrune(t, x)
    ensures Conserved(t, freed, Prune(t, x), freed + t[x].value)
  {
    forall y { PruneStored(t, x, y); }
    hide Stored;
  }

  lemma {:induction false} ConservedTwice(t: Tree, f: seq<int>, t1: Tree, f1: seq<int>, t2: Tree, f2: seq<int>)
    requires Conserved(t, f, t1, f1) && Conserved(t1, f1, t2, f2)
    ensures Conserved(t, f, t2, f2)
  {
    hide Stored;
  }

  lemma {:induction false} ForgetsNothing(t: Tree, hs: seq<Key>, freed: seq<int>)
    requires Shape(t)
    ensures OnlyForgets(t, t, hs) && Conserved(t, freed, t, freed)
  {
  }

  /** An evictable leaf can be deleted, and its parent is not itself a leaf yet. */
  lemma {:induction false} LeafFacts(t: Tree, hs: seq<Key>, x: Key)
    requires Shape(t) && Locks(t, hs) && x in Leaves(t)
    ensures CanPrune(t, x) && t[x].lock == 0 && t[x].parent !in Leaves(t)
    ensures t[t[x].parent].lock >= 0
  {
    assert Linked(t, x);
  }

  lemma {:induction false} LeavesPut(t: Tree, p: Key, n: Node)
    ensures Leaves(t[p := n]) == if n.lock <= 0 && n.children == map[] then Leaves(t) + {p} else Leaves(t) - {p}
  {
  }

  lemma {:induction false} GrowStored(t: Tree, r: Key, k: Key, value: seq<int>, y: int)
    requires CanGrow(t, r, k, value)
    ensures Stored(Grow(t, r, k, value), y) == Stored(t, y) + multiset(value)[y]
  {
    GrowFresh(t, r, k, value, k);
    GrowWeight(t, r, k, value, Keeps(y));
  }

  lemma {:induction false} EmptyConsistent()
    ensures Consistent(EmptyTree, 0, 0, {}, [])
    ensures forall k :: Slot(EmptyTree, k) == None
    ensures forall x :: Stored(EmptyTree, x) == 0
  {
    var t := EmptyTree;
    TotalZero(t.Keys, t, Free);
    TotalZero(t.Keys, t, Held);
    forall x ensures Stored(t, x) == 0 { TotalZero(t.Keys, t, Keeps(x)); }
    assert Leaves(t) == {};
    forall k ensures Slot(t, k) == None { SlotNone(t, k); }
  }

  /** `RadixKey.match`: how many leading units two keys share. */
  method CommonLength(a: Key, b: Key) returns (n: nat)
    ensures n <= |a| && n <= |b| && a[..n] == b[..n]
    ensures n < |a| && n < |b| ==> a[n] != b[n]
  {
    n := 0;
    while n < |a| && n < |b| && a[n] == b[n]
      invariant n <= |a| && n <= |b| && a[..n] == b[..n]
    {
      assert a[..n + 1] == a[..n] + [a[n]] && b[..n + 1] == b[..n] + [b[n]];
      n := n + 1;
    }
  }

  /** The slots along a walk down the tree. */
  ghost predicate ReadOff(t: Tree, key: Key, value: seq<int>)
    requires Shape(t)
  {
    |value| <= |key| && forall i :: 0 <= i < |value| ==> Slot(t, key[..i + 1]) == Some(value[i])
  }

  /** Going down one edge reads its slots. */
  lemma {:induction false} ReadEdge(t: Tree, key: Key, value: seq<int>, c: Key)
    requires Shape(t) && ReadOff(t, key, value)
    requires c in t && c != [] && c <= key && |t[c].parent| == |value|
    ensures ReadOff(t, key, value + t[c].value) && |value + t[c].value| == |c|
  {
    assert Linked(t, c);
    var v := value + t[c].value;
    forall i | 0 <= i < |v| ensures Slot(t, key[..i + 1]) == Some(v[i]) {
      if |value| <= i {
        assert key[..i + 1] == c[..i + 1];
        SlotAt(t, c, key[..i + 1]);
      }
    }
  }

  /** Exactly the first `n` units of `key` are cached. */
  ghost predicate LongestCached(t: Tree, key: Key, n: nat)
    requires Shape(t)
  {
    n <= |key| && forall i :: 0 <= i <= |key| ==> (Slot(t, key[..i]).Some? <==> 0 < i <= n)
  }

  lemma {:induction false} DeepestLongest(t: Tree, n: Key, key: Key)
    requires Shape(t) && Deepest(t, n, key)
    ensures LongestCached(t, key, |n|)
  {
    forall i | 0 <= i <= |key| { DeepestIsLongest(t, n, key, i); }
  }

  /** Inserting `key` caches its missing prefixes with their slots and changes nothing else. */
  ghost predicate Inserted(t: Tree, t': Tree, key: Key, n: nat, value: seq<int>)
    requires Shape(t) && Shape(t') && |key| <= |value|
  {
    && key in t' && t.Keys <= t'.Keys
    && (forall k :: Slot(t', k) == if n < |k| && k <= key then Some(value[|k| - 1]) else Slot(t, k))
    && (n <= |key| ==> forall x :: Stored(t', x) == Stored(t, x) + multiset(value[n..|key|])[x])
  }

  lemma {:induction false} GrowInserts(t: Tree, t1: Tree, r: Key, key: Key, value: seq<int>)
    requires Shape(t) && Shape(t1) && SameMeaning(t, t1) && |key| <= |value|
    requires r < key && CanGrow(t1, r, key, value[|r|..|key|])
    ensures Shape(Grow(t1, r, key, value[|r|..|key|]))
    ensures Inserted(t, Grow(t1, r, key, value[|r|..|key|]), key, |r|, value)
  {
    var v := value[|r|..|key|];
    GrowShape(t1, r, key, v);
    var t' := Grow(t1, r, key, v);
    forall k ensures Slot(t', k) == if |r| < |k| && k <= key then Some(value[|k| - 1]) else Slot(t, k) {
      GrowSlot(t1, r, key, v, k);
      if |r| < |k| && k <= key { assert r == key[..|r|] == k[..|r|]; }
    }
    forall x ensures Stored(t', x) == Stored(t, x) + multiset(v)[x] { GrowStored(t1, r, key, v, x); }
  }

  lemma {:induction false} PresentInserts(t: Tree, t1: Tree, key: Key, value: seq<int>)
    requires Shape(t) && Shape(t1) && SameMeaning(t, t1) && |key| <= |value| && key in t1
    ensures Inserted(t, t1, key, |key|, value)
  {
    hide Shape, Slot, Stored;
    assert value[|key|..|key|] == [];
  }

  /** Where a walk leaves an edge half way, the split exposes a node that ends it. */
  lemma {:induction false} SplitDeepest(t: Tree, c: Key, n: nat, key: Key)
    requires CanSplit(t, c, n)
    requires var m := |t[c].parent| + n; m <= |key| && key[..m] == c[..m] && (m < |key| ==> key[m] != c[m])
    ensures Linked(t, c) && Deepest(Split(t, c, n), c[..|t[c].parent| + n], key)
  {
    SplitFacts(t, c, n);
  }

  /** What `node` lists under the next unit of `key`. */
  lemma {:induction false} NextChild(t: Tree, node: Key, key: Key)
    requires Shape(t) && node in t && node < key && key[|node|] in t[node].children
    ensures var c := t[node].children[key[|node|]];
      c in t && c != [] && t[c].parent == node && node < c && c[|node|] == key[|node|]
  {
    assert Lists(t, node, key[|node|]);
  }

  lemma {:induction false} SharesMore(node: Key, c: Key, key: Key, n: nat)
    requires node < c && node < key && c[|node|] == key[|node|]
    requires n <= |c| && n <= |key| && c[..n] == key[..n] && (n < |c| && n < |key| ==> c[n] != key[n])
    ensures |node| < n && node < c[..n] && c[..n] <= key
  {
    assert forall i :: 0 <= i < |node| ==> c[i] == node[i] == key[i];
    assert node == c[..n][..|node|];
  }

  lemma {:induction false} SameTwice(t: Tree, t1: Tree, t2: Tree)
    requires Shape(t) && Shape(t1) && Shape(t2)
    requires SameMeaning(t, t1) && SameMeaning(t1, t2)
    ensures SameMeaning(t, t2)
  {
    hide Shape, Slot, Stored;
  }

  lemma {:induction false} ReadMoves(t: Tree, t': Tree, key: Key, value: seq<int>)
    requires Shape(t) && Shape(t') && SameMeaning(t, t')
    ensures ReadOff(t, key, value) <==> ReadOff(t', key, value)
    ensures forall n: nat :: LongestCached(t, key, n) <==> LongestCached(t', key, n)
  {
    hide Shape, Slot;
  }

  lemma {:induction false} RootReads(t: Tree, key: Key)
    requires Shape(t)
    ensures [] in t && ReadOff(t, key, []) && SameMeaning(t, t)
  {
  }

  lemma {:induction false} SplitParent(t: Tree, c: Key, n: nat)
    requires CanSplit(t, c, n)
    ensures Linked(t, c)
    ensures Split(t, c, n)[c[..|t[c].parent| + n]].parent == t[c].parent
  {
    SplitFacts(t, c, n);
  }

  /** One outstanding lock on `h` is given back. */
  ghost predicate Released(hs: seq<Key>, h: Key, hs': seq<Key>) {
    exists i :: 0 <= i < |hs| && hs[i] == h && hs' == hs[..i] + hs[i + 1..]
  }

  lemma {:induction false} GiveBack(t: Tree, hs: seq<Key>, h: Key) returns (rest: seq<Key>)
    requires Locks(t, hs) && h in hs
    ensures h in t && Released(hs, h, rest) && Locks(Lifted(t, h, 0, -1), rest)
  {
    var i :| 0 <= i < |hs| && hs[i] == h;
    rest := hs[..i] + hs[i + 1..];
    DropLocks(t, hs, i);
  }

  lemma {:induction false} LiftNone(t: Tree, h: Key, d: int)
    ensures Lifted(t, h, |h|, d) == t
  {
  }

  lemma {:induction false} LiftSame(t: Tree, h: Key, d: int)
    requires Shape(t)
    ensures Shape(Lifted(t, h, 0, d)) && SameMeaning(t, Lifted(t, h, 0, d))
  {
    var t' := Lifted(t, h, 0, d);
    assert SameButLocks(t, t');
    hide Shape, Slot, Lifted, SameButLocks, Stored;
    LockShape(t, t');
    forall k { LockSlot(t, t', k); }
    forall x { LockStored(t, t', x); }
    assert t.Keys == t'.Keys by { LockKeys(t, t'); }
  }

  lemma {:induction false} LockKeys(t: Tree, t': Tree)
    requires SameButLocks(t, t')
    ensures t.Keys == t'.Keys
  {
  }

  lemma {:induction false} LockStored(t: Tree, t': Tree, x: int)
    requires SameButLocks(t, t')
    ensures Stored(t', x) == Stored(t, x)
  {
    TotalAgree(t.Keys, t, t', Keeps(x));
  }

  lemma {:induction false} LockCount(t: Tree, hs: seq<Key>, p: Key)
    requires Locks(t, hs) && p in t
    ensures t[p].lock >= 0
  {
  }

  lemma {:induction false} LockHeld(t: Tree, hs: seq<Key>, h: Key, p: Key)
    requires Locks(t, hs) && p in t && h in hs && p <= h && p != []
    ensures t[p].lock >= 1
  {
    HoldersNone(hs, p);
  }

  class RadixCache {
    var nodes: Tree
    var evictableSize: int
    var protectedSize: int
    var evictableLeaves: set<Key>
    var freed: seq<int>
    ghost var holders: seq<Key>

    ghost predicate Valid()
      reads this
    {
      Consistent(nodes, evictableSize, protectedSize, evictableLeaves, holders)
    }

    /** `reset`. */
    constructor ()
      ensures Valid() && freed == [] && holders == []
      ensures forall k :: Slot(nodes, k) == None
    {
      nodes, evictableSize, protectedSize, evictableLeaves, freed, holders := EmptyTree, 0, 0, {}, [], [];
      EmptyConsistent();
    }

    /** `_update_leaf_status`. */
    method UpdateLeafStatus(p: Key)
      requires p in nodes
      modifies `evictableLeaves
      ensures evictableLeaves == if nodes[p].lock <= 0 && nodes[p].children == map[]
        then old(evictableLeaves) + {p} else old(evictableLeaves) - {p}
    {
      if nodes[p].lock > 0 || nodes[p].children != map[] {
        evictableLeaves := evictableLeaves - {p};
      } else {
        evictableLeaves := evictableLeaves + {p};
      }
    }

    /** `_split_node`. */
    method SplitNode(child: Key, n: nat) returns (m: Key)
      requires Valid() && CanSplit(nodes, child, n)
      modifies `nodes
      ensures Valid() && Linked(old(nodes), child) && m == child[..|old(nodes)[child].parent| + n]
      ensures nodes == Split(old(nodes), child, n)
      ensures SameMeaning(old(nodes), nodes)
    {
      SplitFacts(nodes, child, n);
      SplitSame(nodes, child, n);
      SplitConsistent(nodes, child, n, evictableSize, protectedSize, evictableLeaves, holders);
      hide Consistent, Shape, SameMeaning;
      var r := nodes[child].parent;
      var node := nodes[child];
      m := child[..|r| + n];
      var upper := Node(r, map[child[|m|] := child], node.value[..n], node.lock);
      var lower := Node(m, node.children, node.value[n..], node.lock);
      nodes := nodes[m := upper];
      nodes := nodes[child := lower];
      nodes := nodes[r := nodes[r].(children := nodes[r].children[child[|r|] := m])];
    }

    /** One step down along `key`: the child's whole edge, or the part of it that matches, which
        becomes a node of its own and ends the walk. */
    method Descend(node: Key, key: Key) returns (next: Key, whole: bool)
      requires Valid() && node in nodes && node < key && key[|node|] in nodes[node].children
      modifies `nodes
      ensures Valid() && next in nodes && node < next && next <= key && nodes[next].parent == node
      ensures whole ==> nodes == old(nodes)
      ensures !whole ==> Deepest(nodes, next, key)
      ensures SameMeaning(old(nodes), nodes)
    {
      hide Shape, Slot, Weight, Locks, Leaves, Split, SameMeaning, Deepest;
      NextChild(nodes, node, key);
      var child := nodes[node].children[key[|node|]];
      var prefix := CommonLength(child, key);
      SharesMore(node, child, key, prefix);
      whole := prefix == |child|;
      if whole {
        next := child;
        RootReads(nodes, key);
      } else {
        SplitDeepest(nodes, child, prefix - |node|, key);
        SplitParent(nodes, child, prefix - |node|);
        next := SplitNode(child, prefix - |node|);
      }
    }

    /** `match_prefix`: the slots of the longest cached prefix, and the node it ends in. */
    method MatchPrefix(key: Key) returns (value: seq<int>, last: Key)
      requires Valid()
      modifies `nodes
      ensures Valid() && last in nodes && |value| <= |key| && last == key[..|value|]
      ensures ReadOff(old(nodes), key, value)
      ensures LongestCached(old(nodes), key, |value|)
      ensures SameMeaning(old(nodes), nodes)
    {
      hide Shape, Slot, Weight, Locks, Leaves, ReadOff, SameMeaning, LongestCached;
      RootReads(nodes, key);
      last, value := [], [];
      while last < key && key[|last|] in nodes[last].children
        invariant Valid() && last in nodes && last <= key && |value| == |last|
        invariant ReadOff(nodes, key, value) && SameMeaning(old(nodes), nodes)
        decreases |key| - |last|
      {
        ghost var before := nodes;
        var whole;
        last, whole := Descend(last, key);
        SameTwice(old(nodes), before, nodes);
        ReadMoves(before, nodes, key, value);
        ReadEdge(nodes, key, value, last);
        value := value + nodes[last].value;
        if !whole { break; }
      }
      DeepestLongest(nodes, last, key);
      ReadMoves(old(nodes), nodes, key, value);
    }

    /** `insert`: how much of the key was already there. */
    method Insert(key: Key, value: seq<int>) returns (prefixLen: nat)
      requires Valid() && |key| <= |value|
      modifies `nodes, `evictableSize, `evictableLeaves
      ensures Valid() && LongestCached(old(nodes), key, prefixLen) && prefixLen <= |key|
      ensures Inserted(old(nodes), nodes, key, prefixLen, value)
      ensures evictableSize == old(evictableSize) + |key| - prefixLen
    {
      hide Shape, Slot, Weight, Locks, Leaves, ReadOff, SameMeaning, LongestCached, Inserted;
      RootReads(nodes, key);
      var node := [];
      while node < key && key[|node|] in nodes[node].children
        invariant Valid() && node in nodes && node <= key && SameMeaning(old(nodes), nodes)
        invariant evictableSize == old(evictableSize)
        decreases |key| - |node|
      {
        ghost var before := nodes;
        var whole;
        node, whole := Descend(node, key);
        SameTwice(old(nodes), before, nodes);
      }
      prefixLen := |node|;
      DeepestLongest(nodes, node, key);
      ReadMoves(old(nodes), nodes, key, []);
      label Walked:
      if node < key {
        AddLeaf(node, key, value[|node|..|key|]);
        GrowInserts(old(nodes), old@Walked(nodes), node, key, value);
      } else {
        PresentInserts(old(nodes), nodes, key, value);
      }
    }

    /** The new node of `_insert_helper`. */
    method AddLeaf(node: Key, key: Key, value: seq<int>)
      requires Valid() && CanGrow(nodes, node, key, value)
      modifies `nodes, `evictableSize, `evictableLeaves
      ensures Valid() && nodes == Grow(old(nodes), node, key, value)
      ensures evictableSize == old(evictableSize) + |value|
    {
      GrowFresh(nodes, node, key, value, key);
      GrowConsistent(nodes, node, key, value, evictableSize, protectedSize, evictableLeaves, holders);
      hide Shape, Weight, Locks;
      nodes := nodes[key := Node(node, map[], value, 0)];
      nodes := nodes[node := nodes[node].(children := nodes[node].children[key[|node|] := key])];
      evictableSize := evictableSize + |value|;
      assert key[|node|] in nodes[node].children;
      UpdateLeafStatus(node);
      UpdateLeafStatus(key);
    }

    /** `_delete_leaf`. */
    method DeleteLeaf(x: Key)
      requires Valid() && x in evictableLeaves
      modifies `nodes, `evictableSize, `evictableLeaves
      ensures Valid() && CanPrune(old(nodes), x) && nodes == Prune(old(nodes), x)
      ensures evictableSize == old(evictableSize) - |old(nodes)[x].value|
    {
      assert Linked(nodes, x);
      PruneConsistent(nodes, x, evictableSize, protectedSize, evictableLeaves, holders);
      hide Shape, Weight, Locks;
      var r := nodes[x].parent;
      evictableSize := evictableSize - |nodes[x].value|;
      nodes := (nodes - {x})[r := nodes[r].(children := nodes[r].children - {x[|r|]})];
      evictableLeaves := evictableLeaves - {x};
      UpdateLeafStatus(r);
    }

    /** One round of `evict`: free the slots of `x`, delete it, and queue its parent if that is now
        a leaf nobody holds. */
    method EvictLeaf(heap: set<Key>, x: Key) returns (rest: set<Key>, size: nat)
      requires Valid() && heap == evictableLeaves && x in heap
      modifies `nodes, `evictableSize, `evictableLeaves, `freed
      ensures Valid() && rest == evictableLeaves && OnlyForgets(old(nodes), nodes, holders)
      ensures Conserved(old(nodes), old(freed), nodes, freed)
      ensures old(freed) <= freed && |freed| == |old(freed)| + size
      ensures evictableSize == old(evictableSize) - size
      ensures Remains(old(nodes), nodes) && |nodes| < |old(nodes)|
      ensures x in old(nodes) && x !in nodes && size == |old(nodes)[x].value|
    {
      ghost var before := nodes;
      LeafFacts(nodes, holders, x);
      PruneLeaves(nodes, x);
      var node := nodes[x];
      size := |node.value|;
      freed := freed + node.value;
      PruneFrees(nodes, x, old(freed));
      PruneForgets(nodes, x, holders);
      hide Shape, Slot, Weight, Locks, Stored, OnlyForgets, Conserved;
      DeleteLeaf(x);
      assert |nodes| < |before| by { assert nodes.Keys == before.Keys - {x}; }
      rest := heap - {x};
      if nodes[node.parent].children == map[] && nodes[node.parent].lock == 0 {
        rest := rest + {node.parent};
      }
    }

    /** `evict`: delete childless nodes nobody holds, in whatever order the strategy's heap yields
        them, until `wanted` units are gone or none is left. */
    method Evict(wanted: int) returns (evicted: nat)
      requires Valid()
      modifies `nodes, `evictableSize, `evictableLeaves, `freed
      ensures Valid() && OnlyForgets(old(nodes), nodes, holders)
      ensures Conserved(old(nodes), old(freed), nodes, freed)
      ensures |freed| == |old(freed)| + evicted && old(freed) <= freed
      ensures evictableSize == old(evictableSize) - evicted
      ensures wanted <= evicted || evictableSize == 0
      ensures nodes == old(nodes) || exists x ::
        x in old(nodes) && x !in nodes && evicted - |old(nodes)[x].value| < wanted
    {
      hide Shape, Slot, Weight, Locks, Leaves, Stored, OnlyForgets, Conserved;
      ForgetsNothing(nodes, holders, freed);
      evicted := 0;
      var heap := evictableLeaves;
      while evicted < wanted && heap != {}
        invariant Valid() && heap == evictableLeaves && OnlyForgets(old(nodes), nodes, holders)
        invariant Conserved(old(nodes), old(freed), nodes, freed)
        invariant |freed| == |old(freed)| + evicted && old(freed) <= freed
        invariant evictableSize == old(evictableSize) - evicted && Remains(old(nodes), nodes)
        invariant nodes == old(nodes) || exists x ::
          x in old(nodes) && x !in nodes && evicted - |old(nodes)[x].value| < wanted
        decreases |nodes|
      {
        ghost var before, given := nodes, freed;
        var x :| x in heap;
        var size;
        heap, size := EvictLeaf(heap, x);
        evicted := evicted + size;
        ForgetsTwice(old(nodes), before, nodes, holders);
        ConservedTwice(old(nodes), old(freed), before, given, nodes, freed);
      }
      if heap == {} {
        NoLeavesNothingFree(nodes, evictableSize, protectedSize, evictableLeaves, holders);
      }
    }

    ghost predicate Counted()
      reads this
    {
      evictableSize == Weight(nodes, Free) && protectedSize == Weight(nodes, Held) && evictableLeaves == Leaves(nodes)
    }

    /** One round of `inc_lock_ref`. */
    method LockOne(p: Key) returns (delta: int)
      requires Counted() && p in nodes && nodes[p].lock >= 0
      modifies `nodes, `evictableSize, `protectedSize, `evictableLeaves
      ensures Counted() && nodes == old(nodes)[p := old(nodes)[p].(lock := old(nodes)[p].lock + 1)]
      ensures evictableSize == old(evictableSize) + delta && protectedSize == old(protectedSize) - delta
    {
      hide Weight;
      var node := nodes[p];
      WeightPut(nodes, p, node.(lock := node.lock + 1), Free);
      WeightPut(nodes, p, node.(lock := node.lock + 1), Held);
      delta := 0;
      if node.lock == 0 {
        evictableSize := evictableSize - |node.value|;
        protectedSize := protectedSize + |node.value|;
        delta := -|node.value|;
      }
      nodes := nodes[p := node.(lock := node.lock + 1)];
      LeavesPut(old(nodes), p, nodes[p]);
      hide Leaves;
      UpdateLeafStatus(p);
    }

    /** One round of `dec_lock_ref`; it keeps the sizes right exactly if the node was locked. */
    method UnlockOne(p: Key) returns (delta: int)
      requires p in nodes && evictableLeaves == Leaves(nodes)
      modifies `nodes, `evictableSize, `protectedSize, `evictableLeaves
      ensures nodes == old(nodes)[p := old(nodes)[p].(lock := old(nodes)[p].lock - 1)] &&
        evictableLeaves == Leaves(nodes)
      ensures evictableSize == old(evictableSize) + delta && protectedSize == old(protectedSize) - delta
      ensures old(Counted()) ==> (Counted() <==> old(nodes)[p].lock != 0 || old(nodes)[p].value == [])
    {
      hide Weight;
      var node := nodes[p];
      WeightPut(nodes, p, node.(lock := node.lock - 1), Free);
      WeightPut(nodes, p, node.(lock := node.lock - 1), Held);
      delta := 0;
      if node.lock == 1 {
        evictableSize := evictableSize + |node.value|;
        protectedSize := protectedSize - |node.value|;
        delta := |node.value|;
      }
      nodes := nodes[p := node.(lock := node.lock - 1)];
      LeavesPut(old(nodes), p, nodes[p]);
      hide Leaves;
      UpdateLeafStatus(p);
    }

    /** `inc_lock_ref`: from node `h` up to the root. */
    method IncLockRef(h: Key) returns (delta: int)
      requires Valid() && h in nodes
      modifies `nodes, `evictableSize, `protectedSize, `evictableLeaves, `holders
      ensures Valid() && holders == [h] + old(holders) && SameMeaning(old(nodes), nodes)
      ensures nodes == Lifted(old(nodes), h, 0, 1)
      ensures evictableSize == old(evictableSize) + delta && protectedSize == old(protectedSize) - delta
    {
      hide Shape, Locks, Leaves, Lifted, SameMeaning, Weight;
      ghost var t := nodes;
      LiftNone(t, h, 1);
      LiftSame(t, h, 1);
      LiftLocks(t, h, holders);
      holders := [h] + holders;
      delta := 0;
      var node := h;
      while node != []
        invariant node in t && node <= h && Counted() && nodes == Lifted(t, h, |node|, 1)
        invariant evictableSize == old(evictableSize) + delta && protectedSize == old(protectedSize) - delta
        invariant holders == [h] + old(holders)
        decreases |node|
      {
        LiftStep(t, h, node, 1);
        LockCount(t, old(holders), node);
        var parent, d := nodes[node].parent, 0;
        d := LockOne(node);
        delta := delta + d;
        node := parent;
      }
    }

    /** `dec_lock_ref`: the bookkeeping stays right if and only if a lock on `h` is outstanding (or `h`
        is the root, on which the call does nothing). */
    method DecLockRef(h: Key) returns (delta: int)
      requires Valid() && h in nodes
      modifies `nodes, `evictableSize, `protectedSize, `evictableLeaves, `holders
      ensures nodes == Lifted(old(nodes), h, 0, -1)
      ensures Shape(nodes) && SameMeaning(old(nodes), nodes) && evictableLeaves == Leaves(nodes)
      ensures evictableSize == old(evictableSize) + delta && protectedSize == old(protectedSize) - delta
      ensures (exists hs :: Locks(nodes, hs)) <==> h == [] || h in old(holders)
      ensures if h in old(holders) then Valid() && Released(old(holders), h, holders) else holders == old(holders)
    {
      hide Shape, Locks, Leaves, Lifted, SameMeaning, Weight, Released;
      ghost var t, hs := nodes, holders;
      LiftNone(t, h, -1);
      LiftSame(t, h, -1);
      UnlockExplained(t, hs, h);
      if h in hs {
        ghost var rest := GiveBack(t, hs, h);
        holders := rest;
      }
      ghost var left := holders;
      delta := 0;
      var node := h;
      while node != []
        invariant node in t && node <= h && nodes == Lifted(t, h, |node|, -1) && evictableLeaves == Leaves(nodes)
        invariant h in hs ==> Counted()
        invariant evictableSize == old(evictableSize) + delta && protectedSize == old(protectedSize) - delta
        invariant holders == left
        decreases |node|
      {
        LiftStep(t, h, node, -1);
        if h in hs { LockHeld(t, hs, h, node); }
        var parent, d := nodes[node].parent, 0;
        d := UnlockOne(node);
        delta := delta + d;
        node := parent;
      }
    }
  }
}
