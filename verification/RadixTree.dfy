/** python/sglang/srt/mem_cache/radix_cache.py: the prefix tree of the KV cache. A key is a
    sequence of units (a page of tokens, or of token pairs, tagged with its `extra_key`); a node
    is identified by its full path from the root, which splitting never changes. */
module RadixTree {
  import opened Prelude

  datatype Unit = Unit(extraKey: Option<string>, tokens: seq<int>)

  type Key = seq<Unit>

  /** `TreeNode`: `value` holds one KV slot for each unit of the edge from the parent. */
  datatype Node = Node(parent: Key, children: map<Unit, Key>, value: seq<int>, lock: int)

  type Tree = map<Key, Node>

  const EmptyTree: Tree := map[[] := Node([], map[], [], 1)]

  // ----- shape

  /** Node `p`'s parent is a node above it that lists it under its first unit. */
  ghost predicate Linked(t: Tree, p: Key)
    requires p in t
  {
    var r := t[p].parent;
    && r in t && r < p && |t[p].value| == |p| - |r|
    && p[|r|] in t[r].children && t[r].children[p[|r|]] == p
  }

  /** Everything node `r` lists under `u` is its child along `u`. */
  ghost predicate Lists(t: Tree, r: Key, u: Unit)
    requires r in t && u in t[r].children
  {
    var c := t[r].children[u];
    c in t && c != [] && t[c].parent == r && r < c && c[|r|] == u
  }

  ghost predicate Shape(t: Tree) {
    && [] in t && t[[]].value == []
    && (forall p {:trigger Linked(t, p)} :: p in t && p != [] ==> Linked(t, p))
    && (forall r, u {:trigger Lists(t, r, u)} :: r in t && u in t[r].children ==> Lists(t, r, u))
  }

  /** A node below another is reached through the child along its next unit. */
  lemma {:induction false} ChildOnPath(t: Tree, r: Key, q: Key)
    requires Shape(t) && r in t && q in t && r < q
    ensures q[|r|] in t[r].children && t[r].children[q[|r|]] <= q
    decreases |q|
  {
    assert Linked(t, q);
    var p := t[q].parent;
    if |r| < |p| {
      assert r == q[..|r|] && p == q[..|p|];
      ChildOnPath(t, r, p);
    } else if |p| < |r| {
      assert r == q[..|r|] && p == q[..|p|];
      ChildOnPath(t, p, r);
      assert false;
    } else {
      assert r == q[..|r|] && p == q[..|p|];
    }
  }

  /** No node lies strictly inside an edge. */
  lemma {:induction false} EdgeEmpty(t: Tree, q: Key, m: Key)
    requires Shape(t) && q in t && q != [] && m in t && t[q].parent < m && m <= q
    ensures m == q
  {
    assert Linked(t, q);
    ChildOnPath(t, t[q].parent, m);
    assert m[|t[q].parent|] == q[|t[q].parent|];
  }

  // ----- meaning

  /** The last unit of `k` lies on the edge into node `p`. */
  ghost predicate Owns(t: Tree, p: Key, k: Key) {
    p in t && p != [] && k <= p && |t[p].parent| < |k|
  }

  lemma {:induction false} OwnerUnique(t: Tree, p: Key, q: Key, k: Key)
    requires Shape(t) && Owns(t, p, k) && Owns(t, q, k)
    ensures p == q
  {
    assert Linked(t, p) && Linked(t, q);
    var r, s := t[p].parent, t[q].parent;
    assert r == k[..|r|] && s == k[..|s|];
    if |r| < |s| {
      assert s == p[..|s|];
      EdgeEmpty(t, p, s);
    } else if |s| < |r| {
      assert r == q[..|r|];
      EdgeEmpty(t, q, r);
    } else {
      assert p[|r|] == k[|r|] == q[|r|];
    }
  }

  /** The KV slot stored for the last unit of the prefix `k`, if that prefix is cached. */
  ghost function Slot(t: Tree, k: Key): Option<int>
    requires Shape(t)
  {
    if p :| Owns(t, p, k) then
      assert Linked(t, p);
      Some(t[p].value[|k| - |t[p].parent| - 1])
    else None
  }

  lemma {:induction false} SlotAt(t: Tree, p: Key, k: Key)
    requires Shape(t) && Owns(t, p, k)
    ensures |t[p].value| == |p| - |t[p].parent|
    ensures Slot(t, k) == Some(t[p].value[|k| - |t[p].parent| - 1])
  {
    assert Linked(t, p);
    forall q | Owns(t, q, k) ensures q == p { OwnerUnique(t, p, q, k); }
  }

  lemma {:induction false} SlotNone(t: Tree, k: Key)
    requires Shape(t) && forall p :: !Owns(t, p, k)
    ensures Slot(t, k) == None
  {
  }

  /** Every non-empty prefix of a node's path is cached. */
  lemma {:induction false} PathCached(t: Tree, q: Key, k: Key) returns (p: Key)
    requires Shape(t) && q in t && k <= q && k != []
    ensures Owns(t, p, k) && p <= q
    decreases |q|
  {
    assert Linked(t, q);
    var r := t[q].parent;
    if |r| < |k| {
      p := q;
    } else {
      assert k == q[..|k|] && r == q[..|r|];
      p := PathCached(t, r, k);
    }
  }

  /** A prefix is cached exactly when some node's path extends it, so the cached prefixes are
      closed under taking prefixes. */
  lemma {:induction false} CachedExactly(t: Tree, k: Key)
    requires Shape(t)
    ensures Slot(t, k).Some? <==> k != [] && exists q :: q in t && k <= q
  {
    if k != [] {
      if q :| q in t && k <= q {
        var p := PathCached(t, q, k);
        SlotAt(t, p, k);
      }
    }
    if p :| Owns(t, p, k) { assert p in t && k <= p; }
  }

  // ----- splitting an edge

  /** `_split_node`: the first `n` units of the edge into `c` become a node of their own. */
  function Split(t: Tree, c: Key, n: nat): Tree
    requires c in t && t[c].parent in t && t[c].parent < c && n <= |t[c].value| && |t[c].parent| + n < |c|
  {
    var r := t[c].parent;
    var m := c[..|r| + n];
    t[m := Node(r, map[c[|m|] := c], t[c].value[..n], t[c].lock)]
     [c := Node(m, t[c].children, t[c].value[n..], t[c].lock)]
     [r := t[r].(children := t[r].children[c[|r|] := m])]
  }

  ghost predicate CanSplit(t: Tree, c: Key, n: nat) {
    Shape(t) && c in t && c != [] && 0 < n < |c| - |t[c].parent|
  }

  lemma {:induction false} SplitFacts(t: Tree, c: Key, n: nat)
    requires CanSplit(t, c, n)
    ensures Linked(t, c)
    ensures var r := t[c].parent; var m := c[..|r| + n];
      r < m && m < c && m !in t && m[|r|] == c[|r|] && r != c && m != r
  {
    assert Linked(t, c);
    var r := t[c].parent;
    var m := c[..|r| + n];
    assert r == c[..|r|] && r == m[..|r|];
    if m in t { EdgeEmpty(t, c, m); }
  }

  lemma {:induction false} SplitLinked(t: Tree, c: Key, n: nat, p: Key)
    requires CanSplit(t, c, n) && Linked(t, c) && p in Split(t, c, n) && p != []
    ensures Linked(Split(t, c, n), p)
  {
    SplitFacts(t, c, n);
    var r := t[c].parent;
    var m := c[..|r| + n];
    if p == c {
      assert t[r].children[c[|r|]] == c;
    } else if p != m {
      assert Linked(t, p);
      if t[p].parent == r { assert p[|r|] != c[|r|]; }
    }
  }

  lemma {:induction false} SplitLists(t: Tree, c: Key, n: nat, q: Key, u: Unit)
    requires CanSplit(t, c, n) && Linked(t, c)
    requires q in Split(t, c, n) && u in Split(t, c, n)[q].children
    ensures Lists(Split(t, c, n), q, u)
  {
    SplitFacts(t, c, n);
    var r := t[c].parent;
    var m := c[..|r| + n];
    if q != m && !(q == r && u == c[|r|]) {
      assert u in t[q].children;
      assert Lists(t, q, u);
      assert t[q].children[u] != c;
    }
  }

  lemma {:induction false} SplitShape(t: Tree, c: Key, n: nat)
    requires CanSplit(t, c, n)
    ensures Linked(t, c) && Shape(Split(t, c, n))
  {
    SplitFacts(t, c, n);
    var t' := Split(t, c, n);
    forall p | p in t' && p != [] ensures Linked(t', p) { SplitLinked(t, c, n, p); }
    forall q, u | q in t' && u in t'[q].children ensures Lists(t', q, u) { SplitLists(t, c, n, q, u); }
    assert t[[]].value == [];
  }

  /** Who owns a prefix after a split: the new node takes the upper part of the old edge. */
  lemma {:induction false} SplitOwner(t: Tree, c: Key, n: nat, p: Key, k: Key)
    requires CanSplit(t, c, n) && Linked(t, c)
    ensures var m := c[..|t[c].parent| + n];
      Owns(Split(t, c, n), p, k) <==>
        if p == m then Owns(t, c, k) && |k| <= |m| else Owns(t, p, k) && (p == c ==> |m| < |k|)
  {
    SplitFacts(t, c, n);
    var m := c[..|t[c].parent| + n];
    if k <= m { assert k == c[..|k|]; }
    if k <= c && |k| <= |m| { assert k == m[..|k|]; }
  }

  /** Splitting moves no slot: the tree means the same before and after. */
  lemma {:induction false} SplitSlot(t: Tree, c: Key, n: nat, k: Key)
    requires CanSplit(t, c, n)
    ensures Linked(t, c) && Shape(Split(t, c, n)) && Slot(Split(t, c, n), k) == Slot(t, k)
  {
    SplitFacts(t, c, n);
    SplitShape(t, c, n);
    var m := c[..|t[c].parent| + n];
    var t' := Split(t, c, n);
    forall p { SplitOwner(t, c, n, p, k); }
    hide Shape, Linked, Slot;
    if p :| Owns(t, p, k) {
      SlotAt(t, p, k);
      SlotAt(t', if p == c && |k| <= |m| then m else p, k);
    } else {
      SlotNone(t, k);
      SlotNone(t', k);
    }
  }

  // ----- adding a leaf

  /** `_insert_helper`: hang the rest of key `k` with its slots below node `r`. */
  function Grow(t: Tree, r: Key, k: Key, value: seq<int>): Tree
    requires r in t && r < k
  {
    t[k := Node(r, map[], value, 0)][r := t[r].(children := t[r].children[k[|r|] := k])]
  }

  ghost predicate CanGrow(t: Tree, r: Key, k: Key, value: seq<int>) {
    Shape(t) && r in t && r < k && k[|r|] !in t[r].children && |value| == |k| - |r|
  }

  /** Nothing at or below the new leaf's path is there yet. */
  lemma {:induction false} GrowFresh(t: Tree, r: Key, k: Key, value: seq<int>, j: Key)
    requires CanGrow(t, r, k, value) && r < j && j <= k
    ensures forall q :: q in t ==> !(j <= q)
  {
    forall q | q in t && j <= q ensures false {
      assert r == q[..|r|];
      ChildOnPath(t, r, q);
    }
  }

  lemma {:induction false} GrowShape(t: Tree, r: Key, k: Key, value: seq<int>)
    requires CanGrow(t, r, k, value)
    ensures k !in t && Shape(Grow(t, r, k, value))
  {
    GrowFresh(t, r, k, value, k);
    var t' := Grow(t, r, k, value);
    forall p | p in t' && p != [] ensures Linked(t', p) {
      if p != k { assert Linked(t, p); }
    }
    forall q, u | q in t' && u in t'[q].children ensures Lists(t', q, u) {
      if q != k && u in t[q].children { assert Lists(t, q, u); }
    }
    assert t[[]].value == [];
  }

  /** Exactly the prefixes of `k` beyond `r` become cached; every other slot is untouched. */
  lemma {:induction false} GrowSlot(t: Tree, r: Key, k: Key, value: seq<int>, j: Key)
    requires CanGrow(t, r, k, value)
    ensures Shape(Grow(t, r, k, value))
    ensures Slot(Grow(t, r, k, value), j) ==
      if r < j && j <= k then Some(value[|j| - |r| - 1]) else Slot(t, j)
  {
    GrowShape(t, r, k, value);
    var t' := Grow(t, r, k, value);
    hide Shape, Slot;
    if r < j && j <= k {
      SlotAt(t', k, j);
    } else if p :| Owns(t, p, j) {
      SlotAt(t, p, j);
      SlotAt(t', p, j);
    } else {
      SlotNone(t, j);
      assert forall p :: Owns(t', p, j) ==> Owns(t, p, j);
      SlotNone(t', j);
    }
  }

  // ----- deleting a leaf

  /** `_delete_leaf`. */
  function Prune(t: Tree, x: Key): Tree
    requires x in t && t[x].parent in t && t[x].parent < x
  {
    var r := t[x].parent;
    (t - {x})[r := t[r].(children := t[r].children - {x[|r|]})]
  }

  ghost predicate CanPrune(t: Tree, x: Key) {
    Shape(t) && x in t && x != [] && t[x].children == map[] && Linked(t, x)
  }

  lemma {:induction false} PruneShape(t: Tree, x: Key)
    requires CanPrune(t, x)
    ensures Shape(Prune(t, x))
  {
    var t' := Prune(t, x);
    forall p | p in t' && p != [] ensures Linked(t', p) {
      assert Linked(t, p);
      assert t[p].parent != x;
    }
    forall q, u | q in t' && u in t'[q].children ensures Lists(t', q, u) {
      assert u in t[q].children;
      assert Lists(t, q, u);
      assert t[q].children[u] != x;
    }
    assert t[[]].value == [];
  }

  /** Exactly the prefixes on the deleted edge are forgotten. */
  lemma {:induction false} PruneSlot(t: Tree, x: Key, j: Key)
    requires CanPrune(t, x)
    ensures Shape(Prune(t, x))
    ensures Slot(Prune(t, x), j) == if Owns(t, x, j) then None else Slot(t, j)
  {
    PruneShape(t, x);
    var t' := Prune(t, x);
    if Owns(t, x, j) {
      forall p ensures !Owns(t', p, j) {
        if Owns(t', p, j) {
          assert Owns(t, p, j);
          OwnerUnique(t, p, x, j);
        }
      }
      SlotNone(t', j);
    } else {
      PruneKeeps(t, x, j);
    }
  }

  lemma {:induction false} PruneKeeps(t: Tree, x: Key, j: Key)
    requires CanPrune(t, x) && Shape(Prune(t, x)) && !Owns(t, x, j)
    ensures Slot(Prune(t, x), j) == Slot(t, j)
  {
    var t' := Prune(t, x);
    hide Shape, Slot, Linked;
    if p :| Owns(t, p, j) {
      SlotAt(t, p, j);
      SlotAt(t', p, j);
    } else {
      SlotNone(t, j);
      assert forall p :: Owns(t', p, j) ==> Owns(t, p, j);
      SlotNone(t', j);
    }
  }

  // ----- locking

  /** The two trees differ in their lock counts only. */
  ghost predicate SameButLocks(t: Tree, t': Tree) {
    t.Keys == t'.Keys && forall p :: p in t ==> t'[p] == t[p].(lock := t'[p].lock)
  }

  lemma {:induction false} LockShape(t: Tree, t': Tree)
    requires Shape(t) && SameButLocks(t, t')
    ensures Shape(t')
  {
    forall p | p in t' && p != [] ensures Linked(t', p) { assert Linked(t, p); }
    forall q, u | q in t' && u in t'[q].children ensures Lists(t', q, u) { assert Lists(t, q, u); }
    assert t'[[]].value == t[[]].value;
  }

  lemma {:induction false} LockSlot(t: Tree, t': Tree, k: Key)
    requires Shape(t) && SameButLocks(t, t')
    ensures Shape(t') && Slot(t', k) == Slot(t, k)
  {
    LockShape(t, t');
    hide Shape, Slot;
    if p :| Owns(t, p, k) {
      SlotAt(t, p, k);
      SlotAt(t', p, k);
    } else {
      SlotNone(t, k);
      assert forall p :: Owns(t', p, k) ==> Owns(t, p, k);
      SlotNone(t', k);
    }
  }

  // ----- walking down

  /** The walk along `key` can go no further than node `n`. */
  ghost predicate Deepest(t: Tree, n: Key, key: Key) {
    n in t && n <= key && (n == key || key[|n|] !in t[n].children)
  }

  /** Where the walk stops is where the longest cached prefix of the key ends. */
  lemma {:induction false} DeepestIsLongest(t: Tree, n: Key, key: Key, i: nat)
    requires Shape(t) && Deepest(t, n, key) && i <= |key|
    ensures Slot(t, key[..i]).Some? <==> 0 < i <= |n|
  {
    CachedExactly(t, key[..i]);
    if i <= |n| {
      assert key[..i] == n[..i] <= n;
    } else {
      forall q | q in t && key[..i] <= q ensures false {
        assert n == key[..|n|] == q[..|n|];
        assert q[|n|] == key[..i][|n|] == key[|n|];
        ChildOnPath(t, n, q);
      }
    }
  }
}
