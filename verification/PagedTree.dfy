/** python/sglang/srt/mem_cache/radix_cache.py: the prefix tree as the code keeps it, with raw-token edges
    and child tables under `child_key`. It stands for a tree over units throughout: walking, splitting,
    adding and deleting on raw tokens are those operations on the unit tree. */
module PagedTree {
  import opened Prelude
  import opened RadixTree
  import opened RadixKeys
  import opened RadixCaching

  /** `parent`, `key` and `children` of a `TreeNode`; a node is named by its path in units. */
  datatype RawNode = RawNode(parent: Key, edge: RadixKey, children: map<ChildKey, Key>)

  type RawTree = map<Key, RawNode>

  // ----- what a raw tree stands for

  /** The edge into `p` holds, in whole pages, the units from its parent to `p`. */
  ghost predicate EdgeStands(t: Tree, raw: RawTree, page: nat, bigram: bool, p: Key)
    requires page >= 1 && p in t && p in raw
  {
    && raw[p].parent == t[p].parent && t[p].parent < p
    && raw[p].edge.bigram == bigram && Len(raw[p].edge) % page == 0
    && Units(raw[p].edge, page) == p[|t[p].parent|..]
  }

  /** Node `r` has `c` in its table under the child key of `c`'s edge. */
  ghost predicate Entered(raw: RawTree, page: nat, r: Key, c: Key)
    requires page >= 1
  {
    && r in raw && c in raw && Units(raw[c].edge, page) != []
    && var k := ChildKeyOf(raw[c].edge, page);
       k in raw[r].children && raw[r].children[k] == c
  }

  /** What node `r` has in its table under `k` is a child of it whose edge has that child key. */
  ghost predicate Tabled(raw: RawTree, page: nat, r: Key, k: ChildKey)
    requires page >= 1 && r in raw && k in raw[r].children
  {
    var c := raw[r].children[k];
    && c in raw && c != [] && raw[c].parent == r
    && Units(raw[c].edge, page) != [] && ChildKeyOf(raw[c].edge, page) == k
  }

  ghost predicate Stands(t: Tree, raw: RawTree, page: nat, bigram: bool) {
    && page >= 1 && Shape(t) && raw.Keys == t.Keys
    && (forall p {:trigger EdgeStands(t, raw, page, bigram, p)} :: p in t && p != [] ==>
         EdgeStands(t, raw, page, bigram, p))
    && (forall p {:trigger Entered(raw, page, t[p].parent, p)} :: p in t && p != [] ==>
         Entered(raw, page, t[p].parent, p))
    && (forall r, k {:trigger Tabled(raw, page, r, k)} :: r in raw && k in raw[r].children ==> Tabled(raw, page, r, k))
  }

  /** Looking a key up in a raw table finds what the unit table lists under the key's first unit. */
  lemma {:induction false} LookUp(t: Tree, raw: RawTree, page: nat, bigram: bool, r: Key, b: RadixKey)
    requires Stands(t, raw, page, bigram) && r in t && b.bigram == bigram && Units(b, page) != []
    ensures var k, u := ChildKeyOf(b, page), Units(b, page)[0];
      && (k in raw[r].children <==> u in t[r].children)
      && (k in raw[r].children ==> raw[r].children[k] == t[r].children[u])
  {
    hide Units, ChildKeyOf, Len;
    var k, u := ChildKeyOf(b, page), Units(b, page)[0];
    if k in raw[r].children {
      assert Tabled(raw, page, r, k);
      var c := raw[r].children[k];
      assert EdgeStands(t, raw, page, bigram, c) && Linked(t, c);
      ChildKeyIsUnit(raw[c].edge, b, page);
    }
    if u in t[r].children {
      assert Lists(t, r, u);
      var c := t[r].children[u];
      assert EdgeStands(t, raw, page, bigram, c) && Entered(raw, page, t[c].parent, c);
      ChildKeyIsUnit(raw[c].edge, b, page);
    }
  }

  // ----- splitting

  /** `_split_node`. */
  function RawSplit(raw: RawTree, page: nat, c: Key, len: nat): RawTree
    requires page >= 1 && c in raw && raw[c].parent in raw && len <= Len(raw[c].edge) && Units(raw[c].edge, page) != []
    requires Units(Slice(raw[c].edge, len, Len(raw[c].edge)), page) != []
  {
    var node := raw[c];
    var upper, lower := Slice(node.edge, 0, len), Slice(node.edge, len, Len(node.edge));
    var m := node.parent + Units(upper, page);
    raw[m := RawNode(node.parent, upper, map[ChildKeyOf(lower, page) := c])]
       [c := RawNode(m, lower, node.children)]
       [node.parent := raw[node.parent].(children := raw[node.parent].children[ChildKeyOf(node.edge, page) := m])]
  }

  lemma {:induction false} CutEdge(t: Tree, raw: RawTree, page: nat, bigram: bool, c: Key, n: nat)
    requires Stands(t, raw, page, bigram) && CanSplit(t, c, n)
    ensures Linked(t, c) && c in raw && raw[c].parent == t[c].parent && page * n <= Len(raw[c].edge)
    ensures var a, r := raw[c].edge, t[c].parent;
      var upper, lower := Slice(a, 0, page * n), Slice(a, page * n, Len(a));
      && Units(a, page) == c[|r|..] && Units(upper, page) == c[|r|..|r| + n] && Units(lower, page) == c[|r| + n..]
      && Len(upper) % page == 0 && Len(lower) % page == 0 && upper.bigram == lower.bigram == bigram
      && r + Units(upper, page) == c[..|r| + n]
  {
    hide Units, Len, Slice;
    assert Linked(t, c) && EdgeStands(t, raw, page, bigram, c);
    var a, r := raw[c].edge, t[c].parent;
    SliceUnits(a, page, n);
    SliceLength(a, 0, page * n);
    SliceLength(a, page * n, Len(a));
    WholePages(Len(a), page, n);
    assert c[|r|..][..n] == c[|r|..|r| + n] && c[|r|..][n..] == c[|r| + n..];
    assert r == c[..|r|];
  }

  lemma {:induction false} SplitEdges(t: Tree, raw: RawTree, page: nat, bigram: bool, c: Key, n: nat, p: Key)
    requires Stands(t, raw, page, bigram) && CanSplit(t, c, n) && Linked(t, c) && p in Split(t, c, n) && p != []
    requires CutFor(raw, page, c, n)
    ensures var t', raw' := Split(t, c, n), RawSplit(raw, page, c, page * n);
      p in raw' && EdgeStands(t', raw', page, bigram, p) && Entered(raw', page, t'[p].parent, p)
  {
    hide Units, Len, Slice, ChildKeyOf;
    SplitFacts(t, c, n);
    CutEdge(t, raw, page, bigram, c, n);
    var r := t[c].parent;
    var m := c[..|r| + n];
    assert EdgeStands(t, raw, page, bigram, c) && Entered(raw, page, r, c);
    if p == m {
      ChildKeyIsUnit(Slice(raw[c].edge, 0, page * n), raw[c].edge, page);
    } else if p != c {
      assert EdgeStands(t, raw, page, bigram, p) && Entered(raw, page, t[p].parent, p);
    }
  }

  lemma {:induction false} SplitTables(t: Tree, raw: RawTree, page: nat, bigram: bool, c: Key, n: nat, q: Key,
                                       k: ChildKey)
    requires Stands(t, raw, page, bigram) && CanSplit(t, c, n) && CutFor(raw, page, c, n)
    requires var raw' := RawSplit(raw, page, c, page * n); q in raw' && k in raw'[q].children
    ensures Tabled(RawSplit(raw, page, c, page * n), page, q, k)
  {
    hide Units, Len, Slice, ChildKeyOf;
    SplitFacts(t, c, n);
    CutEdge(t, raw, page, bigram, c, n);
    var r := t[c].parent;
    var m := c[..|r| + n];
    assert EdgeStands(t, raw, page, bigram, c) && Entered(raw, page, r, c);
    if q == r && k == ChildKeyOf(raw[c].edge, page) {
      ChildKeyIsUnit(Slice(raw[c].edge, 0, page * n), raw[c].edge, page);
    } else if q != m {
      assert Tabled(raw, page, q, k);
    }
  }

  /** The cut lies inside the edge, so that `RawSplit` is defined. */
  ghost predicate CutFor(raw: RawTree, page: nat, c: Key, n: nat) {
    && page >= 1 && c in raw && raw[c].parent in raw && page * n <= Len(raw[c].edge) && Units(raw[c].edge, page) != []
    && Units(Slice(raw[c].edge, page * n, Len(raw[c].edge)), page) != []
  }

  /** Splitting an edge on raw tokens splits it in the unit tree. */
  lemma {:induction false} SplitStands(t: Tree, raw: RawTree, page: nat, bigram: bool, c: Key, n: nat)
    requires Stands(t, raw, page, bigram) && CanSplit(t, c, n)
    ensures Linked(t, c) && CutFor(raw, page, c, n)
    ensures Stands(Split(t, c, n), RawSplit(raw, page, c, page * n), page, bigram)
  {
    hide Units, Len, Slice, ChildKeyOf;
    SplitFacts(t, c, n);
    SplitShape(t, c, n);
    CutEdge(t, raw, page, bigram, c, n);
    assert CutFor(raw, page, c, n);
    var t', raw' := Split(t, c, n), RawSplit(raw, page, c, page * n);
    hide Shape;
    forall p | p in t' && p != [] ensures p in raw' && EdgeStands(t', raw', page, bigram, p) {
      SplitEdges(t, raw, page, bigram, c, n, p);
    }
    forall p | p in t' && p != [] ensures Entered(raw', page, t'[p].parent, p) {
      SplitEdges(t, raw, page, bigram, c, n, p);
    }
    forall q, k | q in raw' && k in raw'[q].children ensures Tabled(raw', page, q, k) {
      SplitTables(t, raw, page, bigram, c, n, q, k);
    }
  }

  // ----- adding and deleting a leaf

  /** The new node of `_insert_helper`. */
  function RawGrow(raw: RawTree, page: nat, r: Key, edge: RadixKey): RawTree
    requires page >= 1 && r in raw && Units(edge, page) != []
  {
    var k := r + Units(edge, page);
    raw[k := RawNode(r, edge, map[])][r := raw[r].(children := raw[r].children[ChildKeyOf(edge, page) := k])]
  }

  /** The leaf is new to node `r`, in whole pages. */
  ghost predicate GrowFor(t: Tree, raw: RawTree, page: nat, bigram: bool, r: Key, edge: RadixKey, value: seq<int>) {
    && Stands(t, raw, page, bigram) && edge.bigram == bigram && Len(edge) % page == 0 && Units(edge, page) != []
    && CanGrow(t, r, r + Units(edge, page), value)
  }

  lemma {:induction false} GrowEdges(t: Tree, raw: RawTree, page: nat, bigram: bool, r: Key, edge: RadixKey,
                                     value: seq<int>, p: Key)
    requires GrowFor(t, raw, page, bigram, r, edge, value) && p in Grow(t, r, r + Units(edge, page), value) && p != []
    ensures var t', raw' := Grow(t, r, r + Units(edge, page), value), RawGrow(raw, page, r, edge);
      p in raw' && EdgeStands(t', raw', page, bigram, p) && Entered(raw', page, t'[p].parent, p)
  {
    hide Units, Len, ChildKeyOf;
    var k := r + Units(edge, page);
    GrowFresh(t, r, k, value, k);
    if p != k {
      LookUp(t, raw, page, bigram, r, edge);
      assert EdgeStands(t, raw, page, bigram, p) && Entered(raw, page, t[p].parent, p);
    }
  }

  lemma {:induction false} GrowTables(t: Tree, raw: RawTree, page: nat, bigram: bool, r: Key, edge: RadixKey,
                                      value: seq<int>, q: Key, j: ChildKey)
    requires GrowFor(t, raw, page, bigram, r, edge, value)
    requires var raw' := RawGrow(raw, page, r, edge); q in raw' && j in raw'[q].children
    ensures Tabled(RawGrow(raw, page, r, edge), page, q, j)
  {
    hide Units, Len, ChildKeyOf;
    var k := r + Units(edge, page);
    GrowFresh(t, r, k, value, k);
    hide Shape;
    if q != k && !(q == r && j == ChildKeyOf(edge, page)) { assert Tabled(raw, page, q, j); }
  }

  /** Adding a leaf of raw tokens adds it to the unit tree. */
  lemma {:induction false} GrowStands(t: Tree, raw: RawTree, page: nat, bigram: bool, r: Key, edge: RadixKey,
                                      value: seq<int>)
    requires GrowFor(t, raw, page, bigram, r, edge, value)
    ensures Stands(Grow(t, r, r + Units(edge, page), value), RawGrow(raw, page, r, edge), page, bigram)
  {
    hide Units, Len, ChildKeyOf, EdgeStands, Entered, Tabled;
    var k := r + Units(edge, page);
    GrowShape(t, r, k, value);
    var t', raw' := Grow(t, r, k, value), RawGrow(raw, page, r, edge);
    hide Shape;
    forall p | p in t' && p != [] ensures p in raw' && EdgeStands(t', raw', page, bigram, p) {
      GrowEdges(t, raw, page, bigram, r, edge, value, p);
    }
    forall p | p in t' && p != [] ensures Entered(raw', page, t'[p].parent, p) {
      GrowEdges(t, raw, page, bigram, r, edge, value, p);
    }
    forall q, j | q in raw' && j in raw'[q].children ensures Tabled(raw', page, q, j) {
      GrowTables(t, raw, page, bigram, r, edge, value, q, j);
    }
  }

  /** `_delete_leaf`. */
  function RawPrune(raw: RawTree, page: nat, x: Key): RawTree
    requires page >= 1 && x in raw && raw[x].parent in raw && raw[x].parent != x && Units(raw[x].edge, page) != []
  {
    var r := raw[x].parent;
    (raw - {x})[r := raw[r].(children := raw[r].children - {ChildKeyOf(raw[x].edge, page)})]
  }

  ghost predicate PruneFor(raw: RawTree, page: nat, x: Key) {
    && page >= 1 && x in raw && raw[x].parent in raw && raw[x].parent != x
    && Units(raw[x].edge, page) != []
  }

  lemma {:induction false} PruneEdges(t: Tree, raw: RawTree, page: nat, bigram: bool, x: Key, p: Key)
    requires Stands(t, raw, page, bigram) && CanPrune(t, x) && PruneFor(raw, page, x) && p in Prune(t, x) && p != []
    ensures var t', raw' := Prune(t, x), RawPrune(raw, page, x);
      p in raw' && EdgeStands(t', raw', page, bigram, p) && Entered(raw', page, t'[p].parent, p)
  {
    hide Units, Len, ChildKeyOf;
    assert EdgeStands(t, raw, page, bigram, x) && Entered(raw, page, t[x].parent, x);
    assert EdgeStands(t, raw, page, bigram, p) && Entered(raw, page, t[p].parent, p);
    assert Linked(t, p);
  }

  lemma {:induction false} PruneTables(t: Tree, raw: RawTree, page: nat, bigram: bool, x: Key, q: Key, k: ChildKey)
    requires Stands(t, raw, page, bigram) && CanPrune(t, x) && PruneFor(raw, page, x)
    requires var raw' := RawPrune(raw, page, x); q in raw' && k in raw'[q].children
    ensures Tabled(RawPrune(raw, page, x), page, q, k)
  {
    hide Units, Len, ChildKeyOf, Shape;
    assert Tabled(raw, page, q, k);
  }

  /** Deleting a leaf of the raw tree deletes it in the unit tree. */
  lemma {:induction false} PruneStands(t: Tree, raw: RawTree, page: nat, bigram: bool, x: Key)
    requires Stands(t, raw, page, bigram) && CanPrune(t, x)
    ensures PruneFor(raw, page, x) && Stands(Prune(t, x), RawPrune(raw, page, x), page, bigram)
  {
    hide Units, Len, ChildKeyOf;
    PruneShape(t, x);
    assert EdgeStands(t, raw, page, bigram, x) && Entered(raw, page, t[x].parent, x);
    var t', raw' := Prune(t, x), RawPrune(raw, page, x);
    hide Shape, EdgeStands, Entered, Tabled;
    forall p | p in t' && p != [] ensures p in raw' && EdgeStands(t', raw', page, bigram, p) {
      PruneEdges(t, raw, page, bigram, x, p);
    }
    forall p | p in t' && p != [] ensures Entered(raw', page, t'[p].parent, p) {
      PruneEdges(t, raw, page, bigram, x, p);
    }
    forall q, k | q in raw' && k in raw'[q].children ensures Tabled(raw', page, q, k) {
      PruneTables(t, raw, page, bigram, x, q, k);
    }
  }

  // ----- walking

  /** Where one round of the walk from `node` ends along `key`, when child `c` is found for it. */
  ghost predicate Reaches(t: Tree, node: Key, c: Key, key: Key, end: Key) {
    && c in t && c != [] && t[c].parent == node && node < end && end <= c && end <= key
    && (|end| < |c| && |end| < |key| ==> c[|end|] != key[|end|])
  }

  /** One child further down, on raw tokens: the match ends where the unit walk ends. */
  lemma {:induction false} StepDown(t: Tree, raw: RawTree, page: nat, bigram: bool, node: Key, rest: RadixKey)
    returns (end: Key)
    requires Stands(t, raw, page, bigram) && node in t && rest.bigram == bigram && Len(rest) % page == 0
    requires Units(rest, page) != [] && ChildKeyOf(rest, page) in raw[node].children
    ensures var key := node + Units(rest, page); var c := raw[node].children[ChildKeyOf(rest, page)];
      && c in raw && raw[c].edge.extraKey == rest.extraKey && Reaches(t, node, c, key, end)
      && var len := MatchLength(raw[c].edge, rest, page);
         && len == page * (|end| - |node|) && len <= Len(rest) && (len == Len(raw[c].edge) <==> end == c)
         && Units(Slice(rest, len, Len(rest)), page) == key[|end|..] && Len(Slice(rest, len, Len(rest))) % page == 0
  {
    hide Units, Len, ChildKeyOf, Slice, MatchLength, Common;
    LookUp(t, raw, page, bigram, node, rest);
    var key := node + Units(rest, page);
    NextChild(t, node, key);
    var c := raw[node].children[ChildKeyOf(rest, page)];
    assert EdgeStands(t, raw, page, bigram, c);
    hide Shape, Stands;
    var edge := raw[c].edge;
    var a, b := Units(edge, page), Units(rest, page);
    assert a[0] == b[0];
    SameNamespace(edge, rest, page);
    WalkStep(edge, rest, page);
    end := node + a[..Common(a, b)];
    assert c == node + a by { assert node == c[..|node|]; }
    SharedEnd(node, a, b, Common(a, b));
  }

  lemma {:induction false} SharedEnd(node: Key, a: Key, b: Key, n: nat)
    requires a != [] && b != [] && a[0] == b[0] && n <= |a| && n <= |b| && a[..n] == b[..n]
    requires n < |a| && n < |b| ==> a[n] != b[n]
    ensures var c, key, end := node + a, node + b, node + a[..n];
      && node < end && end <= c && end <= key && |end| == |node| + n && (end == c <==> n == |a|)
      && (|end| < |c| && |end| < |key| ==> c[|end|] != key[|end|]) && key[|end|..] == b[n..]
  {
  }

  lemma {:induction false} EndsInside(t: Tree, node: Key, c: Key, key: Key, end: Key)
    requires Shape(t) && Reaches(t, node, c, key, end) && end != c
    ensures CanSplit(t, c, |end| - |node|) && Linked(t, c) && end == c[..|end|]
    ensures end in Split(t, c, |end| - |node|) && Deepest(Split(t, c, |end| - |node|), end, key)
  {
    assert end == key[..|end|] == c[..|end|] && |end| < |c|;
    SplitDeepest(t, c, |end| - |node|, key);
  }

  lemma {:induction false} SameNamespace(a: RadixKey, b: RadixKey, page: nat)
    requires page >= 1 && Units(a, page) != [] && Units(b, page) != [] && Units(a, page)[0] == Units(b, page)[0]
    ensures a.extraKey == b.extraKey
  {
  }

  lemma {:induction false} HasUnits(k: RadixKey, page: nat)
    requires page >= 1 && Len(k) % page == 0
    ensures Len(k) > 0 <==> Units(k, page) != []
  {
    hide Units, Len;
    UnitsCount(k, page);
    FewerPages(k, page, 0);
  }

  class TokenTree {
    const page: nat
    const bigram: bool
    var nodes: RawTree
    ghost var tree: Tree

    ghost predicate Valid()
      reads this
    {
      Stands(tree, nodes, page, bigram)
    }

    /** `reset`. */
    constructor (page: nat, bigram: bool)
      requires page >= 1
      ensures this.page == page && this.bigram == bigram && Valid() && tree == EmptyTree
    {
      this.page, this.bigram := page, bigram;
      nodes, tree := map[[] := RawNode([], RadixKey([], None, false), map[])], EmptyTree;
    }

    /** One round of the walk: the child for what is left of the key, taken whole, or split where the
        key leaves it. */
    method Descend(node: Key, rest: RadixKey) returns (next: Key, len: nat, whole: bool)
      requires Valid() && node in tree && rest.bigram == bigram && Len(rest) % page == 0
      requires Units(rest, page) != [] && ChildKeyOf(rest, page) in nodes[node].children
      modifies `nodes, `tree
      ensures Valid() && SameMeaning(old(tree), tree) && next in tree && len <= Len(rest)
      ensures node < next && next <= node + Units(rest, page) && len == page * (|next| - |node|)
      ensures Units(Slice(rest, len, Len(rest)), page) == (node + Units(rest, page))[|next|..]
      ensures Len(Slice(rest, len, Len(rest))) % page == 0
      ensures whole ==> tree == old(tree)
      ensures !whole ==> Deepest(tree, next, node + Units(rest, page))
    {
      hide Units, Len, ChildKeyOf, Slice, MatchLength, Shape, SameMeaning, Deepest;
      ghost var end := StepDown(tree, nodes, page, bigram, node, rest);
      ghost var key := node + Units(rest, page);
      var child := nodes[node].children[ChildKeyOf(rest, page)];
      var matched := Match(nodes[child].edge, rest, page);
      len := matched.value;
      whole := len == Len(nodes[child].edge);
      if whole {
        next := child;
        RootReads(tree, key);
      } else {
        EndsInside(tree, node, child, key, end);
        next := SplitNode(child, |end| - |node|, len);
      }
    }

    /** `_split_node`, at `len` tokens or pairs, which are `n` pages. */
    method SplitNode(child: Key, ghost n: nat, len: nat) returns (next: Key)
      requires Valid() && CanSplit(tree, child, n) && len == page * n
      modifies `nodes, `tree
      ensures Valid() && SameMeaning(old(tree), tree) && Linked(old(tree), child)
      ensures tree == Split(old(tree), child, n) && next == child[..|old(tree)[child].parent| + n]
    {
      hide Units, Len, ChildKeyOf, Slice, Shape, SameMeaning;
      SplitFacts(tree, child, n);
      SplitSame(tree, child, n);
      CutEdge(tree, nodes, page, bigram, child, n);
      SplitStands(tree, nodes, page, bigram, child, n);
      var node := nodes[child];
      var upper, lower := Slice(node.edge, 0, len), Slice(node.edge, len, Len(node.edge));
      next := node.parent + Units(upper, page);
      nodes := nodes[next := RawNode(node.parent, upper, map[ChildKeyOf(lower, page) := child])];
      nodes := nodes[child := RawNode(next, lower, node.children)];
      var above := nodes[node.parent];
      nodes := nodes[node.parent := above.(children := above.children[ChildKeyOf(node.edge, page) := next])];
      tree := Split(tree, child, n);
    }

    /** `match_prefix` on raw tokens: it stops after exactly the pages that the unit tree caches. */
    method MatchPrefix(key: RadixKey) returns (matched: nat, last: Key)
      requires Valid() && key.bigram == bigram
      modifies `nodes, `tree
      ensures Valid() && SameMeaning(old(tree), tree) && last in tree && last <= Units(key, page)
      ensures matched == page * |last| && LongestCached(old(tree), Units(key, page), |last|)
    {
      hide Units, Len, ChildKeyOf, Slice, Shape, SameMeaning, LongestCached, Slot, ReadOff;
      var rest;
      ghost var all := Units(key, page);
      last, matched, rest := Walk(key);
      DeepestLongest(tree, last, all);
      ReadMoves(old(tree), tree, all, []);
    }

    /** The loop that `match_prefix` and `insert` share. */
    method Walk(key: RadixKey) returns (node: Key, matched: nat, rest: RadixKey)
      requires Valid() && key.bigram == bigram
      modifies `nodes, `tree
      ensures Valid() && SameMeaning(old(tree), tree) && Deepest(tree, node, Units(key, page))
      ensures matched == page * |node| && node + Units(rest, page) == Units(key, page)
      ensures rest.bigram == bigram && Len(rest) % page == 0
    {
      hide Units, Len, ChildKeyOf, Slice, Shape, SameMeaning, Slot, ReadOff;
      ghost var all := Units(key, page);
      RootReads(tree, all);
      AlignedWhole(key, page);
      node, matched, rest := [], 0, Aligned(key, page);
      assert [] + Units(rest, page) == all;
      HasUnits(rest, page);
      var whole := true;
      while whole && Len(rest) > 0 && ChildKeyOf(rest, page) in nodes[node].children
        invariant Valid() && SameMeaning(old(tree), tree) && node in tree
        invariant node + Units(rest, page) == all && matched == page * |node|
        invariant rest.bigram == bigram && Len(rest) % page == 0 && (Len(rest) > 0 <==> Units(rest, page) != [])
        invariant !whole ==> Deepest(tree, node, all)
        decreases whole, |all| - |node|
      {
        ghost var before := tree;
        var next, len;
        next, len, whole := Descend(node, rest);
        SameTwice(old(tree), before, tree);
        SliceLength(rest, len, Len(rest));
        PagesAdd(page, |node|, |next|);
        rest := Slice(rest, len, Len(rest));
        assert next + Units(rest, page) == all;
        node, matched := next, matched + len;
        HasUnits(rest, page);
      }
      if whole && Len(rest) > 0 {
        LookUp(tree, nodes, page, bigram, node, rest);
        assert all[|node|] == Units(rest, page)[0];
      }
    }

    /** `insert` on raw tokens: how much of the key was there already, in tokens or pairs, and the rest
        as a leaf of its own. `value` are the slots, one for each page. */
    method Insert(key: RadixKey, ghost value: seq<int>) returns (prefixLen: nat)
      requires Valid() && key.bigram == bigram && |value| == |Units(key, page)|
      modifies `nodes, `tree
      ensures Valid()
      ensures exists n: nat :: prefixLen == page * n && LongestCached(old(tree), Units(key, page), n)
                               && Inserted(old(tree), tree, Units(key, page), n, value)
    {
      hide Units, Len, ChildKeyOf, Slice, Shape, SameMeaning, LongestCached, Slot, ReadOff, Inserted, Stored;
      ghost var all := Units(key, page);
      var node, rest;
      node, prefixLen, rest := Walk(key);
      ghost var walked := tree;
      DeepestLongest(tree, node, all);
      ReadMoves(old(tree), tree, all, []);
      HasUnits(rest, page);
      if Len(rest) > 0 {
        ghost var slots := value[|node|..|all|];
        GrowStands(tree, nodes, page, bigram, node, rest, slots);
        GrowInserts(old(tree), tree, node, all, value);
        var leaf := node + Units(rest, page);
        nodes := nodes[leaf := RawNode(node, rest, map[])];
        nodes := nodes[node := nodes[node].(children := nodes[node].children[ChildKeyOf(rest, page) := leaf])];
        tree := Grow(tree, node, all, slots);
      } else {
        assert node == all;
        PresentInserts(old(tree), tree, all, value);
      }
      assert prefixLen == page * |node| && Inserted(old(tree), tree, all, |node|, value);
    }

    /** `_delete_leaf`. */
    method DeleteLeaf(x: Key)
      requires Valid() && CanPrune(tree, x)
      modifies `nodes, `tree
      ensures Valid() && tree == Prune(old(tree), x)
    {
      hide Units, Len, ChildKeyOf, Shape;
      PruneStands(tree, nodes, page, bigram, x);
      var r := nodes[x].parent;
      var k := ChildKeyOf(nodes[x].edge, page);
      nodes := (nodes - {x})[r := nodes[r].(children := nodes[r].children - {k})];
      tree := Prune(tree, x);
    }
  }

  lemma {:induction false} AlignedWhole(k: RadixKey, page: nat)
    requires page >= 1
    ensures var a := Aligned(k, page);
      Units(a, page) == Units(k, page) && Len(a) % page == 0 && a.bigram == k.bigram
  {
    hide Units;
    AlignedUnits(k, page);
    Unique(page * |Units(k, page)|, page, |Units(k, page)|, 0);
  }

  lemma {:induction false} PagesAdd(page: nat, a: nat, b: nat)
    requires a <= b
    ensures page * a + page * (b - a) == page * b
  {
  }
}
