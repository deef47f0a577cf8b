/** python/sglang/srt/mem_cache/radix_cache.py: the bookkeeping kept beside the tree (sizes, lock
    counts, evictable leaves) and what each change of the tree does to it. */
module RadixState {
  import opened RadixTree

  // ----- sums over the nodes

  ghost function Total(s: set<Key>, t: Tree, w: Node -> int): int
    requires s <= t.Keys
  {
    if s == {} then 0 else
      var p :| p in s;
      w(t[p]) + Total(s - {p}, t, w)
  }

  lemma {:induction false} TotalPick(s: set<Key>, t: Tree, w: Node -> int, x: Key)
    requires s <= t.Keys && x in s
    ensures Total(s, t, w) == w(t[x]) + Total(s - {x}, t, w)
    decreases |s|
  {
    var p :| p in s && Total(s, t, w) == w(t[p]) + Total(s - {p}, t, w);
    if p != x {
      TotalPick(s - {p}, t, w, x);
      TotalPick(s - {x}, t, w, p);
      assert s - {p} - {x} == s - {x} - {p};
    }
  }

  lemma {:induction false} TotalAgree(s: set<Key>, t: Tree, t': Tree, w: Node -> int)
    requires s <= t.Keys && s <= t'.Keys && forall p :: p in s ==> w(t'[p]) == w(t[p])
    ensures Total(s, t', w) == Total(s, t, w)
    decreases |s|
  {
    if s != {} {
      var p :| p in s;
      TotalPick(s, t, w, p);
      TotalPick(s, t', w, p);
      TotalAgree(s - {p}, t, t', w);
    }
  }

  ghost function Weight(t: Tree, w: Node -> int): int { Total(t.Keys, t, w) }

  lemma {:induction false} WeightPut(t: Tree, p: Key, n: Node, w: Node -> int)
    ensures Weight(t[p := n], w) == Weight(t, w) + w(n) - if p in t then w(t[p]) else 0
  {
    var t' := t[p := n];
    TotalPick(t'.Keys, t', w, p);
    TotalAgree(t.Keys - {p}, t, t', w);
    assert t'.Keys - {p} == t.Keys - {p};
    if p in t {
      TotalPick(t.Keys, t, w, p);
    } else {
      assert t.Keys - {p} == t.Keys;
    }
  }

  lemma {:induction false} WeightDrop(t: Tree, x: Key, w: Node -> int)
    requires x in t
    ensures Weight(t - {x}, w) == Weight(t, w) - w(t[x])
  {
    TotalPick(t.Keys, t, w, x);
    TotalAgree(t.Keys - {x}, t, t - {x}, w);
    assert (t - {x}).Keys == t.Keys - {x};
  }

  // ----- what is summed

  function Free(n: Node): int { if n.lock == 0 then |n.value| else 0 }

  function Held(n: Node): int { if n.lock == 0 then 0 else |n.value| }

  /** How often node `n` stores slot `x`. */
  function Keeps(x: int): Node -> int { (n: Node) => multiset(n.value)[x] }

  function Length(n: Node): int { |n.value| }

  lemma {:induction false} SplitWeight(t: Tree, c: Key, n: nat, w: Node -> int)
    requires CanSplit(t, c, n) && Linked(t, c)
    requires var r := t[c].parent; var m := c[..|r| + n];
      && w(Node(r, map[c[|m|] := c], t[c].value[..n], t[c].lock))
         + w(Node(m, t[c].children, t[c].value[n..], t[c].lock)) == w(t[c])
      && w(t[r].(children := t[r].children[c[|r|] := m])) == w(t[r])
    ensures Weight(Split(t, c, n), w) == Weight(t, w)
  {
    SplitFacts(t, c, n);
    var r := t[c].parent;
    var m := c[..|r| + n];
    var t1 := t[m := Node(r, map[c[|m|] := c], t[c].value[..n], t[c].lock)];
    var t2 := t1[c := Node(m, t[c].children, t[c].value[n..], t[c].lock)];
    var n3 := t[r].(children := t[r].children[c[|r|] := m]);
    hide Weight, Shape;
    WeightPut(t, m, t1[m], w);
    WeightPut(t1, c, t2[c], w);
    WeightPut(t2, r, n3, w);
  }

  /** Splitting an edge leaves both size counters and the stored slots as they were. */
  lemma {:induction false} SplitWeights(t: Tree, c: Key, n: nat, x: int)
    requires CanSplit(t, c, n)
    ensures Linked(t, c)
    ensures Weight(Split(t, c, n), Free) == Weight(t, Free)
    ensures Weight(Split(t, c, n), Held) == Weight(t, Held)
    ensures Weight(Split(t, c, n), Keeps(x)) == Weight(t, Keeps(x))
  {
    assert Linked(t, c);
    SplitWeight(t, c, n, Free);
    SplitWeight(t, c, n, Held);
    var v := t[c].value;
    assert v == v[..n] + v[n..];
    SplitWeight(t, c, n, Keeps(x));
  }

  lemma {:induction false} GrowWeight(t: Tree, r: Key, k: Key, value: seq<int>, w: Node -> int)
    requires r in t && r < k && k !in t
    requires w(t[r].(children := t[r].children[k[|r|] := k])) == w(t[r])
    ensures Weight(Grow(t, r, k, value), w) == Weight(t, w) + w(Node(r, map[], value, 0))
  {
    var t1 := t[k := Node(r, map[], value, 0)];
    WeightPut(t, k, t1[k], w);
    WeightPut(t1, r, t[r].(children := t[r].children[k[|r|] := k]), w);
  }

  lemma {:induction false} PruneWeight(t: Tree, x: Key, w: Node -> int)
    requires CanPrune(t, x)
    requires var r := t[x].parent; w(t[r].(children := t[r].children - {x[|r|]})) == w(t[r])
    ensures Weight(Prune(t, x), w) == Weight(t, w) - w(t[x])
  {
    var r := t[x].parent;
    WeightDrop(t, x, w);
    WeightPut(t - {x}, r, t[r].(children := t[r].children - {x[|r|]}), w);
  }

  // ----- the holders of locks

  /** How many of the held nodes lie at or below `p`. */
  ghost function Holders(hs: seq<Key>, p: Key): nat {
    if hs == [] then 0 else Holders(hs[1..], p) + if p <= hs[0] then 1 else 0
  }

  lemma {:induction false} HoldersSame(hs: seq<Key>, p: Key, q: Key)
    requires forall h :: h in hs ==> (p <= h <==> q <= h)
    ensures Holders(hs, p) == Holders(hs, q)
  {
    if hs != [] {
      assert hs[0] in hs;
      forall h | h in hs[1..] ensures p <= h <==> q <= h { assert h in hs; }
      HoldersSame(hs[1..], p, q);
    }
  }

  lemma {:induction false} HoldersNone(hs: seq<Key>, p: Key)
    ensures Holders(hs, p) == 0 <==> forall h :: h in hs ==> !(p <= h)
  {
    if hs != [] {
      HoldersNone(hs[1..], p);
      assert hs[0] in hs && forall h :: h in hs[1..] ==> h in hs;
      forall h | h in hs && p <= h ensures Holders(hs, p) > 0 { assert h == hs[0] || h in hs[1..]; }
    }
  }

  lemma {:induction false} HoldersDrop(hs: seq<Key>, i: nat, p: Key)
    requires i < |hs|
    ensures Holders(hs, p) == Holders(hs[..i] + hs[i + 1..], p) + if p <= hs[i] then 1 else 0
  {
    if i == 0 {
      assert hs[..0] + hs[1..] == hs[1..];
    } else {
      HoldersDrop(hs[1..], i - 1, p);
      assert (hs[..i] + hs[i + 1..])[1..] == hs[1..][..i - 1] + hs[1..][i..];
    }
  }

  /** A node's `lock_ref` is the number of held nodes at or below it; the root's is 1. */
  ghost predicate Locks(t: Tree, hs: seq<Key>) {
    && [] in t && t[[]].lock == 1
    && (forall h :: h in hs ==> h in t)
    && (forall p :: p in t && p != [] ==> t[p].lock == Holders(hs, p))
  }

  lemma {:induction false} SplitLocks(t: Tree, c: Key, n: nat, hs: seq<Key>)
    requires CanSplit(t, c, n) && Locks(t, hs)
    ensures Linked(t, c) && Locks(Split(t, c, n), hs)
  {
    SplitFacts(t, c, n);
    var r := t[c].parent;
    var m := c[..|r| + n];
    forall h | h in hs ensures m <= h <==> c <= h {
      if c <= h { assert m == h[..|m|]; }
      if m <= h {
        assert r == h[..|r|] && h[|r|] == c[|r|];
        ChildOnPath(t, r, h);
      }
    }
    HoldersSame(hs, m, c);
  }

  lemma {:induction false} GrowLocks(t: Tree, r: Key, k: Key, value: seq<int>, hs: seq<Key>)
    requires CanGrow(t, r, k, value) && Locks(t, hs)
    ensures Locks(Grow(t, r, k, value), hs)
  {
    GrowFresh(t, r, k, value, k);
    HoldersNone(hs, k);
  }

  lemma {:induction false} PruneLocks(t: Tree, x: Key, hs: seq<Key>)
    requires CanPrune(t, x) && Locks(t, hs) && t[x].lock == 0
    ensures Locks(Prune(t, x), hs)
  {
    HoldersNone(hs, x);
  }

  /** Every node above `from`'s depth on the path to `h` counts `d` more locks. */
  function Lifted(t: Tree, h: Key, from: nat, d: int): Tree {
    map p | p in t :: if p <= h && from < |p| then t[p].(lock := t[p].lock + d) else t[p]
  }

  /** Climbing from a node to its parent passes no other node. */
  lemma {:induction false} LiftStep(t: Tree, h: Key, n: Key, d: int)
    requires Shape(t) && h in t && n in t && n != [] && n <= h
    ensures Linked(t, n) && t[n].parent <= h
    ensures n in Lifted(t, h, |n|, d) && Lifted(t, h, |n|, d)[n] == t[n]
    ensures Lifted(t, h, |n|, d)[n := t[n].(lock := t[n].lock + d)] == Lifted(t, h, |t[n].parent|, d)
  {
    assert Linked(t, n);
    var r := t[n].parent;
    assert r == n[..|r|] == h[..|r|];
    forall p | p in t && p <= h && |r| < |p| && !(|n| < |p|) ensures p == n {
      assert p == n[..|p|] && r == p[..|r|];
      EdgeEmpty(t, n, p);
    }
  }

  lemma {:induction false} LiftLocks(t: Tree, h: Key, hs: seq<Key>)
    requires Locks(t, hs) && h in t
    ensures Locks(Lifted(t, h, 0, 1), [h] + hs)
  {
    assert ([h] + hs)[1..] == hs;
  }

  lemma {:induction false} DropLocks(t: Tree, hs: seq<Key>, i: nat)
    requires Locks(t, hs) && i < |hs|
    ensures Locks(Lifted(t, hs[i], 0, -1), hs[..i] + hs[i + 1..])
  {
    forall p { HoldersDrop(hs, i, p); }
  }

  // ----- giving back a lock that is not outstanding

  /** How many of the held nodes lie strictly below `p`. */
  ghost function Beneath(hs: seq<Key>, p: Key): nat {
    if hs == [] then 0 else Beneath(hs[1..], p) + if p < hs[0] then 1 else 0
  }

  lemma {:induction false} BeneathDrop(hs: seq<Key>, i: nat, p: Key)
    requires i < |hs|
    ensures Beneath(hs, p) == Beneath(hs[..i] + hs[i + 1..], p) + if p < hs[i] then 1 else 0
  {
    if i == 0 {
      assert hs[..0] + hs[1..] == hs[1..];
    } else {
      BeneathDrop(hs[1..], i - 1, p);
      assert (hs[..i] + hs[i + 1..])[1..] == hs[1..][..i - 1] + hs[1..][i..];
    }
  }

  lemma {:induction false} BeneathNone(hs: seq<Key>, p: Key)
    requires forall h :: h in hs ==> !(p < h)
    ensures Beneath(hs, p) == 0
  {
    if hs != [] {
      assert hs[0] in hs && forall h :: h in hs[1..] ==> h in hs;
      BeneathNone(hs[1..], p);
    }
  }

  /** At or below is below, or there. */
  lemma {:induction false} HoldersBeneath(hs: seq<Key>, p: Key)
    ensures Holders(hs, p) >= Beneath(hs, p) && (p !in hs ==> Holders(hs, p) == Beneath(hs, p))
  {
    if hs != [] {
      HoldersBeneath(hs[1..], p);
      assert hs[0] in hs && forall h :: h in hs[1..] ==> h in hs;
      assert p <= hs[0] && |p| == |hs[0]| ==> p == hs[0];
    }
  }

  /** A held node below `p` than which none below `p` is longer. */
  lemma {:induction false} LongestBeneath(hs: seq<Key>, p: Key) returns (i: nat)
    requires exists h :: h in hs && p < h
    ensures i < |hs| && p < hs[i] && forall h :: h in hs && p < h ==> |h| <= |hs[i]|
  {
    assert forall h :: h in hs ==> h == hs[0] || h in hs[1..];
    if h :| h in hs[1..] && p < h {
      i := LongestBeneath(hs[1..], p);
      i := if p < hs[0] && |hs[1..][i]| < |hs[0]| then 0 else i + 1;
    } else {
      i := 0;
    }
  }

  /** The lock counts of the nodes strictly below `p` say how many locks are held there. */
  ghost predicate SameBelow(hs: seq<Key>, hs': seq<Key>, p: Key) {
    forall q :: p < q && (q in hs || q in hs') ==> Holders(hs, q) == Holders(hs', q)
  }

  lemma {:induction false} SameBeneath(hs: seq<Key>, hs': seq<Key>, p: Key)
    requires SameBelow(hs, hs', p)
    ensures Beneath(hs, p) == Beneath(hs', p)
    decreases |hs|
  {
    if h :| h in hs + hs' && p < h {
      var k := LongestBeneath(hs + hs', p);
      var e := (hs + hs')[k];
      assert e in hs || e in hs';
      HoldersNone(hs, e);
      HoldersNone(hs', e);
      assert forall h :: h in hs || h in hs' ==> h in hs + hs';
      forall h | h in hs + hs' && e <= h ensures h == e { assert p < h; }
      var i :| 0 <= i < |hs| && hs[i] == e;
      var j :| 0 <= j < |hs'| && hs'[j] == e;
      DropSame(hs, hs', p, i, j);
      SameBeneath(hs[..i] + hs[i + 1..], hs'[..j] + hs'[j + 1..], p);
      BeneathDrop(hs, i, p);
      BeneathDrop(hs', j, p);
    } else {
      assert forall h :: h in hs || h in hs' ==> h in hs + hs';
      BeneathNone(hs, p);
      BeneathNone(hs', p);
    }
  }

  lemma {:induction false} DropSame(hs: seq<Key>, hs': seq<Key>, p: Key, i: nat, j: nat)
    requires SameBelow(hs, hs', p) && i < |hs| && j < |hs'| && hs[i] == hs'[j]
    ensures SameBelow(hs[..i] + hs[i + 1..], hs'[..j] + hs'[j + 1..], p)
  {
    var a, b := hs[..i] + hs[i + 1..], hs'[..j] + hs'[j + 1..];
    forall q | p < q && (q in a || q in b) ensures Holders(a, q) == Holders(b, q) {
      assert q in hs || q in hs';
      HoldersDrop(hs, i, q);
      HoldersDrop(hs', j, q);
    }
  }

  /** Counting one lock less from `h` up leaves counts that some locks explain if and only if a lock on
      `h` was outstanding (or `h` is the root, whose count never moves). */
  lemma {:induction false} UnlockExplained(t: Tree, hs: seq<Key>, h: Key)
    requires Locks(t, hs) && h in t
    ensures (exists hs' :: Locks(Lifted(t, h, 0, -1), hs')) <==> h == [] || h in hs
  {
    var t' := Lifted(t, h, 0, -1);
    if h == [] {
      assert t' == t;
    } else if h in hs {
      var i :| 0 <= i < |hs| && hs[i] == h;
      DropLocks(t, hs, i);
    } else if hs' :| Locks(t', hs') {
      UnlockUnexplained(t, hs, h, hs');
    }
  }

  lemma {:induction false} UnlockUnexplained(t: Tree, hs: seq<Key>, h: Key, hs': seq<Key>)
    requires Locks(t, hs) && h in t && h != [] && h !in hs
    ensures !Locks(Lifted(t, h, 0, -1), hs')
  {
    if Locks(Lifted(t, h, 0, -1), hs') {
      assert SameBelow(hs, hs', h);
      SameBeneath(hs, hs', h);
      HoldersBeneath(hs, h);
      HoldersBeneath(hs', h);
    }
  }

  /** A tree of one node that nobody holds: giving a lock on it back makes its count negative. */
  lemma {:induction false} UnmatchedWitness(u: Unit)
    ensures var t: Tree := map[[] := Node([], map[u := [u]], [], 1), [u] := Node([], map[], [7], 0)];
      && Shape(t) && Locks(t, []) && Lifted(t, [u], 0, -1)[[u]].lock == -1
      && forall hs :: !Locks(Lifted(t, [u], 0, -1), hs)
  {
    var t: Tree := map[[] := Node([], map[u := [u]], [], 1), [u] := Node([], map[], [7], 0)];
    assert Linked(t, [u]) && Lists(t, [], u);
    assert Locks(t, []);
    UnlockExplained(t, [], [u]);
  }

  // ----- the whole bookkeeping

  /** What `evictable_leaves` should be: the childless nodes nobody holds. */
  function Leaves(t: Tree): set<Key> { set p | p in t && t[p].lock <= 0 && t[p].children == map[] }

  ghost predicate Consistent(t: Tree, ev: int, pr: int, leaves: set<Key>, hs: seq<Key>) {
    Shape(t) && Locks(t, hs) && leaves == Leaves(t) && ev == Weight(t, Free) && pr == Weight(t, Held)
  }

  lemma {:induction false} SplitConsistent(t: Tree, c: Key, n: nat, ev: int, pr: int, leaves: set<Key>, hs: seq<Key>)
    requires CanSplit(t, c, n) && Consistent(t, ev, pr, leaves, hs)
    ensures Linked(t, c) && Consistent(Split(t, c, n), ev, pr, leaves, hs)
  {
    SplitFacts(t, c, n);
    SplitShape(t, c, n);
    SplitLocks(t, c, n, hs);
    SplitWeights(t, c, n, 0);
    hide Shape, Locks, Weight;
    var t', r := Split(t, c, n), t[c].parent;
    var m := c[..|r| + n];
    assert c[|r|] in t[r].children && c[|r|] in t'[r].children && c[|m|] in t'[m].children;
    assert Leaves(t') == Leaves(t);
  }

  lemma {:induction false} GrowConsistent(t: Tree, r: Key, k: Key, value: seq<int>,
                                          ev: int, pr: int, leaves: set<Key>, hs: seq<Key>)
    requires CanGrow(t, r, k, value) && Consistent(t, ev, pr, leaves, hs)
    ensures Consistent(Grow(t, r, k, value), ev + |value|, pr, leaves - {r} + {k}, hs)
  {
    GrowShape(t, r, k, value);
    GrowLocks(t, r, k, value, hs);
    GrowWeight(t, r, k, value, Free);
    GrowWeight(t, r, k, value, Held);
    hide Shape, Locks, Weight;
    assert k[|r|] in Grow(t, r, k, value)[r].children;
    assert Leaves(Grow(t, r, k, value)) == Leaves(t) - {r} + {k};
  }

  lemma {:induction false} PruneConsistent(t: Tree, x: Key, ev: int, pr: int, leaves: set<Key>, hs: seq<Key>)
    requires CanPrune(t, x) && Consistent(t, ev, pr, leaves, hs) && x in leaves
    ensures t[x].lock == 0
    ensures var t' := Prune(t, x); var r := t[x].parent;
      Consistent(t', ev - |t[x].value|, pr,
        if t'[r].lock <= 0 && t'[r].children == map[] then leaves - {x} + {r} else leaves - {x} - {r}, hs)
  {
    assert t[x].lock == 0;
    PruneShape(t, x);
    PruneLocks(t, x, hs);
    PruneWeight(t, x, Free);
    PruneWeight(t, x, Held);
    PruneLeaves(t, x);
  }

  lemma {:induction false} PruneLeaves(t: Tree, x: Key)
    requires CanPrune(t, x)
    ensures var t' := Prune(t, x); var r := t[x].parent;
      Leaves(t') == if t'[r].lock <= 0 && t'[r].children == map[] then Leaves(t) - {x} + {r} else Leaves(t) - {x} - {r}
  {
    hide Shape;
    assert x[|t[x].parent|] in t[t[x].parent].children;
  }

  // ----- what the bookkeeping means

  /** The prefixes of `p` of length `lo + 1` to `hi`. */
  ghost function Prefixes(p: Key, lo: nat, hi: nat): (s: set<Key>)
    requires lo <= hi <= |p|
    ensures |s| == hi - lo
    ensures forall k :: k in s <==> k <= p && lo < |k| <= hi
    decreases hi
  {
    if lo == hi then {} else
      assert forall k :: k <= p && |k| == hi ==> k == p[..hi];
      Prefixes(p, lo, hi - 1) + {p[..hi]}
  }

  lemma {:induction false} OwnedSet(t: Tree, s: set<Key>) returns (c: set<Key>)
    requires Shape(t) && s <= t.Keys
    ensures forall k :: k in c <==> exists p :: p in s && Owns(t, p, k)
    ensures |c| == Total(s, t, Length)
    decreases |s|
  {
    if s == {} {
      c := {};
    } else {
      var p :| p in s;
      TotalPick(s, t, Length, p);
      var rest := OwnedSet(t, s - {p});
      if p == [] {
        assert t[p].value == [];
        c := rest;
      } else {
        assert Linked(t, p);
        var edge := Prefixes(p, |t[p].parent|, |p|);
        forall k | k in edge && k in rest ensures false {
          var q :| q in s - {p} && Owns(t, q, k);
          OwnerUnique(t, p, q, k);
        }
        c := rest + edge;
      }
    }
  }

  lemma {:induction false} FreeAndHeld(s: set<Key>, t: Tree)
    requires s <= t.Keys
    ensures Total(s, t, Free) + Total(s, t, Held) == Total(s, t, Length)
    decreases |s|
  {
    if s != {} {
      var p :| p in s;
      TotalPick(s, t, Free, p);
      TotalPick(s, t, Held, p);
      TotalPick(s, t, Length, p);
      FreeAndHeld(s - {p}, t);
    }
  }

  /** `evictable_size + protected_size` counts every cached prefix exactly once. */
  lemma {:induction false} SizesCountPrefixes(t: Tree, ev: int, pr: int, leaves: set<Key>, hs: seq<Key>)
    returns (cached: set<Key>)
    requires Consistent(t, ev, pr, leaves, hs)
    ensures forall k :: k in cached <==> Slot(t, k).Some?
    ensures ev + pr == |cached|
  {
    cached := OwnedSet(t, t.Keys);
    FreeAndHeld(t.Keys, t);
    forall k ensures k in cached <==> Slot(t, k).Some? {
      assert k in cached <==> exists p :: p in t && Owns(t, p, k);
    }
  }

  /** Locking a node protects its ancestors: a node is held at least as often as what is below it. */
  lemma {:induction false} LockMonotone(hs: seq<Key>, p: Key, q: Key)
    requires p <= q
    ensures Holders(hs, q) <= Holders(hs, p)
  {
    if hs != [] {
      if q <= hs[0] { assert p == hs[0][..|p|]; }
      LockMonotone(hs[1..], p, q);
    }
  }

  /** Below every node nobody holds there is an evictable leaf. */
  lemma {:induction false} LeafBelow(t: Tree, hs: seq<Key>, p: Key, depth: nat) returns (leaf: Key)
    requires Shape(t) && Locks(t, hs) && p in t && p != [] && t[p].lock == 0
    requires forall q :: q in t ==> |q| <= |p| + depth
    ensures leaf in Leaves(t) && p <= leaf
    decreases depth
  {
    if t[p].children == map[] {
      leaf := p;
    } else {
      var u :| u in t[p].children;
      assert Lists(t, p, u);
      var c := t[p].children[u];
      LockMonotone(hs, p, c);
      leaf := LeafBelow(t, hs, c, depth - (|c| - |p|));
      assert p == leaf[..|p|];
    }
  }

  lemma {:induction false} Tallest(s: set<Key>) returns (n: nat)
    ensures forall q :: q in s ==> |q| <= n
    decreases |s|
  {
    if s == {} {
      n := 0;
    } else {
      var p :| p in s;
      n := Tallest(s - {p});
      n := if n < |p| then |p| else n;
    }
  }

  lemma {:induction false} TotalZero(s: set<Key>, t: Tree, w: Node -> int)
    requires s <= t.Keys && forall p :: p in s ==> w(t[p]) == 0
    ensures Total(s, t, w) == 0
    decreases |s|
  {
    if s != {} {
      var p :| p in s;
      TotalPick(s, t, w, p);
      TotalZero(s - {p}, t, w);
    }
  }

  /** With no evictable leaf left nothing evictable is left. */
  lemma {:induction false} NoLeavesNothingFree(t: Tree, ev: int, pr: int, leaves: set<Key>, hs: seq<Key>)
    requires Consistent(t, ev, pr, leaves, hs) && leaves == {}
    ensures ev == 0
  {
    var n := Tallest(t.Keys);
    forall p | p in t ensures Free(t[p]) == 0 {
      if t[p].lock == 0 && p != [] { var leaf := LeafBelow(t, hs, p, n); }
    }
    TotalZero(t.Keys, t, Free);
  }
}
