/** python/sglang/srt/mem_cache/radix_cache.py: how a request hands its KV slots to the cache, while
    it runs (`cache_unfinished_req`) and when it ends (`cache_finished_req`). */
module RequestCaching {
  import opened Prelude
  import opened RadixTree
  import opened RadixState
  import opened RadixCaching

  // ----- what holders can rely on

  /** Nothing a held node's path reads has changed. */
  ghost predicate Undisturbed(t: Tree, t': Tree, hs: seq<Key>)
    requires Shape(t) && Shape(t')
  {
    forall h, k :: h in hs && k <= h ==> Slot(t', k) == Slot(t, k)
  }

  lemma {:induction false} ForgetsUndisturbed(t: Tree, t': Tree, hs: seq<Key>)
    requires Shape(t) && Shape(t') && OnlyForgets(t, t', hs)
    ensures Undisturbed(t, t', hs)
  {
    hide Shape, Slot;
  }

  /** Insertion never overwrites a slot that is already cached. */
  lemma {:induction false} InsertUndisturbed(t: Tree, t': Tree, hs: seq<Key>, key: Key, n: nat, value: seq<int>)
    requires Shape(t) && Shape(t') && |key| <= |value| && Locks(t, hs)
    requires LongestCached(t, key, n) && Inserted(t, t', key, n, value)
    ensures Undisturbed(t, t', hs)
  {
    forall h, k | h in hs && k <= h ensures Slot(t', k) == Slot(t, k) {
      if n < |k| && k <= key {
        assert k == key[..|k|];
        CachedExactly(t, k);
      }
    }
  }

  /** Over any run of operations that disturb no holder, what a holder reads stays what it was. */
  lemma {:induction false} HeldThroughout(ts: seq<Tree>, hss: seq<seq<Key>>, h: Key, k: Key)
    requires |ts| == |hss| + 1 && (forall i :: 0 <= i < |ts| ==> Shape(ts[i]))
    requires forall i :: 0 <= i < |hss| ==> h in hss[i] && Undisturbed(ts[i], ts[i + 1], hss[i])
    requires k <= h
    ensures Slot(ts[|hss|], k) == Slot(ts[0], k)
    decreases |hss|
  {
    if hss != [] {
      var n := |hss| - 1;
      HeldThroughout(ts[..|hss|], hss[..n], h, k);
    }
  }

  // ----- what is cached after an insertion

  lemma {:induction false} HeldIsCached(t: Tree, h: Key, key: Key, n: nat)
    requires Shape(t) && h in t && h <= key && LongestCached(t, key, n)
    ensures |h| <= n
  {
    if h != [] {
      CachedExactly(t, h);
      assert key[..|h|] == h;
    }
  }

  lemma {:induction false} NodeIsCached(t: Tree, key: Key, n: nat)
    requires Shape(t) && key in t && LongestCached(t, key, n)
    ensures n == |key|
  {
    HeldIsCached(t, key, key, n);
  }

  /** Slots in the tree, freed, or still owned by the request alone: none is lost or doubled. */
  ghost predicate Balanced(t: Tree, freed: seq<int>, own: seq<int>, t': Tree, freed': seq<int>, own': seq<int>) {
    forall x :: Stored(t', x) + multiset(freed')[x] + multiset(own')[x]
             == Stored(t, x) + multiset(freed)[x] + multiset(own)[x]
  }

  lemma {:induction false} InsertBalanced(t: Tree, t': Tree, key: Key, n: nat, row: seq<int>, p: nat, freed: seq<int>)
    requires Shape(t) && Shape(t') && p <= n <= |key| <= |row|
    requires Inserted(t, t', key, n, row[..|key|])
    ensures Balanced(t, freed, row[p..], t', freed + row[p..n], row[|key|..])
  {
    hide Shape, Slot, Stored;
    assert row[..|key|][n..|key|] == row[n..|key|];
    assert row[p..] == row[p..n] + row[n..|key|] + row[|key|..];
  }

  lemma {:induction false} NothingBalanced(t: Tree, hs: seq<Key>, key: Key, row: seq<int>, p: nat, freed: seq<int>)
    requires Shape(t) && p <= |key| <= |row|
    ensures Undisturbed(t, t, hs)
    ensures Balanced(t, freed, row[p..], t, freed + row[p..|key|], row[|key|..])
  {
    hide Shape, Slot, Stored;
    assert row[p..] == row[p..|key|] + row[|key|..];
  }

  lemma {:induction false} TailBalanced(t: Tree, freed: seq<int>, own: seq<int>, t1: Tree, freed1: seq<int>,
                                        own1: seq<int>)
    requires Balanced(t, freed, own, t1, freed1, own1)
    ensures Balanced(t, freed, own, t1, freed1 + own1, [])
  {
    hide Stored;
  }

  lemma {:induction false} SameBalanced(t: Tree, freed: seq<int>, own: seq<int>, t1: Tree, freed1: seq<int>,
                                        own1: seq<int>, t2: Tree)
    requires Shape(t1) && Shape(t2) && Balanced(t, freed, own, t1, freed1, own1) && SameMeaning(t1, t2)
    ensures Balanced(t, freed, own, t2, freed1, own1)
  {
    hide Shape, Slot, Stored;
  }

  lemma {:induction false} SameUndisturbed(t: Tree, t1: Tree, t2: Tree, hs: seq<Key>)
    requires Shape(t) && Shape(t1) && Shape(t2) && Undisturbed(t, t1, hs) && SameMeaning(t1, t2)
    ensures Undisturbed(t, t2, hs)
  {
    hide Shape, Slot, Stored;
  }

  lemma {:induction false} SameInserted(t: Tree, t1: Tree, t2: Tree, key: Key, n: nat, value: seq<int>)
    requires Shape(t) && Shape(t1) && Shape(t2) && |key| <= |value|
    requires Inserted(t, t1, key, n, value) && SameMeaning(t1, t2)
    ensures Inserted(t, t2, key, n, value)
  {
    hide Shape, Slot, Stored;
  }

  lemma {:induction false} InsertedNode(t: Tree, t': Tree, key: Key, n: nat, value: seq<int>)
    requires Shape(t) && Shape(t') && |key| <= |value| && Inserted(t, t', key, n, value)
    ensures key in t'
  {
  }

  lemma {:induction false} HeldIsNode(t: Tree, hs: seq<Key>, h: Key)
    requires Locks(t, hs) && h in hs
    ensures h in t
  {
  }

  /** The lock on `h` is given back and one on `h'` taken. */
  ghost predicate Swapped(hs: seq<Key>, h: Key, hs': seq<Key>, h': Key) {
    hs' != [] && hs'[0] == h' && Released(hs, h, hs'[1..])
  }

  /** What is read along a held path does not depend on what else happens. */
  lemma {:induction false} ReadsAgree(t: Tree, key: Key, a: seq<int>, b: seq<int>)
    requires Shape(t) && ReadOff(t, key, a) && ReadOff(t, key, b) && |a| <= |b|
    ensures a <= b
  {
    hide Shape, Slot;
    forall i | 0 <= i < |a| ensures a[i] == b[i] {
      assert Slot(t, key[..i + 1]) == Some(a[i]) && Slot(t, key[..i + 1]) == Some(b[i]);
    }
  }

  lemma {:induction false} ReadKept(t: Tree, t': Tree, h: Key, hs: seq<Key>, key: Key, a: seq<int>, b: seq<int>)
    requires Shape(t) && Shape(t') && Undisturbed(t, t', hs) && h in hs && h <= key && |a| == |h| <= |b|
    requires ReadOff(t, key, a) && ReadOff(t', key, b)
    ensures a <= b
  {
    hide Shape, Slot;
    forall i | 0 <= i < |a| ensures Slot(t', key[..i + 1]) == Some(a[i]) {
      assert key[..i + 1] <= h;
    }
    ReadsAgree(t', key, a, b);
  }

  // ----- the four things that happen to the cache, as relations between its states

  /** A new request for `key` reads a cached prefix of it, holds that, and owns freshly allocated
      slots beside it. */
  ghost predicate Starting(t: Tree, hs: seq<Key>, t': Tree, hs': seq<Key>,
                           key: Key, row: seq<int>, h: Key, given: seq<int>)
  {
    && Shape(t) && Shape(t') && Locks(t', hs') && hs' == [h] + hs && SameMeaning(t, t') && h <= key
    && |h| <= |row| && row[|h|..] == given && ReadOff(t', h, row[..|h|])
  }

  /** A request for `key` hands slots over and holds `h'`, as long a prefix of its key or a longer
      one, instead of `h` from then on. */
  ghost predicate HandingOver(t: Tree, freed: seq<int>, hs: seq<Key>, row: seq<int>, h: Key, key: Key,
                              t': Tree, freed': seq<int>, hs': seq<Key>, row': seq<int>, h': Key)
  {
    && h <= h' && h' <= key
    && Shape(t) && Shape(t') && Locks(t', hs') && Swapped(hs, h, hs', h') && Undisturbed(t, t', hs)
    && |h| <= |row| && |h'| <= |row'| && ReadOff(t', h', row'[..|h'|])
    && freed <= freed' && Balanced(t, freed, row[|h|..], t', freed', row'[|h'|..])
  }

  /** A request hands everything over and holds nothing any more. */
  ghost predicate Ending(t: Tree, freed: seq<int>, hs: seq<Key>, row: seq<int>, h: Key,
                         t': Tree, freed': seq<int>, hs': seq<Key>)
  {
    && Shape(t) && Shape(t') && Locks(t', hs') && Released(hs, h, hs') && Undisturbed(t, t', hs)
    && |h| <= |row| && freed <= freed' && Balanced(t, freed, row[|h|..], t', freed', [])
  }

  ghost predicate Evicting(t: Tree, freed: seq<int>, hs: seq<Key>, t': Tree, freed': seq<int>) {
    && Shape(t) && Shape(t') && Locks(t', hs) && Undisturbed(t, t', hs)
    && freed <= freed' && Conserved(t, freed, t', freed')
  }

  /** What `RadixCache.Evict` promises is an eviction in this sense. */
  lemma {:induction false} EvictionIsOne(t: Tree, freed: seq<int>, hs: seq<Key>, t': Tree, freed': seq<int>)
    requires Shape(t) && Shape(t') && Locks(t', hs) && OnlyForgets(t, t', hs)
    requires freed <= freed' && Conserved(t, freed, t', freed')
    ensures Evicting(t, freed, hs, t', freed')
  {
    ForgetsUndisturbed(t, t', hs);
  }

  lemma {:induction false} ReadsOwnPath(t: Tree, h: Key, key: Key, row: seq<int>)
    requires Shape(t) && h <= key && |row| == |h|
    ensures ReadOff(t, key, row) <==> ReadOff(t, h, row)
  {
    hide Shape, Slot;
    forall i | 0 <= i < |row| ensures Slot(t, key[..i + 1]) == Some(row[i]) <==> Slot(t, h[..i + 1]) == Some(row[i]) {
      assert key[..i + 1] == h[..i + 1];
    }
  }

  lemma {:induction false} HandedOver(t: Tree, freed: seq<int>, hs: seq<Key>, row: seq<int>, h: Key, key: Key,
                                      t': Tree, freed': seq<int>, rest: seq<Key>, row': seq<int>, h': Key)
    requires Shape(t) && Shape(t') && Locks(t', [h'] + rest) && Released(hs, h, rest) && Undisturbed(t, t', hs)
    requires |h| <= |row| && |h'| <= |row'| && ReadOff(t', h', row'[..|h'|])
    requires freed <= freed' && Balanced(t, freed, row[|h|..], t', freed', row'[|h'|..]) && h <= h' && h' <= key
    ensures HandingOver(t, freed, hs, row, h, key, t', freed', [h'] + rest, row', h')
  {
    hide Shape, Locks, Released, Undisturbed, ReadOff, Balanced;
    assert ([h'] + rest)[1..] == rest;
  }

  // ----- the request

  class Request {
    var row: seq<int>
    var protectedLen: nat
    var lastNode: Key

    constructor (row: seq<int>, protectedLen: nat, lastNode: Key)
      ensures this.row == row && this.protectedLen == protectedLen && this.lastNode == lastNode
    {
      this.row, this.protectedLen, this.lastNode := row, protectedLen, lastNode;
    }

    /** The request's key extends what it holds, and its row reads the held slots off the tree. */
    ghost predicate Holds(cache: RadixCache, key: Key)
      reads this, cache
    {
      && cache.Valid() && lastNode in cache.holders && lastNode <= key
      && |lastNode| == protectedLen && |key| <= |row|
      && ReadOff(cache.nodes, key, row[..protectedLen])
    }

    /** Admission: match as much of the prompt as is cached, hold it, and take slots for the rest. */
    static method Start(cache: RadixCache, prompt: Key, given: seq<int>) returns (r: Request)
      requires cache.Valid()
      modifies cache
      ensures fresh(r) && cache.Valid() && r.lastNode <= prompt && |r.lastNode| == r.protectedLen &&
        cache.freed == old(cache.freed)
      ensures LongestCached(old(cache.nodes), prompt, r.protectedLen)
      ensures |prompt| <= |r.row| ==> r.Holds(cache, prompt)
      ensures Starting(old(cache.nodes), old(cache.holders), cache.nodes, cache.holders,
                       prompt, r.row, r.lastNode, given)
    {
      hide Shape, Slot, Weight, Locks, Leaves, ReadOff, SameMeaning, LongestCached;
      ghost var t := cache.nodes;
      var value, last := cache.MatchPrefix(prompt);
      ghost var t1 := cache.nodes;
      var delta := cache.IncLockRef(last);
      SameTwice(t, t1, cache.nodes);
      ReadMoves(t, cache.nodes, prompt, value);
      ReadsOwnPath(cache.nodes, last, prompt, value);
      r := new Request(value + given, |value|, last);
      assert r.row[..|value|] == value && r.row[|value|..] == given;
    }

    /** `cache_unfinished_req`: cache what the request has computed so far, free the slots that
        turned out to be duplicates, and hold the whole key instead of what was held before. */
    method CacheUnfinished(cache: RadixCache, key: Key) returns (reused: nat)
      requires Holds(cache, key)
      modifies this, cache
      ensures Holds(cache, key) && lastNode == key && |row| == |old(row)|
      ensures LongestCached(old(cache.nodes), key, reused) && old(protectedLen) <= reused <= |key|
      ensures Inserted(old(cache.nodes), cache.nodes, key, reused, old(row)[..|key|])
      ensures cache.freed == old(cache.freed) + old(row)[old(protectedLen)..reused]
      ensures row[protectedLen..] == old(row)[|key|..]
      ensures HandingOver(old(cache.nodes), old(cache.freed), old(cache.holders), old(row), old(lastNode), key,
                          cache.nodes, cache.freed, cache.holders, row, lastNode)
    {
      hide Shape, Slot, Weight, Locks, Leaves, ReadOff, SameMeaning, LongestCached, Inserted, Undisturbed, Balanced,
        Released, HandingOver;
      ghost var t := cache.nodes;
      HeldIsNode(cache.nodes, cache.holders, lastNode);
      reused := cache.Insert(key, row[..|key|]);
      ghost var t1 := cache.nodes;
      HeldIsCached(t, lastNode, key, reused);
      InsertBalanced(t, t1, key, reused, row, protectedLen, cache.freed);
      InsertUndisturbed(t, t1, cache.holders, key, reused, row[..|key|]);
      cache.freed := cache.freed + row[protectedLen..reused];
      InsertedNode(t, t1, key, reused, row[..|key|]);
      var indices, last := cache.MatchPrefix(key);
      ghost var t2 := cache.nodes;
      NodeIsCached(t1, key, |indices|);
      assert |indices| == |key| && last == key;
      ReadKept(t, t1, lastNode, cache.holders, key, row[..protectedLen], indices);
      row := row[..protectedLen] + indices[protectedLen..] + row[|key|..];
      assert row[..|key|] == indices;
      protectedLen := |indices|;
      HeldIsNode(cache.nodes, cache.holders, lastNode);
      var freedUp := cache.DecLockRef(lastNode);
      ghost var t3 := cache.nodes;
      label Unlocked:
      var taken := cache.IncLockRef(last);
      lastNode := last;
      SameTwice(t1, t2, t3);
      SameTwice(t1, t3, cache.nodes);
      SameInserted(t, t1, cache.nodes, key, reused, old(row)[..|key|]);
      SameUndisturbed(t, t1, cache.nodes, old(cache.holders));
      SameBalanced(t, old(cache.freed), old(row)[old(protectedLen)..], t1, cache.freed, row[|key|..], cache.nodes);
      ReadMoves(t1, cache.nodes, key, indices);
      ReadsOwnPath(cache.nodes, key, key, indices);
      HandedOver(t, old(cache.freed), old(cache.holders), old(row), old(lastNode), key,
                 cache.nodes, cache.freed, old@Unlocked(cache.holders), row, key);
    }

    /** `cache_finished_req`: the same hand-over when the request ends, after which it owns and
        holds nothing; without insertion its slots are freed. */
    method CacheFinished(cache: RadixCache, key: Key, isInsert: bool) returns (reused: nat)
      requires Holds(cache, key)
      modifies cache
      ensures cache.Valid() && protectedLen <= reused <= |key|
      ensures isInsert ==> LongestCached(old(cache.nodes), key, reused)
      ensures isInsert ==> Inserted(old(cache.nodes), cache.nodes, key, reused, row[..|key|])
      ensures !isInsert ==> reused == |key| && SameMeaning(old(cache.nodes), cache.nodes)
      ensures cache.freed == old(cache.freed) + row[protectedLen..reused] + row[|key|..]
      ensures Ending(old(cache.nodes), old(cache.freed), old(cache.holders), row, lastNode,
                     cache.nodes, cache.freed, cache.holders)
    {
      hide Shape, Slot, Weight, Locks, Leaves, ReadOff, SameMeaning, LongestCached, Inserted, Undisturbed, Balanced,
        Released;
      ghost var t, value := cache.nodes, row[..|key|];
      HeldIsNode(t, cache.holders, lastNode);
      if isInsert {
        reused := cache.Insert(key, row[..|key|]);
        HeldIsCached(t, lastNode, key, reused);
        InsertBalanced(t, cache.nodes, key, reused, row, protectedLen, cache.freed);
        InsertUndisturbed(t, cache.nodes, cache.holders, key, reused, value);
      } else {
        reused := |key|;
        NothingBalanced(t, cache.holders, key, row, protectedLen, cache.freed);
      }
      ghost var t1 := cache.nodes;
      cache.freed := cache.freed + row[protectedLen..reused];
      TailBalanced(t, old(cache.freed), row[protectedLen..], t1, cache.freed, row[|key|..]);
      cache.freed := cache.freed + row[|key|..];
      HeldIsNode(cache.nodes, cache.holders, lastNode);
      var freedUp := cache.DecLockRef(lastNode);
      SameUndisturbed(t, t1, cache.nodes, old(cache.holders));
      SameBalanced(t, old(cache.freed), row[protectedLen..], t1, cache.freed, [], cache.nodes);
      if isInsert { SameInserted(t, t1, cache.nodes, key, reused, value); }
    }
  }
}
