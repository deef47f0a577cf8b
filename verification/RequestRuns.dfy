/** Any number of requests sharing one prefix cache, over whole runs: admission, decoding, hand-over,
    the end of a request, and eviction at any time, in any order. The steps that touch the cache are the
    relations which the methods of `Request` and `RadixCache` are proved to satisfy. */
module RequestRuns {
  import opened Prelude
  import opened RadixTree
  import opened RadixState
  import opened RadixCaching
  import opened RequestCaching

  /** A request's tokens so far, and its KV slots, of which the first |held| belong to the tree. */
  datatype Req = Req(key: Key, row: seq<int>, held: Key)

  /** `given` is everything the allocator ever handed out, `freed` all it got back. */
  datatype Pool = Pool(tree: Tree, freed: seq<int>, holders: seq<Key>, reqs: seq<Req>, given: seq<int>)

  datatype Step =
    | Start(tree: Tree, holders: seq<Key>, req: Req, slots: seq<int>)
    | Decode(i: nat, units: Key, slots: seq<int>)
    | HandOver(i: nat, tree: Tree, freed: seq<int>, holders: seq<Key>, req: Req)
    | Finish(i: nat, tree: Tree, freed: seq<int>, holders: seq<Key>)
    | Evict(tree: Tree, freed: seq<int>)

  const EmptyPool := Pool(EmptyTree, [], [], [], [])

  // ----- who owns a slot

  ghost function Mine(r: Req, x: int): int { if |r.held| <= |r.row| then multiset(r.row[|r.held|..])[x] else 0 }

  ghost function Private(rs: seq<Req>, x: int): int {
    if rs == [] then 0 else Private(rs[..|rs| - 1], x) + Mine(rs[|rs| - 1], x)
  }

  /** In how many places slot `x` is in use. */
  ghost function InUse(p: Pool, x: int): int { Stored(p.tree, x) + Private(p.reqs, x) }

  lemma {:induction false} PrivateUpdate(rs: seq<Req>, i: nat, r: Req, x: int)
    requires i < |rs|
    ensures Private(rs[i := r], x) == Private(rs, x) - Mine(rs[i], x) + Mine(r, x)
  {
    var n := |rs| - 1;
    if i < n {
      PrivateUpdate(rs[..n], i, r, x);
      assert rs[i := r][..n] == rs[..n][i := r];
    } else {
      assert rs[i := r][..n] == rs[..n];
    }
  }

  lemma {:induction false} PrivateRemove(rs: seq<Req>, i: nat, x: int)
    requires i < |rs|
    ensures Private(rs[..i] + rs[i + 1..], x) == Private(rs, x) - Mine(rs[i], x)
  {
    var n := |rs| - 1;
    var rest := rs[..i] + rs[i + 1..];
    if i < n {
      PrivateRemove(rs[..n], i, x);
      assert rest[..|rest| - 1] == rs[..n][..i] + rs[..n][i + 1..];
    } else {
      assert rest == rs[..n];
    }
  }

  lemma {:induction false} PrivateSnoc(rs: seq<Req>, r: Req, x: int)
    ensures Private(rs + [r], x) == Private(rs, x) + Mine(r, x)
  {
    assert (rs + [r])[..|rs|] == rs;
  }

  function Helds(rs: seq<Req>): seq<Key> { seq(|rs|, i requires 0 <= i < |rs| => rs[i].held) }

  // ----- the transition system

  /** What the allocator hands out is in use nowhere, and nothing twice. */
  ghost predicate Unused(p: Pool, slots: seq<int>) {
    forall x :: multiset(slots)[x] > 0 ==> multiset(slots)[x] == 1 && InUse(p, x) == 0
  }

  ghost predicate Enabled(p: Pool, s: Step) {
    match s
    case Start(t, hs, r, slots) => Unused(p, slots) && Starting(p.tree, p.holders, t, hs, r.key, r.row, r.held, slots)
    case Decode(i, _, slots) => i < |p.reqs| && Unused(p, slots)
    case HandOver(i, t, f, hs, r) =>
      && i < |p.reqs| && r.key == p.reqs[i].key
      && HandingOver(p.tree, p.freed, p.holders, p.reqs[i].row, p.reqs[i].held, r.key, t, f, hs, r.row, r.held)
    case Finish(i, t, f, hs) =>
      i < |p.reqs| && Ending(p.tree, p.freed, p.holders, p.reqs[i].row, p.reqs[i].held, t, f, hs)
    case Evict(t, f) => Evicting(p.tree, p.freed, p.holders, t, f)
  }

  ghost function Apply(p: Pool, s: Step): Pool
    requires Enabled(p, s)
  {
    match s
    case Start(t, hs, r, slots) => Pool(t, p.freed, hs, p.reqs + [r], p.given + slots)
    case Decode(i, units, slots) =>
      var r := p.reqs[i];
      p.(reqs := p.reqs[i := r.(key := r.key + units, row := r.row + slots)], given := p.given + slots)
    case HandOver(i, t, f, hs, r) => p.(tree := t, freed := f, holders := hs, reqs := p.reqs[i := r])
    case Finish(i, t, f, hs) => p.(tree := t, freed := f, holders := hs, reqs := p.reqs[..i] + p.reqs[i + 1..])
    case Evict(t, f) => p.(tree := t, freed := f)
  }

  ghost predicate IsRun(ps: seq<Pool>, steps: seq<Step>) {
    && |ps| == |steps| + 1 && ps[0] == EmptyPool
    && forall k :: 0 <= k < |steps| ==> Enabled(ps[k], steps[k]) && ps[k + 1] == Apply(ps[k], steps[k])
  }

  // ----- the invariant

  /** The request holds a prefix of its own tokens, and its row reads the slots of that off the tree. */
  ghost predicate Reads(t: Tree, r: Req)
    requires Shape(t)
  {
    r.held <= r.key && |r.held| <= |r.row| && ReadOff(t, r.held, r.row[..|r.held|])
  }

  /** Every slot given out is stored, owned by one request, or given back. */
  ghost predicate Accounted(p: Pool) {
    forall x :: InUse(p, x) + multiset(p.freed)[x] == multiset(p.given)[x]
  }

  ghost predicate UsedOnce(p: Pool) { forall x :: InUse(p, x) <= 1 }

  ghost predicate Good(p: Pool) {
    && Shape(p.tree) && Locks(p.tree, p.holders)
    && multiset(p.holders) == multiset(Helds(p.reqs))
    && (forall i :: 0 <= i < |p.reqs| ==> Reads(p.tree, p.reqs[i]))
    && Accounted(p) && UsedOnce(p)
  }

  lemma {:induction false} HeldIsHolder(p: Pool, i: nat)
    requires Good(p) && i < |p.reqs|
    ensures p.reqs[i].held in p.holders
  {
    assert Helds(p.reqs)[i] in multiset(p.holders);
  }

  /** A holder's reading survives whatever leaves holders undisturbed. */
  lemma {:induction false} StillReads(t: Tree, t': Tree, hs: seq<Key>, r: Req)
    requires Shape(t) && Shape(t') && Undisturbed(t, t', hs) && r.held in hs && Reads(t, r)
    ensures Reads(t', r)
  {
    hide Shape, Slot;
    var row := r.row[..|r.held|];
    forall i | 0 <= i < |row| ensures Slot(t', r.held[..i + 1]) == Some(row[i]) {
      assert r.held[..i + 1] <= r.held;
    }
  }

  lemma {:induction false} ReleasedBag(hs: seq<Key>, h: Key, hs': seq<Key>)
    requires Released(hs, h, hs')
    ensures multiset(hs) == multiset(hs') + multiset{h}
  {
    var i :| 0 <= i < |hs| && hs[i] == h && hs' == hs[..i] + hs[i + 1..];
    assert hs == hs[..i] + [hs[i]] + hs[i + 1..];
  }

  lemma {:induction false} HeldsUpdate(rs: seq<Req>, i: nat, r: Req)
    requires i < |rs|
    ensures multiset(Helds(rs[i := r])) + multiset{rs[i].held} == multiset(Helds(rs)) + multiset{r.held}
  {
    assert Helds(rs[i := r]) == Helds(rs)[i := r.held];
    assert Helds(rs)[i] == rs[i].held;
  }

  lemma {:induction false} HeldsRemove(rs: seq<Req>, i: nat)
    requires i < |rs|
    ensures multiset(Helds(rs)) == multiset(Helds(rs[..i] + rs[i + 1..])) + multiset{rs[i].held}
  {
    var hs := Helds(rs);
    assert Helds(rs[..i] + rs[i + 1..]) == hs[..i] + hs[i + 1..];
    assert hs == hs[..i] + [hs[i]] + hs[i + 1..];
  }

  lemma {:induction false} StartReads(p: Pool, s: Step, j: nat)
    requires Good(p) && s.Start? && Enabled(p, s) && j <= |p.reqs|
    ensures Shape(s.tree) && Reads(s.tree, Apply(p, s).reqs[j])
  {
    if j < |p.reqs| {
      HeldIsHolder(p, j);
      assert Reads(p.tree, p.reqs[j]);
      hide Shape, Slot, Locks, Stored, Private, Helds, Reads, Accounted, UsedOnce, Undisturbed, SameMeaning, ReadOff;
      SameIsUndisturbed(p.tree, s.tree, p.holders);
      StillReads(p.tree, s.tree, p.holders, p.reqs[j]);
    }
  }

  lemma {:induction false} StartGood(p: Pool, s: Step)
    requires Good(p) && s.Start? && Enabled(p, s)
    ensures Good(Apply(p, s))
  {
    hide Shape, Slot, Locks, InUse, Helds, Reads, SameMeaning, ReadOff, UsedOnce, Accounted;
    var p' := Apply(p, s);
    HeldsSnoc(p.reqs, s.req);
    forall j: nat | j < |p'.reqs| ensures Shape(p'.tree) && Reads(p'.tree, p'.reqs[j]) { StartReads(p, s, j); }
    forall x ensures InUse(p', x) == InUse(p, x) + multiset(s.slots)[x] { StartUse(p, s, x); }
    GivenAccounted(p, p', s.slots);
  }

  lemma {:induction false} HeldsSnoc(rs: seq<Req>, r: Req)
    ensures Helds(rs + [r]) == Helds(rs) + [r.held]
  {
  }

  /** Handing out unused slots keeps the account right. */
  lemma {:induction false} GivenAccounted(p: Pool, p': Pool, slots: seq<int>)
    requires Accounted(p) && UsedOnce(p) && Unused(p, slots) && p'.given == p.given + slots && p'.freed == p.freed
    requires forall x :: InUse(p', x) == InUse(p, x) + multiset(slots)[x]
    ensures Accounted(p') && UsedOnce(p')
  {
    hide InUse;
  }

  lemma {:induction false} SameIsUndisturbed(t: Tree, t': Tree, hs: seq<Key>)
    requires Shape(t) && Shape(t') && SameMeaning(t, t')
    ensures Undisturbed(t, t', hs)
  {
    hide Shape, Slot;
  }

  lemma {:induction false} StartUse(p: Pool, s: Step, x: int)
    requires s.Start? && Enabled(p, s)
    ensures InUse(Apply(p, s), x) == InUse(p, x) + multiset(s.slots)[x]
  {
    PrivateSnoc(p.reqs, s.req, x);
    hide Stored, Private, Shape, Slot, Locks;
  }

  lemma {:induction false} DecodeGood(p: Pool, s: Step)
    requires Good(p) && s.Decode? && Enabled(p, s)
    ensures Good(Apply(p, s))
  {
    var p' := Apply(p, s);
    var r := p.reqs[s.i];
    assert Reads(p.tree, r);
    hide Shape, Slot, Locks, Stored, Private;
    assert p'.reqs[s.i].row[..|r.held|] == r.row[..|r.held|];
    assert p'.reqs[s.i].row[|r.held|..] == r.row[|r.held|..] + s.slots;
    assert Helds(p'.reqs) == Helds(p.reqs);
    forall x ensures InUse(p', x) == InUse(p, x) + multiset(s.slots)[x] {
      PrivateUpdate(p.reqs, s.i, p'.reqs[s.i], x);
    }
  }

  lemma {:induction false} HandOverGood(p: Pool, s: Step)
    requires Good(p) && s.HandOver? && Enabled(p, s)
    ensures Good(Apply(p, s))
  {
    var p' := Apply(p, s);
    HandOverBags(p, s);
    hide Shape, Slot, Locks, Stored, Private, Helds;
    forall j | 0 <= j < |p'.reqs| ensures Reads(p'.tree, p'.reqs[j]) {
      if j != s.i {
        HeldIsHolder(p, j);
        StillReads(p.tree, p'.tree, p.holders, p.reqs[j]);
      }
    }
    forall x ensures Settled(p, p', x) {
      PrivateUpdate(p.reqs, s.i, s.req, x);
      FreedGrows(p.freed, p'.freed, x);
    }
    StaysAccounted(p, p');
  }

  /** Between the two states slot `x` went nowhere but back to the allocator. */
  ghost predicate Settled(p: Pool, p': Pool, x: int) {
    && InUse(p', x) + multiset(p'.freed)[x] == InUse(p, x) + multiset(p.freed)[x]
    && multiset(p.freed)[x] <= multiset(p'.freed)[x]
  }

  lemma {:induction false} StaysAccounted(p: Pool, p': Pool)
    requires Accounted(p) && UsedOnce(p) && p'.given == p.given && forall x :: Settled(p, p', x)
    ensures Accounted(p') && UsedOnce(p')
  {
    hide InUse;
    forall x ensures InUse(p', x) + multiset(p'.freed)[x] == multiset(p'.given)[x] && InUse(p', x) <= 1 {
      assert Settled(p, p', x);
    }
  }

  lemma {:induction false} FreedGrows(freed: seq<int>, freed': seq<int>, x: int)
    requires freed <= freed'
    ensures multiset(freed)[x] <= multiset(freed')[x]
  {
    assert freed' == freed + freed'[|freed|..];
  }

  lemma {:induction false} HandOverBags(p: Pool, s: Step)
    requires Good(p) && s.HandOver? && Enabled(p, s)
    ensures multiset(s.holders) == multiset(Helds(p.reqs[s.i := s.req]))
  {
    hide Shape, Slot, Locks, Stored, Private, Undisturbed, Balanced, ReadOff, Helds;
    var h := p.reqs[s.i].held;
    ReleasedBag(p.holders, h, s.holders[1..]);
    HeldsUpdate(p.reqs, s.i, s.req);
    assert s.holders == [s.req.held] + s.holders[1..];
    BagSwap(multiset(p.holders), multiset(s.holders[1..]), multiset(Helds(p.reqs[s.i := s.req])), h, s.req.held);
  }

  lemma {:induction false} BagSwap(all: multiset<Key>, rest: multiset<Key>, now: multiset<Key>, h: Key, h': Key)
    requires all == rest + multiset{h} && now + multiset{h} == all + multiset{h'}
    ensures now == rest + multiset{h'}
  {
    forall k ensures now[k] == (rest + multiset{h'})[k] { assert (now + multiset{h})[k] == (all + multiset{h'})[k]; }
  }

  lemma {:induction false} FinishReads(p: Pool, s: Step, j: nat)
    requires Good(p) && s.Finish? && Enabled(p, s) && j < |p.reqs| - 1
    ensures Shape(s.tree) && Reads(s.tree, Apply(p, s).reqs[j])
  {
    var k := if j < s.i then j else j + 1;
    HeldIsHolder(p, k);
    assert Reads(p.tree, p.reqs[k]);
    hide Shape, Slot, Locks, Stored, Private, Helds, Reads, Accounted, UsedOnce, Balanced, Undisturbed, Released;
    StillReads(p.tree, s.tree, p.holders, p.reqs[k]);
  }

  lemma {:induction false} FinishSettles(p: Pool, s: Step, x: int)
    requires s.Finish? && Enabled(p, s)
    ensures Settled(p, Apply(p, s), x)
  {
    hide Shape, Slot, Locks, Stored, Private, Undisturbed, Released;
    PrivateRemove(p.reqs, s.i, x);
    FreedGrows(p.freed, s.freed, x);
  }

  lemma {:induction false} FinishBags(p: Pool, s: Step)
    requires Good(p) && s.Finish? && Enabled(p, s)
    ensures multiset(s.holders) == multiset(Helds(Apply(p, s).reqs))
  {
    hide Shape, Slot, Locks, Stored, Private, Undisturbed, Balanced, Helds, Reads, Accounted, UsedOnce;
    var h, rest := p.reqs[s.i].held, p.reqs[..s.i] + p.reqs[s.i + 1..];
    ReleasedBag(p.holders, h, s.holders);
    HeldsRemove(p.reqs, s.i);
    BagDrop(multiset(s.holders), multiset(Helds(rest)), h);
  }

  lemma {:induction false} BagDrop(a: multiset<Key>, b: multiset<Key>, h: Key)
    requires a + multiset{h} == b + multiset{h}
    ensures a == b
  {
    forall k ensures a[k] == b[k] { assert (a + multiset{h})[k] == (b + multiset{h})[k]; }
  }

  lemma {:induction false} FinishGood(p: Pool, s: Step)
    requires Good(p) && s.Finish? && Enabled(p, s)
    ensures Good(Apply(p, s))
  {
    var p' := Apply(p, s);
    FinishBags(p, s);
    forall j: nat | j < |p'.reqs| ensures Shape(p'.tree) && Reads(p'.tree, p'.reqs[j]) { FinishReads(p, s, j); }
    forall x ensures Settled(p, p', x) { FinishSettles(p, s, x); }
    hide Shape, Slot, Locks, Stored, Private, Helds, Reads, Accounted, UsedOnce, Settled, Balanced, Undisturbed,
      Released;
    StaysAccounted(p, p');
  }

  lemma {:induction false} EvictGood(p: Pool, s: Step)
    requires Good(p) && s.Evict? && Enabled(p, s)
    ensures Good(Apply(p, s))
  {
    var p' := Apply(p, s);
    hide Shape, Slot, Locks, Stored, Private, Helds;
    forall j | 0 <= j < |p.reqs| ensures Reads(p'.tree, p.reqs[j]) {
      HeldIsHolder(p, j);
      StillReads(p.tree, p'.tree, p.holders, p.reqs[j]);
    }
    forall x ensures Settled(p, p', x) { FreedGrows(p.freed, p'.freed, x); }
    StaysAccounted(p, p');
  }

  lemma {:induction false} StepGood(p: Pool, s: Step)
    requires Good(p) && Enabled(p, s)
    ensures Good(Apply(p, s))
  {
    hide Good, Enabled, Apply;
    match s
    case Start(_, _, _, _) => StartGood(p, s);
    case Decode(_, _, _) => DecodeGood(p, s);
    case HandOver(_, _, _, _, _) => HandOverGood(p, s);
    case Finish(_, _, _, _) => FinishGood(p, s);
    case Evict(_, _) => EvictGood(p, s);
  }

  lemma {:induction false} EmptyGood()
    ensures Good(EmptyPool)
  {
    EmptyConsistent();
    hide Stored;
  }

  /** In every run: a request holds a prefix of its own tokens and its row reads the slots of that off
      the tree, every slot the allocator gave out is stored, owned by one request or given back, and
      none is in two places. */
  lemma {:induction false} RunGood(ps: seq<Pool>, steps: seq<Step>, k: nat)
    requires IsRun(ps, steps) && k < |ps|
    ensures Good(ps[k])
  {
    hide Good, Enabled, Apply;
    if k == 0 {
      EmptyGood();
    } else {
      RunGood(ps, steps, k - 1);
      StepGood(ps[k - 1], steps[k - 1]);
    }
  }

  /** In every run the slot in a held place of a request's row is the one the tree caches for the
      request's own tokens up to there. */
  lemma {:induction false} OwnTokensRead(ps: seq<Pool>, steps: seq<Step>, k: nat, i: nat, n: nat)
    requires IsRun(ps, steps) && k < |ps| && i < |ps[k].reqs| && n < |ps[k].reqs[i].held|
    ensures var r := ps[k].reqs[i];
      Shape(ps[k].tree) && n < |r.key| && n < |r.row| && Slot(ps[k].tree, r.key[..n + 1]) == Some(r.row[n])
  {
    hide IsRun, Shape, Slot, Locks, Accounted, UsedOnce, Helds;
    RunGood(ps, steps, k);
    var r := ps[k].reqs[i];
    assert Reads(ps[k].tree, r);
    assert r.key[..n + 1] == r.held[..n + 1];
  }

  // ----- the count that the scheduler's self-check compares

  ghost function Uncached(rs: seq<Req>): int {
    if rs == [] then 0 else
      var r := rs[|rs| - 1];
      Uncached(rs[..|rs| - 1]) + if |r.held| <= |r.row| then |r.row| - |r.held| else 0
  }

  lemma {:induction false} StoreBag(s: set<Key>, t: Tree) returns (m: multiset<int>)
    requires s <= t.Keys
    ensures |m| == Total(s, t, Length) && forall x :: m[x] == Total(s, t, Keeps(x))
    decreases |s|
  {
    if s == {} {
      m := multiset{};
    } else {
      var p :| p in s;
      var rest := StoreBag(s - {p}, t);
      m := rest + multiset(t[p].value);
      TotalPick(s, t, Length, p);
      forall x ensures m[x] == Total(s, t, Keeps(x)) { TotalPick(s, t, Keeps(x), p); }
    }
  }

  lemma {:induction false} PrivateBag(rs: seq<Req>) returns (m: multiset<int>)
    ensures |m| == Uncached(rs) && forall x :: m[x] == Private(rs, x)
  {
    if rs == [] {
      m := multiset{};
    } else {
      var r := rs[|rs| - 1];
      m := PrivateBag(rs[..|rs| - 1]);
      m := m + if |r.held| <= |r.row| then multiset(r.row[|r.held|..]) else multiset{};
    }
  }

  /** The evictable, the protected and the requests' own slots are together exactly those given out
      and not given back. */
  lemma {:induction false} NothingLeaks(p: Pool, ev: int, pr: int, leaves: set<Key>)
    requires Good(p) && Consistent(p.tree, ev, pr, leaves, p.holders)
    ensures ev + pr + Uncached(p.reqs) == |p.given| - |p.freed|
  {
    var stored := StoreBag(p.tree.Keys, p.tree);
    var own := PrivateBag(p.reqs);
    FreeAndHeld(p.tree.Keys, p.tree);
    forall x ensures (stored + own + multiset(p.freed))[x] == multiset(p.given)[x] {
      assert InUse(p, x) + multiset(p.freed)[x] == multiset(p.given)[x];
    }
    assert stored + own + multiset(p.freed) == multiset(p.given);
    assert |multiset(p.given)| == |stored| + |own| + |multiset(p.freed)|;
  }
}
