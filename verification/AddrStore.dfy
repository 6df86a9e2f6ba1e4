/** Saving the address manager to disk and loading it back. */
module AddrStore {
  import opened AddrTables
  import opened AddrOps

  /** What is stored of an entry; the other statistics live in memory only. */
  datatype Entry = Entry(addr: Service, time: nat, services: set<nat>, source: int, lastSuccess: int, attempts: int)

  /** The stored form: new entries, tried entries, for each new bucket indexes into the former, and the address map. */
  datatype Saved = Saved(news: seq<Entry>, tried: seq<Entry>, buckets: seq<seq<int>>, asmap: int)

  function EntryOf(i: Info): Entry { Entry(i.addr, i.time, i.services, i.source, i.lastSuccess, i.attempts) }

  function InfoOf(e: Entry, inTried: bool, pos: int): Info {
    Info(e.addr, e.time, e.services, e.source, 0, 0, e.lastSuccess, e.attempts, 0, inTried, pos)
  }

  // ---- loading, step by step ----

  /** Loading looks entries up by their full service, whatever the port policy. */
  function WithNew(s: State, e: Entry): State {
    s.(idCount := s.idCount + 1, info := s.info[s.idCount := InfoOf(e, false, |s.random|)],
       ids := s.ids[e.addr := s.idCount], random := s.random + [s.idCount], nNew := s.nNew + 1)
  }

  function WithTried(cfg: Config, s: State, e: Entry): State {
    var sl := cfg.TriedSlot(e.addr);
    if sl in s.tried then s
    else
      s.(idCount := s.idCount + 1, info := s.info[s.idCount := InfoOf(e, true, |s.random|)],
         ids := s.ids[e.addr := s.idCount], random := s.random + [s.idCount], nTried := s.nTried + 1,
         tried := s.tried[sl := s.idCount])
  }

  function AllNew(s: State, news: seq<Entry>): State {
    if news == [] then s else WithNew(AllNew(s, news[..|news| - 1]), news[|news| - 1])
  }

  function AllTried(cfg: Config, s: State, tried: seq<Entry>): State {
    if tried == [] then s else WithTried(cfg, AllTried(cfg, s, tried[..|tried| - 1]), tried[|tried| - 1])
  }

  /** Entry `index` is given the position it had in bucket `b`, or else one chosen by its own source. */
  function Placed(cfg: Config, s: State, restore: bool, b: nat, index: int): State {
    if index !in s.info || s.info[index].refCount >= NEW_BUCKETS_PER_ADDRESS then s
    else
      var a := s.info[index].addr;
      var sl, home := cfg.NewSlot(a, b), cfg.NewSlot(a, cfg.newBucketOf(a, s.info[index].source));
      if restore && sl !in s.news then Claimed(s, sl, index)
      else if home !in s.news then Claimed(s, home, index)
      else s
  }

  function AllPlaced(cfg: Config, s: State, restore: bool, pairs: seq<(nat, int)>): State {
    if pairs == [] then s
    else var n := |pairs| - 1; Placed(cfg, AllPlaced(cfg, s, restore, pairs[..n]), restore, pairs[n].0, pairs[n].1)
  }

  /** New entries without a position are dropped. */
  function Pruned(cfg: Config, s: State, ids: seq<int>): State {
    if ids == [] then s
    else var n := |ids| - 1; Deleted(cfg, Pruned(cfg, s, ids[..n]), ids[n])
  }

  function BucketPairs(b: nat, bucket: seq<int>, count: nat): seq<(nat, int)> {
    if bucket == [] then []
    else
      var n := |bucket| - 1;
      BucketPairs(b, bucket[..n], count) + if 0 <= bucket[n] < count then [(b, bucket[n])] else []
  }

  function Pairs(buckets: seq<seq<int>>, count: nat): seq<(nat, int)> {
    if buckets == [] then []
    else var n := |buckets| - 1; Pairs(buckets[..n], count) + BucketPairs(n, buckets[n], count)
  }

  /** Everything before pruning. */
  function Filled(cfg: Config, s: State, saved: Saved, restore: bool): State {
    AllPlaced(cfg, AllTried(cfg, AllNew(s, saved.news), saved.tried), restore, Pairs(saved.buckets, |saved.news|))
  }

  // ---- what every file keeps while it is loaded ----

  ghost function LooseIds(info: map<int, Info>): set<int> {
    set id | id in info && !info[id].inTried && info[id].refCount == 0
  }

  /** Everything the manager's invariant says but for the lookup by address and the times, new entries that hold no
      position being allowed. */
  ghost predicate Loading(cfg: Config, s: State) {
    && RandomOk(s.info, s.random) && TriedOk(cfg, s.info, s.tried) && NewOk(cfg, s.info, s.news)
    && RefsOk(s.info, s.news) && CountOk(s.info, s.nTried, s.nNew, 0) && IdsOk(s.info, s.idCount)
    && LooseOk(s.info, LooseIds(s.info))
  }

  /** The index has exactly the services of the entries as keys; of entries with one service it names one. */
  ghost predicate RawIndex(info: map<int, Info>, ids: map<Service, int>) {
    && (forall a | a in ids :: ids[a] in info && info[ids[a]].addr == a)
    && (forall id | id in info :: info[id].addr in ids)
  }

  lemma {:induction false} NewEntryIndexes(s: State, i: Info)
    requires RandomOk(s.info, s.random) && IdsOk(s.info, s.idCount) && i.randomPos == |s.random|
    ensures RandomOk(s.info[s.idCount := i], s.random + [s.idCount]) && IdsOk(s.info[s.idCount := i], s.idCount + 1)
    ensures RawIndex(s.info, s.ids) ==> RawIndex(s.info[s.idCount := i], s.ids[i.addr := s.idCount])
  {
    assert s.idCount !in s.info;
  }

  lemma {:induction false} WithNewTables(cfg: Config, s: State, e: Entry)
    requires Loading(cfg, s)
    ensures var t := WithNew(s, e);
            && TriedOk(cfg, t.info, t.tried) && NewOk(cfg, t.info, t.news) && RefsOk(t.info, t.news)
            && LooseOk(t.info, LooseIds(t.info)) && CountOk(t.info, t.nTried, t.nNew, 0)
  {
    hide RandomOk, Held;
    var t := WithNew(s, e);
    assert s.idCount !in s.info;
    NoneHeld(cfg, s.info, s.news, s.idCount);
    assert Untried(t.info) == Untried(s.info) + {s.idCount} && TriedIds(t.info) == TriedIds(s.info);
  }

  lemma {:induction false} WithNewKeeps(cfg: Config, s: State, e: Entry)
    requires Loading(cfg, s) && RawIndex(s.info, s.ids)
    ensures Loading(cfg, WithNew(s, e)) && RawIndex(WithNew(s, e).info, WithNew(s, e).ids)
  {
    hide RandomOk, TriedOk, NewOk, RefsOk, CountOk, LooseOk, IdsOk, RawIndex;
    NewEntryIndexes(s, InfoOf(e, false, |s.random|));
    WithNewTables(cfg, s, e);
  }

  lemma {:induction false} WithTriedTables(cfg: Config, s: State, e: Entry)
    requires Loading(cfg, s) && cfg.TriedSlot(e.addr) !in s.tried
    ensures var t := WithTried(cfg, s, e);
            && TriedOk(cfg, t.info, t.tried) && NewOk(cfg, t.info, t.news) && RefsOk(t.info, t.news)
            && LooseOk(t.info, LooseIds(t.info)) && CountOk(t.info, t.nTried, t.nNew, 0)
  {
    hide RandomOk, Held;
    var t := WithTried(cfg, s, e);
    assert s.idCount !in s.info;
    NoneHeld(cfg, s.info, s.news, s.idCount);
    assert Untried(t.info) == Untried(s.info) && TriedIds(t.info) == TriedIds(s.info) + {s.idCount};
  }

  lemma {:induction false} WithTriedKeeps(cfg: Config, s: State, e: Entry)
    requires Loading(cfg, s) && RawIndex(s.info, s.ids)
    ensures Loading(cfg, WithTried(cfg, s, e)) && RawIndex(WithTried(cfg, s, e).info, WithTried(cfg, s, e).ids)
  {
    hide RandomOk, TriedOk, NewOk, RefsOk, CountOk, LooseOk, IdsOk, RawIndex;
    if cfg.TriedSlot(e.addr) !in s.tried {
      NewEntryIndexes(s, InfoOf(e, true, |s.random|));
      WithTriedTables(cfg, s, e);
    }
  }

  lemma {:induction false} ClaimKeeps(cfg: Config, s: State, sl: Slot, id: int)
    requires Loading(cfg, s) && sl !in s.news && id in s.info && !s.info[id].inTried
    requires sl == cfg.NewSlot(s.info[id].addr, sl.bucket) && sl.bucket < cfg.newBuckets
    requires s.info[id].refCount < NEW_BUCKETS_PER_ADDRESS
    ensures Loading(cfg, Claimed(s, sl, id))
  {
    hide TriedOk, CountOk, IdsOk, NewOk, RefsOk, RandomOk, LooseOk, LooseIds;
    var t := Claimed(s, sl, id);
    SameTablesKeep(cfg, s, t.info, 0);
    ClaimedIds(s, t.info);
    ClaimedTables(cfg, s, sl, id);
    ClaimedLoose(s, sl, id);
  }

  lemma {:induction false} ClaimedTables(cfg: Config, s: State, sl: Slot, id: int)
    requires NewOk(cfg, s.info, s.news) && RefsOk(s.info, s.news) && RandomOk(s.info, s.random)
    requires sl !in s.news && id in s.info && !s.info[id].inTried
    requires sl == cfg.NewSlot(s.info[id].addr, sl.bucket) && sl.bucket < cfg.newBuckets
    ensures var t := Claimed(s, sl, id);
            NewOk(cfg, t.info, t.news) && RefsOk(t.info, t.news) && RandomOk(t.info, t.random)
  {
    hide Held;
    HeldClaimed(s.news, sl, id);
  }

  lemma {:induction false} ClaimedLoose(s: State, sl: Slot, id: int)
    requires LooseOk(s.info, LooseIds(s.info)) && id in s.info && !s.info[id].inTried
    requires s.info[id].refCount < NEW_BUCKETS_PER_ADDRESS
    ensures var t := Claimed(s, sl, id); LooseOk(t.info, LooseIds(t.info))
  {
  }

  lemma {:induction false} ClaimedIds(s: State, now: map<int, Info>)
    requires IdsOk(s.info, s.idCount) && forall id :: id in now <==> id in s.info
    ensures IdsOk(now, s.idCount)
  {
  }

  lemma {:induction false} PlacedKeeps(cfg: Config, s: State, restore: bool, b: nat, index: int)
    requires cfg.Wf() && Loading(cfg, s) && (restore ==> b < cfg.newBuckets)
    requires index in s.info ==> !s.info[index].inTried
    ensures Loading(cfg, Placed(cfg, s, restore, b, index))
  {
    hide Loading;
    if index in s.info && s.info[index].refCount < NEW_BUCKETS_PER_ADDRESS {
      var a := s.info[index].addr;
      var sl, home := cfg.NewSlot(a, b), cfg.NewSlot(a, cfg.newBucketOf(a, s.info[index].source));
      if restore && sl !in s.news {
        ClaimKeeps(cfg, s, sl, index);
      } else if home !in s.news {
        ClaimKeeps(cfg, s, home, index);
      }
    }
  }

  /** After loading new entries: entry i has id i. */
  ghost predicate NewLoaded(s: State, news: seq<Entry>) {
    && s.idCount == |news| && (forall id :: id in s.info <==> 0 <= id < |news|) && |s.random| == |news|
    && (forall i | 0 <= i < |news| :: s.info[i] == InfoOf(news[i], false, i))
    && s.tried == map[] && s.news == map[] && s.collisions == {} && s.nNew == |news| && s.nTried == 0
  }

  lemma {:induction false} AllNewIs(news: seq<Entry>)
    ensures NewLoaded(AllNew(EMPTY, news), news)
  {
    if news != [] {
      hide NewLoaded;
      var n := |news| - 1;
      AllNewIs(news[..n]);
      NewLoadedNext(AllNew(EMPTY, news[..n]), news);
    }
  }

  lemma {:induction false} NewLoadedNext(t: State, news: seq<Entry>)
    requires |news| > 0 && NewLoaded(t, news[..|news| - 1])
    ensures NewLoaded(WithNew(t, news[|news| - 1]), news)
  {
    var n := |news| - 1;
    var u := WithNew(t, news[n]);
    forall i | 0 <= i < |news| ensures u.info[i] == InfoOf(news[i], false, i) {
      if i < n { assert news[..n][i] == news[i]; }
    }
  }

  lemma {:induction false} AllNewKeeps(cfg: Config, news: seq<Entry>)
    ensures var t := AllNew(EMPTY, news); Loading(cfg, t) && RawIndex(t.info, t.ids)
  {
    hide Loading, RawIndex, WithNew;
    if news == [] {
      EmptyLoading(cfg);
    } else {
      var n := |news| - 1;
      AllNewKeeps(cfg, news[..n]);
      WithNewKeeps(cfg, AllNew(EMPTY, news[..n]), news[n]);
    }
  }

  lemma {:induction false} EmptyLoading(cfg: Config)
    ensures Loading(cfg, EMPTY) && RawIndex(EMPTY.info, EMPTY.ids)
  {
    assert Untried(EMPTY.info) == {} && TriedIds(EMPTY.info) == {};
  }

  /** Loading tried entries adds entries in tried and leaves the others. */
  ghost predicate TriedLoaded(s: State, t: State, tried: seq<Entry>) {
    && s.idCount <= t.idCount <= s.idCount + |tried| && t.news == s.news && t.collisions == s.collisions
    && (forall id :: id in t.info && id < s.idCount <==> id in s.info && id < s.idCount)
    && (forall id | id in s.info && id < s.idCount :: t.info[id] == s.info[id])
    && (forall id | id in t.info && id >= s.idCount :: id < t.idCount && t.info[id].inTried && t.info[id].lastTry == 0)
  }

  lemma {:induction false} AllTriedIs(cfg: Config, s: State, tried: seq<Entry>)
    requires forall id | id in s.info :: id < s.idCount
    ensures TriedLoaded(s, AllTried(cfg, s, tried), tried)
  {
    if tried != [] { AllTriedIs(cfg, s, tried[..|tried| - 1]); }
  }

  lemma {:induction false} AllTriedKeeps(cfg: Config, s: State, tried: seq<Entry>)
    requires Loading(cfg, s) && RawIndex(s.info, s.ids)
    ensures var t := AllTried(cfg, s, tried); Loading(cfg, t) && RawIndex(t.info, t.ids)
  {
    hide Loading, RawIndex, WithTried;
    if tried != [] {
      var n := |tried| - 1;
      AllTriedKeeps(cfg, s, tried[..n]);
      WithTriedKeeps(cfg, AllTried(cfg, s, tried[..n]), tried[n]);
    }
  }

  lemma {:induction false} BucketPairsWithin(b: nat, bucket: seq<int>, count: nat)
    ensures forall p | p in BucketPairs(b, bucket, count) :: p.0 == b && 0 <= p.1 < count
  {
    if bucket != [] { BucketPairsWithin(b, bucket[..|bucket| - 1], count); }
  }

  lemma {:induction false} PairsWithin(buckets: seq<seq<int>>, count: nat)
    ensures forall p | p in Pairs(buckets, count) :: p.0 < |buckets| && 0 <= p.1 < count
  {
    if buckets != [] {
      var n := |buckets| - 1;
      PairsWithin(buckets[..n], count);
      BucketPairsWithin(n, buckets[n], count);
    }
  }

  /** Placing changes positions and their counts only. */
  ghost predicate OnlyPlaced(s: State, t: State) {
    && t == s.(news := t.news, info := t.info)
    && (forall id :: id in t.info <==> id in s.info)
    && (forall id | id in s.info :: t.info[id] == s.info[id].(refCount := t.info[id].refCount))
  }

  lemma {:induction false} AllPlacedIs(cfg: Config, s: State, restore: bool, pairs: seq<(nat, int)>)
    ensures OnlyPlaced(s, AllPlaced(cfg, s, restore, pairs))
  {
    if pairs != [] { AllPlacedIs(cfg, s, restore, pairs[..|pairs| - 1]); }
  }

  lemma {:induction false} AllPlacedKeeps(cfg: Config, s: State, restore: bool, pairs: seq<(nat, int)>)
    requires cfg.Wf() && Loading(cfg, s)
    requires forall i | 0 <= i < |pairs| ::
               (restore ==> pairs[i].0 < cfg.newBuckets) && (pairs[i].1 in s.info ==> !s.info[pairs[i].1].inTried)
    ensures Loading(cfg, AllPlaced(cfg, s, restore, pairs))
  {
    hide Loading, Placed;
    if pairs != [] {
      var n := |pairs| - 1;
      AllPlacedKeeps(cfg, s, restore, pairs[..n]);
      AllPlacedIs(cfg, s, restore, pairs[..n]);
      var t := AllPlaced(cfg, s, restore, pairs[..n]);
      var index := pairs[n].1;
      assert index in t.info <==> index in s.info;
      PlacedKeeps(cfg, t, restore, pairs[n].0, index);
    }
  }

  /** Whatever a file holds. */
  lemma {:induction false} FilledKeeps(cfg: Config, saved: Saved, restore: bool)
    requires cfg.Wf() && (restore ==> |saved.buckets| == cfg.newBuckets)
    ensures var f := Filled(cfg, EMPTY, saved, restore);
            && Loading(cfg, f) && RawIndex(f.info, f.ids) && f.collisions == {}
            && forall id | id in f.info :: f.info[id].lastTry == 0
  {
    hide Loading, AllNew, AllTried, AllPlaced;
    AllNewKeeps(cfg, saved.news);
    AllNewIs(saved.news);
    var s := AllNew(EMPTY, saved.news);
    AllTriedKeeps(cfg, s, saved.tried);
    AllTriedIs(cfg, s, saved.tried);
    var t := AllTried(cfg, s, saved.tried);
    var pairs := Pairs(saved.buckets, |saved.news|);
    PairsWithin(saved.buckets, |saved.news|);
    forall i | 0 <= i < |pairs|
      ensures (restore ==> pairs[i].0 < cfg.newBuckets) && (pairs[i].1 in t.info ==> !t.info[pairs[i].1].inTried)
    {
      assert pairs[i] in pairs;
    }
    AllPlacedKeeps(cfg, t, restore, pairs);
    AllPlacedIs(cfg, t, restore, pairs);
    var f := AllPlaced(cfg, t, restore, pairs);
    forall a | a in f.ids ensures f.ids[a] in f.info && f.info[f.ids[a]].addr == a {
      var id := t.ids[a];
      assert id in t.info && id in f.info;
    }
    forall id | id in f.info ensures f.info[id].addr in f.ids && f.info[id].lastTry == 0 {
      assert id in t.info;
      if id < s.idCount { assert id in s.info; }
    }
  }

  // ---- pruning ----

  lemma {:induction false} PoppedRandom(cfg: Config, s: State, id: int)
    requires RandomOk(s.info, s.random) && id in s.info && |s.random| > 0 && s.random[|s.random| - 1] == id
    ensures RandomOk(Popped(cfg, s, id).info, Popped(cfg, s, id).random)
  {
  }

  lemma {:induction false} SwappedLast(s: State, i: int, j: int)
    requires RandomOk(s.info, s.random) && 0 <= i < |s.random| && 0 <= j < |s.random|
    ensures var t := Swapped(s, i, j);
            |t.random| == |s.random| && t.random[j] == s.random[i] && t.random[j] in t.info
  {
  }

  lemma {:induction false} DeletedRandom(cfg: Config, s: State, id: int)
    requires RandomOk(s.info, s.random)
    ensures RandomOk(Deleted(cfg, s, id).info, Deleted(cfg, s, id).random)
  {
    hide Swapped, RandomOk;
    if id in s.info && !s.info[id].inTried && s.info[id].refCount == 0 {
      RandomPlace(s.info, s.random, id);
      var p, n := s.info[id].randomPos, |s.random| - 1;
      SwappedRandomOk(s, p, n);
      SwappedLast(s, p, n);
      PoppedRandom(cfg, Swapped(s, p, n), id);
    }
  }

  /** Deleting a loose entry takes it and its key away; where ports do not count, a key has none. */
  ghost predicate Gone(cfg: Config, s: State, t: State, id: int)
    requires id in s.info
  {
    && t.tried == s.tried && t.news == s.news && t.collisions == s.collisions && t.idCount == s.idCount
    && t.nTried == s.nTried && t.nNew == s.nNew - 1 && t.ids == s.ids - {cfg.Norm(s.info[id].addr)}
    && t.info.Keys == s.info.Keys - {id}
    && (forall x | x in t.info :: t.info[x] == s.info[x].(randomPos := t.info[x].randomPos))
  }

  lemma {:induction false} DeletedIs(cfg: Config, s: State, id: int)
    requires RandomOk(s.info, s.random)
    ensures if id in LooseIds(s.info) then Gone(cfg, s, Deleted(cfg, s, id), id) else Deleted(cfg, s, id) == s
  {
    if id in LooseIds(s.info) {
      RandomPlace(s.info, s.random, id);
      SwappedLast(s, s.info[id].randomPos, |s.random| - 1);
    }
  }

  lemma {:induction false} GoneKeeps(cfg: Config, s: State, t: State, id: int)
    requires Loading(cfg, s) && id in LooseIds(s.info) && Gone(cfg, s, t, id) && RandomOk(t.info, t.random)
    ensures Loading(cfg, t) && LooseIds(t.info) == LooseIds(s.info) - {id}
  {
    hide RandomOk, Held;
    HoldsNothing(s.info, s.news, id);
    forall x
      ensures x in Untried(t.info) <==> x in Untried(s.info) - {id}
      ensures x in TriedIds(t.info) <==> x in TriedIds(s.info)
      ensures x in LooseIds(t.info) <==> x in LooseIds(s.info) - {id}
    {
      assert x in t.info <==> x in s.info && x != id;
    }
    assert Untried(t.info) == Untried(s.info) - {id} && TriedIds(t.info) == TriedIds(s.info);
    assert LooseIds(t.info) == LooseIds(s.info) - {id};
    forall sl | sl in t.news ensures t.news[sl] in t.info && !t.info[t.news[sl]].inTried
        && sl == cfg.NewSlot(t.info[t.news[sl]].addr, sl.bucket) {
      var x := t.news[sl];
      assert x in s.info;
    }
    forall sl | sl in t.tried
      ensures t.tried[sl] in t.info && t.info[t.tried[sl]].inTried && cfg.TriedSlot(t.info[t.tried[sl]].addr) == sl
    {
      var x := t.tried[sl];
      assert x in s.info;
    }
  }

  /** What pruning leaves: the entries that are not loose, and the keys that no pruned entry has. */
  ghost predicate PrunedTo(cfg: Config, f: State, r: State, gone: set<int>)
    requires gone <= f.info.Keys
  {
    && r.tried == f.tried && r.news == f.news && r.collisions == f.collisions && r.idCount == f.idCount
    && r.info.Keys == f.info.Keys - gone
    && (forall x | x in r.info :: r.info[x] == f.info[x].(randomPos := r.info[x].randomPos))
    && (forall a | a in r.ids :: a in f.ids && r.ids[a] == f.ids[a])
    && (forall a | a in f.ids :: a in r.ids <==> forall y | y in gone :: cfg.Norm(f.info[y].addr) != a)
  }

  lemma {:induction false} PrunedNext(cfg: Config, f: State, r: State, t: State, gone: set<int>, id: int)
    requires gone <= f.info.Keys && PrunedTo(cfg, f, r, gone) && id in r.info && Gone(cfg, r, t, id)
    ensures PrunedTo(cfg, f, t, gone + {id})
  {
    forall x | x in t.info ensures t.info[x] == f.info[x].(randomPos := t.info[x].randomPos) {
      assert x in r.info;
    }
    forall a | a in f.ids ensures a in t.ids <==> forall y | y in gone + {id} :: cfg.Norm(f.info[y].addr) != a {
      assert f.info[id].addr == r.info[id].addr;
      assert a in t.ids <==> a in r.ids && a != cfg.Norm(f.info[id].addr);
    }
  }

  lemma {:induction false} PrunedKeeps(cfg: Config, f: State, ids: seq<int>)
    requires Loading(cfg, f)
    ensures var r, gone := Pruned(cfg, f, ids), set id | id in LooseIds(f.info) && id in ids;
            && gone <= f.info.Keys && Loading(cfg, r) && PrunedTo(cfg, f, r, gone)
            && LooseIds(r.info) == LooseIds(f.info) - gone
  {
    hide Deleted, LooseIds;
    var gone := set id | id in LooseIds(f.info) && id in ids;
    LooseKnown(f.info);
    if ids == [] {
      assert gone == {};
      NonePruned(cfg, f);
    } else {
      hide Loading, PrunedTo, Gone;
      var n := |ids| - 1;
      var id := ids[n];
      PrunedKeeps(cfg, f, ids[..n]);
      var r, before := Pruned(cfg, f, ids[..n]), set x | x in LooseIds(f.info) && x in ids[..n];
      var t := Deleted(cfg, r, id);
      assert t == Pruned(cfg, f, ids);
      assert forall x :: x in ids <==> x in ids[..n] || x == id;
      LoadingRandom(cfg, r);
      DeletedIs(cfg, r, id);
      if id in LooseIds(r.info) {
        assert gone == before + {id};
        LooseKnown(r.info);
        DeletedRandom(cfg, r, id);
        GoneKeeps(cfg, r, t, id);
        PrunedNext(cfg, f, r, t, before, id);
      } else {
        assert gone == before;
      }
    }
  }

  lemma {:induction false} LooseKnown(info: map<int, Info>)
    ensures LooseIds(info) <= info.Keys
  {
  }

  lemma {:induction false} NonePruned(cfg: Config, f: State)
    ensures PrunedTo(cfg, f, f, {})
  {
  }

  lemma {:induction false} LoadingRandom(cfg: Config, s: State)
    requires Loading(cfg, s)
    ensures RandomOk(s.info, s.random)
  {
  }

  // ---- when loading gives a consistent manager ----

  /** Services are their own keys; an entry that is kept shares its service with no other, and has sound times. */
  ghost predicate LoadsClean(cfg: Config, f: State) {
    && OwnKeys(cfg, f.info) && Apart(f.info, LooseIds(f.info))
    && (forall x | x in f.info && x !in LooseIds(f.info) ::
          f.info[x].lastSuccess >= 0 && (f.info[x].inTried ==> f.info[x].lastSuccess > 0))
  }

  ghost predicate OwnKeys(cfg: Config, info: map<int, Info>) {
    forall x | x in info :: cfg.Norm(info[x].addr) == info[x].addr
  }

  /** No entry outside `gone` shares its service with another. */
  ghost predicate Apart(info: map<int, Info>, gone: set<int>) {
    forall x, y | x in info && y in info && x != y && x !in gone :: info[x].addr != info[y].addr
  }

  lemma {:induction false} IndexGives(cfg: Config, f: State, r: State, gone: set<int>)
    requires RawIndex(f.info, f.ids) && gone <= f.info.Keys && PrunedTo(cfg, f, r, gone) && AddrOk(cfg, r.info, r.ids)
    ensures OwnKeys(cfg, f.info) && Apart(f.info, gone)
  {
    forall x | x in f.info ensures cfg.Norm(f.info[x].addr) == f.info[x].addr {
      var a := f.info[x].addr;
      if x in r.info {
        var k := cfg.Norm(r.info[x].addr);
        assert r.ids[k] == x && f.ids[k] == x;
      } else if forall y | y in gone :: cfg.Norm(f.info[y].addr) != a {
        assert r.ids[a] in r.info && f.info[f.ids[a]].addr == a;
      } else {
        var y :| y in gone && cfg.Norm(f.info[y].addr) == a;
      }
    }
    forall x, y | x in f.info && y in f.info && x != y && x !in gone ensures f.info[x].addr != f.info[y].addr {
      var k := cfg.Norm(r.info[x].addr);
      assert k in r.ids && r.ids[k] == x;
      if y in r.info { assert r.ids[cfg.Norm(r.info[y].addr)] == y; }
    }
  }

  lemma {:induction false} IndexNeeds(cfg: Config, f: State, r: State, gone: set<int>)
    requires RawIndex(f.info, f.ids) && gone <= f.info.Keys && PrunedTo(cfg, f, r, gone)
    requires OwnKeys(cfg, f.info) && Apart(f.info, gone)
    ensures AddrOk(cfg, r.info, r.ids)
  {
    forall x | x in r.info ensures cfg.Norm(r.info[x].addr) in r.ids && r.ids[cfg.Norm(r.info[x].addr)] == x {
      assert x in f.info && x !in gone;
      var a := f.info[x].addr;
      var z := f.ids[a];
      assert z in f.info && f.info[z].addr == a;
      forall y | y in gone ensures cfg.Norm(f.info[y].addr) != a { assert y in f.info; }
    }
    forall a | a in r.ids ensures r.ids[a] in r.info && cfg.Norm(r.info[r.ids[a]].addr) == a {
      var z := f.ids[a];
      assert z in f.info && f.info[z].addr == a && cfg.Norm(f.info[z].addr) == a;
    }
  }

  /** For every file: loading gives a consistent manager exactly when it loads clean. */
  lemma {:induction false} LoadedConsistent(cfg: Config, saved: Saved, restore: bool, order: seq<int>)
    requires cfg.Wf() && (restore ==> |saved.buckets| == cfg.newBuckets)
    requires forall id | id in Filled(cfg, EMPTY, saved, restore).info :: id in order
    ensures Inv(cfg, Pruned(cfg, Filled(cfg, EMPTY, saved, restore), order))
            <==> LoadsClean(cfg, Filled(cfg, EMPTY, saved, restore))
  {
    hide Pruned, Filled, PrunedTo, RawIndex, OwnKeys, Apart;
    hide RandomOk, TriedOk, NewOk, RefsOk, CountOk, IdsOk, AddrOk, LooseOk;
    var f := Filled(cfg, EMPTY, saved, restore);
    FilledKeeps(cfg, saved, restore);
    PrunedKeeps(cfg, f, order);
    var r := Pruned(cfg, f, order);
    LooseKnown(f.info);
    forall id | id in LooseIds(f.info) ensures id in order { assert id in f.info; }
    assert (set id | id in LooseIds(f.info) && id in order) == LooseIds(f.info);
    assert LooseIds(r.info) == {};
    if AddrOk(cfg, r.info, r.ids) { IndexGives(cfg, f, r, LooseIds(f.info)); }
    if OwnKeys(cfg, f.info) && Apart(f.info, LooseIds(f.info)) { IndexNeeds(cfg, f, r, LooseIds(f.info)); }
    TimesIff(cfg, f, r);
    assert r.collisions == {} by { PrunedCollisions(cfg, f, r); }
  }

  lemma {:induction false} PrunedCollisions(cfg: Config, f: State, r: State)
    requires PrunedTo(cfg, f, r, LooseIds(f.info)) && f.collisions == {}
    ensures r.collisions == {}
  {
  }

  lemma {:induction false} TimesIff(cfg: Config, f: State, r: State)
    requires PrunedTo(cfg, f, r, LooseIds(f.info)) && forall id | id in f.info :: f.info[id].lastTry == 0
    ensures TimesOk(r.info)
       <==> forall x | x in f.info && x !in LooseIds(f.info) ::
              f.info[x].lastSuccess >= 0 && (f.info[x].inTried ==> f.info[x].lastSuccess > 0)
  {
    hide LooseIds;
    forall x | x in f.info && x !in LooseIds(f.info)
      ensures x in r.info && r.info[x].lastSuccess == f.info[x].lastSuccess && r.info[x].inTried == f.info[x].inTried
    {
    }
  }

  // ---- pending collisions are left alone ----

  lemma {:induction false} AllNewFrame(s: State, c: set<int>, news: seq<Entry>)
    ensures AllNew(s.(collisions := c), news) == AllNew(s, news).(collisions := c)
  {
    if news != [] { AllNewFrame(s, c, news[..|news| - 1]); }
  }

  lemma {:induction false} AllTriedFrame(cfg: Config, s: State, c: set<int>, tried: seq<Entry>)
    ensures AllTried(cfg, s.(collisions := c), tried) == AllTried(cfg, s, tried).(collisions := c)
  {
    if tried != [] { AllTriedFrame(cfg, s, c, tried[..|tried| - 1]); }
  }

  lemma {:induction false} AllPlacedFrame(cfg: Config, s: State, c: set<int>, restore: bool, pairs: seq<(nat, int)>)
    ensures AllPlaced(cfg, s.(collisions := c), restore, pairs) == AllPlaced(cfg, s, restore, pairs).(collisions := c)
  {
    if pairs != [] { AllPlacedFrame(cfg, s, c, restore, pairs[..|pairs| - 1]); }
  }

  lemma {:induction false} PrunedFrame(cfg: Config, s: State, c: set<int>, ids: seq<int>)
    ensures Pruned(cfg, s.(collisions := c), ids) == Pruned(cfg, s, ids).(collisions := c)
  {
    hide Deleted;
    if ids != [] {
      var n := |ids| - 1;
      PrunedFrame(cfg, s, c, ids[..n]);
      DeletedFrame(cfg, Pruned(cfg, s, ids[..n]), c, ids[n]);
    }
  }

  lemma {:induction false} DeletedFrame(cfg: Config, s: State, c: set<int>, id: int)
    ensures Deleted(cfg, s.(collisions := c), id) == Deleted(cfg, s, id).(collisions := c)
  {
    hide Swapped;
    if id in s.info { SwappedFrame(s, c, s.info[id].randomPos, |s.random| - 1); }
  }

  lemma {:induction false} SwappedFrame(s: State, c: set<int>, i: int, j: int)
    ensures Swapped(s.(collisions := c), i, j) == Swapped(s, i, j).(collisions := c)
  {
  }

  lemma {:induction false} FilledFrame(cfg: Config, c: set<int>, saved: Saved, restore: bool)
    ensures Filled(cfg, EMPTY.(collisions := c), saved, restore) == Filled(cfg, EMPTY, saved, restore).(collisions := c)
  {
    hide AllNew, AllTried, AllPlaced;
    AllNewFrame(EMPTY, c, saved.news);
    AllTriedFrame(cfg, AllNew(EMPTY, saved.news), c, saved.tried);
    var t := AllTried(cfg, AllNew(EMPTY, saved.news), saved.tried);
    AllPlacedFrame(cfg, t, c, restore, Pairs(saved.buckets, |saved.news|));
  }

  /** What pending collisions have to satisfy in a state. */
  ghost predicate FitCollisions(cfg: Config, s: State, c: set<int>) {
    (forall id | id in c :: 0 <= id < s.idCount) && CollisionsOk(cfg, s.info, s.tried, c)
  }

  lemma {:induction false} InvFrame(cfg: Config, s: State, c: set<int>)
    requires s.collisions == {}
    ensures Inv(cfg, s.(collisions := c)) <==> Inv(cfg, s) && FitCollisions(cfg, s, c)
  {
    hide AddrOk, RandomOk, TriedOk, NewOk, RefsOk, CountOk, LooseOk, IdsOk, TimesOk;
  }

  /** Loading into a manager: what it was does not matter, but for the collisions that were pending. */
  lemma {:induction false} LoadedInto(cfg: Config, s: State, saved: Saved, restore: bool, order: seq<int>)
    requires cfg.Wf() && (restore ==> |saved.buckets| == cfg.newBuckets)
    requires forall id | id in Filled(cfg, Cleared(s), saved, restore).info :: id in order
    ensures var f := Filled(cfg, EMPTY, saved, restore);
            var r := Pruned(cfg, f, order);
            && Pruned(cfg, Filled(cfg, Cleared(s), saved, restore), order) == r.(collisions := s.collisions)
            && (Inv(cfg, r.(collisions := s.collisions)) <==> LoadsClean(cfg, f) && FitCollisions(cfg, r, s.collisions))
  {
    hide Filled, Pruned, Inv, LoadsClean, FitCollisions, Loading, RawIndex, LooseIds, PrunedTo;
    var f := Filled(cfg, EMPTY, saved, restore);
    FilledFrame(cfg, s.collisions, saved, restore);
    PrunedFrame(cfg, f, s.collisions, order);
    LoadedConsistent(cfg, saved, restore, order);
    FilledKeeps(cfg, saved, restore);
    PrunedFrame(cfg, f, {}, order);
    InvFrame(cfg, Pruned(cfg, f, order), s.collisions);
  }

  // ---- saving, then loading ----

  ghost predicate Enumerates(ids: seq<int>, all: set<int>) {
    && (forall i, j | 0 <= i < j < |ids| :: ids[i] != ids[j])
    && (forall id :: id in ids <==> id in all)
  }

  /** A bucket's list names each of its entries once, and nothing else. */
  ghost predicate BucketSaved(cfg: Config, s: State, newIds: seq<int>, b: nat, bucket: seq<int>) {
    && (forall k | 0 <= k < |bucket| ::
          && 0 <= bucket[k] < |newIds| && newIds[bucket[k]] in s.info
          && cfg.NewSlot(s.info[newIds[bucket[k]]].addr, b) in s.news
          && s.news[cfg.NewSlot(s.info[newIds[bucket[k]]].addr, b)] == newIds[bucket[k]])
    && (forall k, m | 0 <= k < m < |bucket| :: bucket[k] != bucket[m])
    && (forall sl | sl in s.news && sl.bucket == b :: exists k | 0 <= k < |bucket| ::
          0 <= bucket[k] < |newIds| && newIds[bucket[k]] == s.news[sl])
  }

  /** What saving writes: the new entries in the order of `newIds`, the tried ones in the order of `triedIds`. */
  ghost predicate SavedFrom(cfg: Config, s: State, saved: Saved, newIds: seq<int>, triedIds: seq<int>) {
    && Enumerates(newIds, Untried(s.info)) && Enumerates(triedIds, TriedIds(s.info))
    && |saved.news| == |newIds| && |saved.tried| == |triedIds| && |saved.buckets| == cfg.newBuckets
    && (forall i | 0 <= i < |newIds| :: newIds[i] in s.info && saved.news[i] == EntryOf(s.info[newIds[i]]))
    && (forall i | 0 <= i < |triedIds| :: triedIds[i] in s.info && saved.tried[i] == EntryOf(s.info[triedIds[i]]))
    && (forall b | 0 <= b < |saved.buckets| :: BucketSaved(cfg, s, newIds, b, saved.buckets[b]))
  }

  /** Everything but the random position and the attempts since the last start, which begin afresh in i. */
  ghost predicate SameEntry(i: Info, j: Info) {
    && i.addr == j.addr && i.time == j.time && i.services == j.services && i.source == j.source
    && i.lastSuccess == j.lastSuccess && i.attempts == j.attempts
    && i.inTried == j.inTried && i.refCount == j.refCount && i.lastTry == i.lastCountAttempt == 0
  }

  /** The same manager under new ids: i stands for ids[i]. */
  ghost predicate Restored(s: State, t: State, ids: seq<int>) {
    && t.idCount == |ids| && (forall id :: id in t.info <==> 0 <= id < |ids|)
    && t.nNew == s.nNew && t.nTried == s.nTried
    && (forall i, j | 0 <= i < j < |ids| :: ids[i] != ids[j]) && (forall id | id in s.info :: id in ids)
    && (forall i | 0 <= i < |ids| :: ids[i] in s.info && SameEntry(t.info[i], s.info[ids[i]]))
    && SameTable(s.news, t.news, ids) && SameTable(s.tried, t.tried, ids)
  }

  /** The same positions, occupied by the renamed ids. */
  ghost predicate SameTable(table: map<Slot, int>, now: map<Slot, int>, ids: seq<int>) {
    && (forall sl :: sl in now <==> sl in table)
    && (forall sl | sl in now :: 0 <= now[sl] < |ids| && ids[now[sl]] == table[sl])
  }

  lemma {:induction false} BucketPairsMember(b: nat, bucket: seq<int>, count: nat, p: (nat, int))
    ensures p in BucketPairs(b, bucket, count) <==> p.0 == b && p.1 in bucket && 0 <= p.1 < count
  {
    if bucket != [] {
      BucketPairsMember(b, bucket[..|bucket| - 1], count, p);
      assert p.1 in bucket <==> p.1 in bucket[..|bucket| - 1] || p.1 == bucket[|bucket| - 1];
    }
  }

  lemma {:induction false} PairsMember(buckets: seq<seq<int>>, count: nat, p: (nat, int))
    ensures p in Pairs(buckets, count) <==> p.0 < |buckets| && p.1 in buckets[p.0] && 0 <= p.1 < count
  {
    if buckets != [] {
      var n := |buckets| - 1;
      PairsMember(buckets[..n], count, p);
      BucketPairsMember(n, buckets[n], count, p);
    }
  }

  ghost predicate DistinctPairs(pairs: seq<(nat, int)>) {
    forall i, j | 0 <= i < j < |pairs| :: pairs[i] != pairs[j]
  }

  lemma {:induction false} BucketPairsDistinct(b: nat, bucket: seq<int>, count: nat)
    requires forall k, m | 0 <= k < m < |bucket| :: bucket[k] != bucket[m]
    ensures DistinctPairs(BucketPairs(b, bucket, count))
  {
    if bucket != [] {
      var n := |bucket| - 1;
      BucketPairsDistinct(b, bucket[..n], count);
      BucketPairsMember(b, bucket[..n], count, (b, bucket[n]));
      assert forall k | 0 <= k < n :: bucket[..n][k] != bucket[n];
    }
  }

  lemma {:induction false} PairsDistinct(buckets: seq<seq<int>>, count: nat)
    requires forall b | 0 <= b < |buckets| :: forall k, m | 0 <= k < m < |buckets[b]| :: buckets[b][k] != buckets[b][m]
    ensures DistinctPairs(Pairs(buckets, count))
  {
    if buckets != [] {
      var n := |buckets| - 1;
      PairsDistinct(buckets[..n], count);
      BucketPairsDistinct(n, buckets[n], count);
      PairsWithin(buckets[..n], count);
      BucketPairsWithin(n, buckets[n], count);
      var x, y := Pairs(buckets[..n], count), BucketPairs(n, buckets[n], count);
      forall i, j | 0 <= i < |x| && 0 <= j < |y| ensures x[i] != y[j] { assert x[i] in x && y[j] in y; }
    }
  }

  ghost predicate TriedTable(cfg: Config, table: map<Slot, int>, tried: seq<Entry>, base: nat) {
    && (forall j | 0 <= j < |tried| ::
          cfg.TriedSlot(tried[j].addr) in table && table[cfg.TriedSlot(tried[j].addr)] == base + j)
    && (forall sl | sl in table :: exists j | 0 <= j < |tried| :: cfg.TriedSlot(tried[j].addr) == sl)
  }

  lemma {:induction false} TriedTableNext(cfg: Config, table: map<Slot, int>, tried: seq<Entry>, base: nat)
    requires |tried| > 0 && TriedTable(cfg, table, tried[..|tried| - 1], base)
    requires forall i, j | 0 <= i < j < |tried| :: cfg.TriedSlot(tried[i].addr) != cfg.TriedSlot(tried[j].addr)
    ensures var sl := cfg.TriedSlot(tried[|tried| - 1].addr);
            sl !in table && TriedTable(cfg, table[sl := base + |tried| - 1], tried, base)
  {
    var n := |tried| - 1;
    var sl := cfg.TriedSlot(tried[n].addr);
    forall x | x in table ensures exists j | 0 <= j < n :: cfg.TriedSlot(tried[j].addr) == x {
      var j :| 0 <= j < n && cfg.TriedSlot(tried[..n][j].addr) == x;
      assert cfg.TriedSlot(tried[j].addr) == x;
    }
    forall j | 0 <= j < n
      ensures cfg.TriedSlot(tried[j].addr) in table && table[cfg.TriedSlot(tried[j].addr)] == base + j
    {
      assert tried[..n][j] == tried[j];
    }
    assert cfg.TriedSlot(tried[n].addr) == sl;
  }

  ghost predicate TriedEntry(i: Info, e: Entry) {
    EntryOf(i) == e && i.inTried && i.refCount == 0 && i.lastTry == i.lastCountAttempt == 0
  }

  ghost predicate TriedEntries(info: map<int, Info>, base: nat, tried: seq<Entry>) {
    forall id | base <= id < base + |tried| :: id in info && TriedEntry(info[id], tried[id - base])
  }

  /** After loading the tried entries, none lost: entry j has id base + j. */
  ghost predicate TriedExact(s: State, t: State, tried: seq<Entry>) {
    && t.idCount == s.idCount + |tried| && t.nTried == s.nTried + |tried| && t.nNew == s.nNew
    && (forall id | id in t.info :: id in s.info || s.idCount <= id < t.idCount)
    && (forall id | id in s.info :: id in t.info && t.info[id] == s.info[id])
    && TriedEntries(t.info, s.idCount, tried)
  }

  lemma {:induction false} TriedEntriesNext(info: map<int, Info>, base: nat, tried: seq<Entry>, id: int, i: Info)
    requires |tried| > 0 && TriedEntries(info, base, tried[..|tried| - 1]) && TriedEntry(i, tried[|tried| - 1])
    requires id == base + |tried| - 1
    ensures TriedEntries(info[id := i], base, tried)
  {
    forall x | base <= x < id ensures x in info && TriedEntry(info[x], tried[x - base]) {
      assert tried[..|tried| - 1][x - base] == tried[x - base];
    }
  }

  lemma {:induction false} TriedExactNext(cfg: Config, s: State, t: State, tried: seq<Entry>)
    requires |tried| > 0 && TriedExact(s, t, tried[..|tried| - 1]) && forall id | id in s.info :: 0 <= id < s.idCount
    requires cfg.TriedSlot(tried[|tried| - 1].addr) !in t.tried
    ensures TriedExact(s, WithTried(cfg, t, tried[|tried| - 1]), tried)
  {
    hide TriedEntries;
    var n := |tried| - 1;
    TriedEntriesNext(t.info, s.idCount, tried, t.idCount, InfoOf(tried[n], true, |t.random|));
  }

  lemma {:induction false} NoTried(cfg: Config, s: State)
    ensures TriedExact(s, s, []) && TriedTable(cfg, map[], [], s.idCount)
    requires forall id | id in s.info :: 0 <= id < s.idCount
  {
  }

  /** No tried entry is lost when their positions differ. */
  lemma {:induction false} AllTriedExact(cfg: Config, s: State, tried: seq<Entry>)
    requires s.tried == map[] && forall id | id in s.info :: 0 <= id < s.idCount
    requires forall i, j | 0 <= i < j < |tried| :: cfg.TriedSlot(tried[i].addr) != cfg.TriedSlot(tried[j].addr)
    ensures var t := AllTried(cfg, s, tried); TriedExact(s, t, tried) && TriedTable(cfg, t.tried, tried, s.idCount)
  {
    hide TriedTable, TriedExact;
    if tried == [] {
      NoTried(cfg, s);
    } else {
      var n := |tried| - 1;
      AllTriedExact(cfg, s, tried[..n]);
      var t := AllTried(cfg, s, tried[..n]);
      TriedTableNext(cfg, t.tried, tried, s.idCount);
      TriedExactNext(cfg, s, t, tried);
      IdCountOf(s, t, tried[..n]);
    }
  }

  lemma {:induction false} IdCountOf(s: State, t: State, tried: seq<Entry>)
    requires TriedExact(s, t, tried)
    ensures t.idCount == s.idCount + |tried|
  {
  }

  /** The position that a pair stands for. */
  ghost function SlotOf(cfg: Config, info: map<int, Info>, p: (nat, int)): Slot
    requires p.1 in info
  {
    cfg.NewSlot(info[p.1].addr, p.0)
  }

  /** Pairs that come from the occupied positions of `news`, each position once. */
  ghost predicate PairsOf(cfg: Config, news: map<Slot, int>, ids: seq<int>, info: map<int, Info>, pairs: seq<(nat,
      int)>) {
    && DistinctPairs(pairs)
    && (forall i | 0 <= i < |pairs| ::
          && 0 <= pairs[i].1 < |ids| && pairs[i].1 in info && !info[pairs[i].1].inTried && pairs[i].0 < cfg.newBuckets
          && SlotOf(cfg, info, pairs[i]) in news && news[SlotOf(cfg, info, pairs[i])] == ids[pairs[i].1])
  }

  /** The new table filled from pairs: exactly their positions. */
  ghost predicate FilledFrom(cfg: Config, now: map<Slot, int>, info: map<int, Info>, pairs: seq<(nat, int)>)
    requires forall i | 0 <= i < |pairs| :: pairs[i].1 in info
  {
    && (forall i | 0 <= i < |pairs| ::
          SlotOf(cfg, info, pairs[i]) in now && now[SlotOf(cfg, info, pairs[i])] == pairs[i].1)
    && (forall sl | sl in now :: exists i | 0 <= i < |pairs| :: SlotOf(cfg, info, pairs[i]) == sl)
  }

  lemma {:induction false} FilledNext(cfg: Config, news: map<Slot, int>, ids: seq<int>, info: map<int, Info>,
      now: map<Slot, int>, pairs: seq<(nat, int)>)
    requires |pairs| > 0 && PairsOf(cfg, news, ids, info, pairs)
    requires forall i, j | 0 <= i < j < |ids| :: ids[i] != ids[j]
    requires FilledFrom(cfg, now, info, pairs[..|pairs| - 1])
    ensures var p := pairs[|pairs| - 1]; var sl := SlotOf(cfg, info, p);
            && sl !in now && FilledFrom(cfg, now[sl := p.1], info, pairs)
            && Held(now, p.1) <= Held(news, ids[p.1]) - {sl} && sl in Held(news, ids[p.1])
  {
    var n := |pairs| - 1;
    var p := pairs[n];
    var sl := SlotOf(cfg, info, p);
    forall x | x in now ensures exists i | 0 <= i < n :: SlotOf(cfg, info, pairs[i]) == x && now[x] == pairs[i].1 {
      var i :| 0 <= i < n && SlotOf(cfg, info, pairs[..n][i]) == x;
      assert pairs[..n][i] == pairs[i];
    }
    forall i | 0 <= i < n ensures SlotOf(cfg, info, pairs[i]) != sl {
      assert pairs[i] != pairs[n];
    }
    assert sl !in now;
    forall i | 0 <= i < n ensures SlotOf(cfg, info, pairs[i]) in now && now[SlotOf(cfg, info, pairs[i])] == pairs[i].1 {
      assert pairs[..n][i] == pairs[i];
    }
    forall x | x in Held(now, p.1) ensures x in Held(news, ids[p.1]) - {sl} {}
    assert SlotOf(cfg, info, pairs[n]) == sl;
  }

  lemma {:induction false} AllPlacedExact(cfg: Config, u: State, news: map<Slot, int>, ids: seq<int>,
      pairs: seq<(nat, int)>)
    requires cfg.Wf() && Loading(cfg, u) && u.news == map[] && PairsOf(cfg, news, ids, u.info, pairs)
    requires forall i, j | 0 <= i < j < |ids| :: ids[i] != ids[j]
    requires forall k | 0 <= k < |ids| :: |Held(news, ids[k])| <= NEW_BUCKETS_PER_ADDRESS
    ensures FilledFrom(cfg, AllPlaced(cfg, u, true, pairs).news, u.info, pairs)
  {
    hide InvWith, Held, LooseIds, FilledFrom, PairsOf;
    PairsKnown(cfg, news, ids, u.info, pairs);
    if pairs == [] {
      NoPairs(cfg, u.info);
    } else {
      var n := |pairs| - 1;
      PairsPrefix(cfg, news, ids, u.info, pairs);
      AllPlacedExact(cfg, u, news, ids, pairs[..n]);
      AllPlacedIs(cfg, u, true, pairs[..n]);
      AllPlacedKeeps(cfg, u, true, pairs[..n]);
      var t := AllPlaced(cfg, u, true, pairs[..n]);
      FilledNext(cfg, news, ids, u.info, t.news, pairs);
      var index := pairs[n].1;
      var sl := SlotOf(cfg, u.info, pairs[n]);
      SmallerSet(Held(t.news, index), Held(news, ids[index]), sl);
      LoadingRefs(cfg, t, index);
      assert Placed(cfg, t, true, pairs[n].0, index) == Claimed(t, sl, index);
    }
  }

  lemma {:induction false} PairsKnown(cfg: Config, news: map<Slot, int>, ids: seq<int>, info: map<int, Info>,
      pairs: seq<(nat, int)>)
    requires PairsOf(cfg, news, ids, info, pairs)
    ensures forall i | 0 <= i < |pairs| ::
              0 <= pairs[i].1 < |ids| && pairs[i].1 in info && !info[pairs[i].1].inTried && pairs[i].0 < cfg.newBuckets
  {
  }

  lemma {:induction false} NoPairs(cfg: Config, info: map<int, Info>)
    ensures FilledFrom(cfg, map[], info, [])
  {
  }

  lemma {:induction false} PairsPrefix(cfg: Config, news: map<Slot, int>, ids: seq<int>, info: map<int, Info>,
      pairs: seq<(nat, int)>)
    requires |pairs| > 0 && PairsOf(cfg, news, ids, info, pairs)
    ensures PairsOf(cfg, news, ids, info, pairs[..|pairs| - 1])
  {
  }

  lemma {:induction false} SmallerSet(x: set<Slot>, y: set<Slot>, sl: Slot)
    requires x <= y - {sl} && sl in y
    ensures |x| < |y|
  {
    assert y - {sl} == x + (y - {sl} - x);
    assert |y - {sl}| == |x| + |y - {sl} - x|;
  }

  lemma {:induction false} LoadingRefs(cfg: Config, s: State, id: int)
    requires Loading(cfg, s) && id in s.info
    ensures s.info[id].refCount == |Held(s.news, id)|
  {
    hide AddrOk, RandomOk, TriedOk, NewOk, CountOk, LooseOk, IdsOk, TimesOk, Held;
  }

  // ---- the round trip ----

  lemma {:induction false} SameService(cfg: Config, s: State, x: int, y: int)
    requires AddrOk(cfg, s.info, s.ids) && x in s.info && y in s.info && x != y
    ensures s.info[x].addr != s.info[y].addr
  {
  }

  /** Tried entries of a consistent manager have different positions. */
  lemma {:induction false} SavedSlots(cfg: Config, s: State, saved: Saved, newIds: seq<int>, triedIds: seq<int>)
    requires Inv(cfg, s) && SavedFrom(cfg, s, saved, newIds, triedIds)
    ensures forall i, j | 0 <= i < j < |saved.tried| ::
              cfg.TriedSlot(saved.tried[i].addr) != cfg.TriedSlot(saved.tried[j].addr)
  {
    hide AddrOk, RandomOk, NewOk, RefsOk, CountOk, LooseOk, IdsOk, TimesOk, CollisionsOk, BucketSaved;
    forall i, j | 0 <= i < j < |saved.tried|
      ensures cfg.TriedSlot(saved.tried[i].addr) != cfg.TriedSlot(saved.tried[j].addr)
    {
      var x, y := triedIds[i], triedIds[j];
      assert x in triedIds && y in triedIds && x in TriedIds(s.info) && y in TriedIds(s.info);
      assert s.tried[cfg.TriedSlot(s.info[x].addr)] == x && s.tried[cfg.TriedSlot(s.info[y].addr)] == y;
    }
  }

  /** The stored bucket lists are pairs for the loaded entries. */
  lemma {:induction false} SavedPairs(cfg: Config, s: State, saved: Saved, newIds: seq<int>, triedIds: seq<int>,
      info: map<int, Info>)
    requires SavedFrom(cfg, s, saved, newIds, triedIds)
    requires forall i | 0 <= i < |newIds| ::
               newIds[i] in s.info && i in info && info[i].addr == s.info[newIds[i]].addr && !info[i].inTried
    ensures PairsOf(cfg, s.news, newIds, info, Pairs(saved.buckets, |saved.news|))
  {
    var pairs := Pairs(saved.buckets, |saved.news|);
    assert forall b | 0 <= b < |saved.buckets| :: BucketSaved(cfg, s, newIds, b, saved.buckets[b]);
    PairsDistinct(saved.buckets, |saved.news|);
    forall i | 0 <= i < |pairs|
      ensures 0 <= pairs[i].1 < |newIds| && pairs[i].0 < cfg.newBuckets
      ensures SlotOf(cfg, info, pairs[i]) in s.news && s.news[SlotOf(cfg, info, pairs[i])] == newIds[pairs[i].1]
    {
      assert pairs[i] in pairs;
      PairsMember(saved.buckets, |saved.news|, pairs[i]);
      var b, bucket := pairs[i].0, saved.buckets[pairs[i].0];
      var k :| 0 <= k < |bucket| && bucket[k] == pairs[i].1;
    }
  }

  /** Every occupied position is among the pairs. */
  lemma {:induction false} SavedComplete(cfg: Config, s: State, saved: Saved, newIds: seq<int>, triedIds: seq<int>,
      info: map<int, Info>, sl: Slot)
    requires SavedFrom(cfg, s, saved, newIds, triedIds) && NewOk(cfg, s.info, s.news) && sl in s.news
    requires forall i | 0 <= i < |newIds| ::
               newIds[i] in s.info && i in info && info[i].addr == s.info[newIds[i]].addr
    ensures exists p :: p in Pairs(saved.buckets, |saved.news|) && p.1 in info && SlotOf(cfg, info, p) == sl
                        && 0 <= p.1 < |newIds| && newIds[p.1] == s.news[sl]
  {
    var b := sl.bucket;
    assert BucketSaved(cfg, s, newIds, b, saved.buckets[b]);
    var bucket := saved.buckets[b];
    var k :| 0 <= k < |bucket| && 0 <= bucket[k] < |newIds| && newIds[bucket[k]] == s.news[sl];
    var p := (b, bucket[k]);
    PairsMember(saved.buckets, |saved.news|, p);
    var id := s.news[sl];
    assert id in s.info;
  }

  /** Loading what was saved, before pruning: the new table. */
  lemma {:induction false} NewTableRestored(cfg: Config, s: State, saved: Saved, newIds: seq<int>, triedIds: seq<int>,
      u: State)
    requires cfg.Wf() && Inv(cfg, s) && SavedFrom(cfg, s, saved, newIds, triedIds)
    requires Loading(cfg, u) && u.news == map[]
    requires forall i | 0 <= i < |newIds| ::
               newIds[i] in s.info && i in u.info && u.info[i].addr == s.info[newIds[i]].addr && !u.info[i].inTried
    ensures var t := AllPlaced(cfg, u, true, Pairs(saved.buckets, |saved.news|));
            && SameTable(s.news, t.news, newIds)
            && forall i | 0 <= i < |newIds| :: i in t.info && t.info[i].refCount == s.info[newIds[i]].refCount
  {
    hide AddrOk, RandomOk, TriedOk, CountOk, IdsOk, TimesOk, CollisionsOk, Held, LooseIds;
    hide BucketSaved, Pairs, AllPlaced;
    var pairs := Pairs(saved.buckets, |saved.news|);
    SavedPairs(cfg, s, saved, newIds, triedIds, u.info);
    forall k | 0 <= k < |newIds| ensures |Held(s.news, newIds[k])| <= NEW_BUCKETS_PER_ADDRESS {
      RefsBelow(cfg, s, newIds[k]);
    }
    AllPlacedExact(cfg, u, s.news, newIds, pairs);
    AllPlacedIs(cfg, u, true, pairs);
    AllPlacedKeeps(cfg, u, true, pairs);
    var t := AllPlaced(cfg, u, true, pairs);
    TableFrom(cfg, s, saved, newIds, triedIds, u.info, t.news);
    forall i | 0 <= i < |newIds| ensures i in t.info && t.info[i].refCount == s.info[newIds[i]].refCount {
      LoadingRefs(cfg, t, i);
      RefsBelow(cfg, s, newIds[i]);
      SameHeld(s.news, t.news, newIds, i);
    }
  }

  lemma {:induction false} RefsBelow(cfg: Config, s: State, id: int)
    requires Inv(cfg, s) && id in s.info
    ensures s.info[id].refCount == |Held(s.news, id)| <= NEW_BUCKETS_PER_ADDRESS
  {
    hide AddrOk, RandomOk, TriedOk, NewOk, CountOk, IdsOk, TimesOk, CollisionsOk, Held;
  }

  lemma {:induction false} SameHeld(news: map<Slot, int>, now: map<Slot, int>, ids: seq<int>, i: nat)
    requires SameTable(news, now, ids) && i < |ids| && forall x, y | 0 <= x < y < |ids| :: ids[x] != ids[y]
    ensures Held(now, i) == Held(news, ids[i])
  {
    forall sl ensures sl in Held(now, i) <==> sl in Held(news, ids[i]) {
      if sl in now && ids[now[sl]] == ids[i] {
        assert now[sl] == i;
      }
    }
  }

  lemma {:induction false} TableFrom(cfg: Config, s: State, saved: Saved, newIds: seq<int>, triedIds: seq<int>,
      info: map<int, Info>, now: map<Slot, int>)
    requires SavedFrom(cfg, s, saved, newIds, triedIds) && NewOk(cfg, s.info, s.news)
    requires forall i | 0 <= i < |newIds| ::
               newIds[i] in s.info && i in info && info[i].addr == s.info[newIds[i]].addr && !info[i].inTried
    requires PairsOf(cfg, s.news, newIds, info, Pairs(saved.buckets, |saved.news|))
    requires FilledFrom(cfg, now, info, Pairs(saved.buckets, |saved.news|))
    ensures SameTable(s.news, now, newIds)
  {
    hide SavedFrom, Pairs;
    var pairs := Pairs(saved.buckets, |saved.news|);
    forall sl | sl in s.news ensures sl in now {
      SavedComplete(cfg, s, saved, newIds, triedIds, info, sl);
      var p :| p in pairs && p.1 in info && SlotOf(cfg, info, p) == sl;
      var i :| 0 <= i < |pairs| && pairs[i] == p;
    }
    forall sl | sl in now
      ensures sl in s.news && 0 <= now[sl] < |newIds| && newIds[now[sl]] == s.news[sl]
    {
      var i :| 0 <= i < |pairs| && SlotOf(cfg, info, pairs[i]) == sl;
    }
  }

  /** The saved tried entry j occupied its position, and does again under its new id. */
  lemma {:induction false} TriedEntryRestored(cfg: Config, s: State, saved: Saved, newIds: seq<int>, triedIds: seq<int>,
      now: map<Slot, int>, j: nat)
    requires TriedOk(cfg, s.info, s.tried) && SavedFrom(cfg, s, saved, newIds, triedIds) && j < |triedIds|
    requires TriedTable(cfg, now, saved.tried, |newIds|)
    ensures var sl := cfg.TriedSlot(saved.tried[j].addr);
            sl in s.tried && s.tried[sl] == triedIds[j] && sl in now && now[sl] == |newIds| + j
  {
    hide BucketSaved, Enumerates;
    EnumeratedAt(triedIds, TriedIds(s.info), j);
    var id := triedIds[j];
    assert id in s.info && s.info[id].inTried;
  }

  lemma {:induction false} TriedSlotSaved(cfg: Config, s: State, saved: Saved, newIds: seq<int>, triedIds: seq<int>,
      sl: Slot) returns (j: nat)
    requires TriedOk(cfg, s.info, s.tried) && SavedFrom(cfg, s, saved, newIds, triedIds) && sl in s.tried
    ensures j < |triedIds| && cfg.TriedSlot(saved.tried[j].addr) == sl
  {
    hide BucketSaved, Enumerates;
    var id := s.tried[sl];
    assert id in s.info && id in TriedIds(s.info);
    j := IndexIn(triedIds, TriedIds(s.info), id);
  }

  lemma {:induction false} TriedTableRestored(cfg: Config, s: State, saved: Saved, newIds: seq<int>, triedIds: seq<int>,
      now: map<Slot, int>)
    requires TriedOk(cfg, s.info, s.tried) && SavedFrom(cfg, s, saved, newIds, triedIds)
    requires TriedTable(cfg, now, saved.tried, |newIds|)
    ensures SameTable(s.tried, now, newIds + triedIds)
  {
    hide TriedOk, SavedFrom, TriedTable;
    forall sl | sl in s.tried ensures sl in now {
      var j := TriedSlotSaved(cfg, s, saved, newIds, triedIds, sl);
      TriedEntryRestored(cfg, s, saved, newIds, triedIds, now, j);
    }
    forall sl | sl in now
      ensures sl in s.tried && 0 <= now[sl] < |newIds| + |triedIds| && (newIds + triedIds)[now[sl]] == s.tried[sl]
    {
      var j := TriedTableAt(cfg, now, saved.tried, |newIds|, sl);
      SavedLength(cfg, s, saved, newIds, triedIds);
      TriedEntryRestored(cfg, s, saved, newIds, triedIds, now, j);
      assert (newIds + triedIds)[|newIds| + j] == triedIds[j];
    }
  }

  lemma {:induction false} TriedTableAt(cfg: Config, now: map<Slot, int>, tried: seq<Entry>, base: nat,
      sl: Slot) returns (j: nat)
    requires TriedTable(cfg, now, tried, base) && sl in now
    ensures j < |tried| && cfg.TriedSlot(tried[j].addr) == sl
  {
    j :| 0 <= j < |tried| && cfg.TriedSlot(tried[j].addr) == sl;
  }

  lemma {:induction false} SavedLength(cfg: Config, s: State, saved: Saved, newIds: seq<int>, triedIds: seq<int>)
    requires SavedFrom(cfg, s, saved, newIds, triedIds)
    ensures |saved.news| == |newIds| && |saved.tried| == |triedIds| && |saved.buckets| == cfg.newBuckets
  {
  }

  lemma {:induction false} EnumeratedAt(ids: seq<int>, all: set<int>, i: nat)
    requires Enumerates(ids, all) && i < |ids|
    ensures ids[i] in all
  {
    var id := ids[i];
    assert id in ids;
  }

  lemma {:induction false} IndexIn(ids: seq<int>, all: set<int>, id: int) returns (i: nat)
    requires Enumerates(ids, all) && id in all
    ensures i < |ids| && ids[i] == id
  {
    assert id in ids;
    i :| 0 <= i < |ids| && ids[i] == id;
  }

  lemma {:induction false} EnumerationSize(ids: seq<int>, all: set<int>)
    requires Enumerates(ids, all)
    ensures |ids| == |all|
  {
    DistinctSize(ids);
    assert (set x | x in ids) == all;
  }

  /** New ids, then tried ids: all ids, each once. */
  lemma {:induction false} AllIds(s: State, newIds: seq<int>, triedIds: seq<int>)
    requires Enumerates(newIds, Untried(s.info)) && Enumerates(triedIds, TriedIds(s.info))
    ensures var ids := newIds + triedIds;
            && (forall i, j | 0 <= i < j < |ids| :: ids[i] != ids[j]) && (forall id | id in s.info :: id in ids)
            && (forall i | 0 <= i < |ids| :: ids[i] in s.info && (s.info[ids[i]].inTried <==> i >= |newIds|))
  {
    hide Enumerates;
    var ids := newIds + triedIds;
    forall i | 0 <= i < |ids| ensures ids[i] in s.info && (s.info[ids[i]].inTried <==> i >= |newIds|) {
      if i < |newIds| {
        EnumeratedAt(newIds, Untried(s.info), i);
      } else {
        EnumeratedAt(triedIds, TriedIds(s.info), i - |newIds|);
      }
    }
    forall i, j | 0 <= i < j < |ids| ensures ids[i] != ids[j] {
      EachOnce(newIds, Untried(s.info));
      EachOnce(triedIds, TriedIds(s.info));
    }
    forall id | id in s.info ensures id in ids {
      if s.info[id].inTried {
        var i := IndexIn(triedIds, TriedIds(s.info), id);
        assert ids[|newIds| + i] == id;
      } else {
        var i := IndexIn(newIds, Untried(s.info), id);
        assert ids[i] == id;
      }
    }
  }

  lemma {:induction false} EachOnce(ids: seq<int>, all: set<int>)
    requires Enumerates(ids, all)
    ensures forall i, j | 0 <= i < j < |ids| :: ids[i] != ids[j]
  {
  }

  lemma {:induction false} WidenTable(table: map<Slot, int>, now: map<Slot, int>, ids: seq<int>, more: seq<int>)
    requires SameTable(table, now, ids)
    ensures SameTable(table, now, ids + more)
  {
  }

  /** Before positions are given out, every entry is there with what was stored of it. */
  lemma {:induction false} EntriesLoaded(cfg: Config, s: State, saved: Saved, newIds: seq<int>, triedIds: seq<int>)
    requires Inv(cfg, s) && SavedFrom(cfg, s, saved, newIds, triedIds)
    ensures var u := AllTried(cfg, AllNew(EMPTY, saved.news), saved.tried); var ids := newIds + triedIds;
            && u.idCount == |ids| && (forall id :: id in u.info <==> 0 <= id < |ids|)
            && u.nNew == |newIds| && u.nTried == |triedIds| && u.news == map[]
            && (forall i | 0 <= i < |ids| :: i in u.info && ids[i] in s.info && SameSaved(u.info[i], s.info[ids[i]]))
            && TriedTable(cfg, u.tried, saved.tried, |newIds|)
  {
    hide Inv, AllTried, AllNew, TriedTable, SavedFrom;
    SavedSlots(cfg, s, saved, newIds, triedIds);
    SavedLength(cfg, s, saved, newIds, triedIds);
    AllNewIs(saved.news);
    var m := AllNew(EMPTY, saved.news);
    AllTriedExact(cfg, m, saved.tried);
    AllTriedIs(cfg, m, saved.tried);
    var u := AllTried(cfg, m, saved.tried);
    var ids := newIds + triedIds;
    forall id ensures id in u.info <==> 0 <= id < |ids| {
      assert id in m.info <==> 0 <= id < |newIds|;
    }
    forall i | 0 <= i < |ids| ensures i in u.info && ids[i] in s.info && SameSaved(u.info[i], s.info[ids[i]]) {
      EntryLoaded(cfg, s, saved, newIds, triedIds, m, u, i);
    }
  }

  lemma {:induction false} EntryLoaded(cfg: Config, s: State, saved: Saved, newIds: seq<int>, triedIds: seq<int>,
      m: State, u: State, i: nat)
    requires SavedFrom(cfg, s, saved, newIds, triedIds) && i < |newIds| + |triedIds|
    requires NewLoaded(m, saved.news) && TriedExact(m, u, saved.tried)
    ensures i in u.info && (newIds + triedIds)[i] in s.info && SameSaved(u.info[i], s.info[(newIds + triedIds)[i]])
  {
    hide Enumerates, BucketSaved;
    if i < |newIds| {
      EnumeratedAt(newIds, Untried(s.info), i);
      assert i in m.info && saved.news[i] == EntryOf(s.info[newIds[i]]);
    } else {
      var j := i - |newIds|;
      EnumeratedAt(triedIds, TriedIds(s.info), j);
      assert saved.tried[j] == EntryOf(s.info[triedIds[j]]);
      assert i in u.info && TriedEntry(u.info[i], saved.tried[j]);
    }
  }

  /** Everything but the lookup by address is restored, whatever the port policy. */
  lemma {:induction false} FilledRestored(cfg: Config, s: State, saved: Saved, newIds: seq<int>, triedIds: seq<int>)
    requires cfg.Wf() && Inv(cfg, s) && SavedFrom(cfg, s, saved, newIds, triedIds)
    ensures Restored(s, Filled(cfg, EMPTY, saved, true), newIds + triedIds)
  {
    hide Inv, Loading, Held, LooseIds, BucketSaved, Pairs, RawIndex;
    hide AllPlaced, AllTried, AllNew, TriedTable, SameTable, Enumerates;
    var m := AllNew(EMPTY, saved.news);
    AllNewKeeps(cfg, saved.news);
    AllTriedKeeps(cfg, m, saved.tried);
    EntriesLoaded(cfg, s, saved, newIds, triedIds);
    var u := AllTried(cfg, m, saved.tried);
    var pairs := Pairs(saved.buckets, |saved.news|);
    AllPlacedIs(cfg, u, true, pairs);
    FilledKeeps(cfg, saved, true);
    AllIds(s, newIds, triedIds);
    var ids := newIds + triedIds;
    forall i | 0 <= i < |newIds|
      ensures newIds[i] in s.info && i in u.info && u.info[i].addr == s.info[newIds[i]].addr && !u.info[i].inTried
    {
      assert ids[i] == newIds[i];
    }
    NewTableRestored(cfg, s, saved, newIds, triedIds, u);
    InvTried(cfg, s);
    TriedTableRestored(cfg, s, saved, newIds, triedIds, u.tried);
    Counts(cfg, s, newIds, triedIds);
    var t := AllPlaced(cfg, u, true, pairs);
    WidenTable(s.news, t.news, newIds, triedIds);
    forall i | 0 <= i < |ids| ensures ids[i] in s.info && SameEntry(t.info[i], s.info[ids[i]]) {
      assert i in u.info && i in t.info;
      if i < |newIds| {
        assert ids[i] == newIds[i];
      } else {
        var id := ids[i];
        assert id in s.info && s.info[id].inTried;
        LoadingTried(cfg, t, i);
      }
    }
  }

  ghost predicate SameSaved(i: Info, j: Info) {
    EntryOf(i) == EntryOf(j) && i.inTried == j.inTried && i.lastTry == i.lastCountAttempt == 0
  }

  lemma {:induction false} InvTried(cfg: Config, s: State)
    requires Inv(cfg, s)
    ensures TriedOk(cfg, s.info, s.tried) && forall id | id in s.info && s.info[id].inTried :: s.info[id].refCount == 0
  {
  }

  lemma {:induction false} LoadingTried(cfg: Config, s: State, id: int)
    requires Loading(cfg, s) && id in s.info && s.info[id].inTried
    ensures s.info[id].refCount == 0
  {
  }

  lemma {:induction false} Counts(cfg: Config, s: State, newIds: seq<int>, triedIds: seq<int>)
    requires Inv(cfg, s) && Enumerates(newIds, Untried(s.info)) && Enumerates(triedIds, TriedIds(s.info))
    ensures |newIds| == s.nNew && |triedIds| == s.nTried
  {
    hide AddrOk, RandomOk, TriedOk, NewOk, RefsOk, LooseOk, IdsOk, TimesOk, CollisionsOk, Enumerates;
    EnumerationSize(newIds, Untried(s.info));
    EnumerationSize(triedIds, TriedIds(s.info));
  }

  lemma {:induction false} PrunedNothing(cfg: Config, s: State, ids: seq<int>)
    requires LooseIds(s.info) == {} && RandomOk(s.info, s.random)
    ensures Pruned(cfg, s, ids) == s
  {
    hide Deleted, RandomOk;
    if ids != [] {
      PrunedNothing(cfg, s, ids[..|ids| - 1]);
      DeletedIs(cfg, s, ids[|ids| - 1]);
    }
  }

  /**
   * Loading what a consistent manager saved loses no entry and rebuilds both tables and all reference counts,
   * up to the numbering of ids; lookups by address work again exactly when every stored service is its own key.
   */
  lemma {:induction false} RoundTrip(cfg: Config, s: State, saved: Saved, newIds: seq<int>, triedIds: seq<int>,
      order: seq<int>)
    requires cfg.Wf() && Inv(cfg, s) && SavedFrom(cfg, s, saved, newIds, triedIds)
    ensures var t := Pruned(cfg, Filled(cfg, EMPTY, saved, true), order);
            && Restored(s, t, newIds + triedIds)
            && (Inv(cfg, t) <==> cfg.discriminatePorts || forall id | id in s.info :: s.info[id].addr.port == 0)
    ensures LoadsClean(cfg, Filled(cfg, EMPTY, saved, true))
       <==> cfg.discriminatePorts || forall id | id in s.info :: s.info[id].addr.port == 0
  {
    hide Inv, Pruned, Filled, Loading, LooseIds, LoadsClean, SavedFrom, RandomOk;
    var ids := newIds + triedIds;
    FilledRestored(cfg, s, saved, newIds, triedIds);
    var f := Filled(cfg, EMPTY, saved, true);
    NoneLoose(cfg, s, f, ids);
    SavedLength(cfg, s, saved, newIds, triedIds);
    FilledKeeps(cfg, saved, true);
    LoadingRandom(cfg, f);
    PrunedNothing(cfg, f, order);
    var all := seq(|ids|, i => i);
    forall id | id in f.info ensures id in all { assert all[id] == id; }
    PrunedNothing(cfg, f, all);
    LoadedConsistent(cfg, saved, true, all);
    CleanIff(cfg, s, f, ids);
  }

  /** A restored manager loads clean exactly when every service is its own key. */
  lemma {:induction false} CleanIff(cfg: Config, s: State, f: State, ids: seq<int>)
    requires Inv(cfg, s) && Restored(s, f, ids)
    ensures LoadsClean(cfg, f) <==> cfg.discriminatePorts || forall id | id in s.info :: s.info[id].addr.port == 0
  {
    hide RandomOk, TriedOk, NewOk, RefsOk, CountOk, IdsOk, LooseOk, CollisionsOk, SameTable, LooseIds;
    forall x | x in f.info
      ensures ids[x] in s.info && f.info[x].addr == s.info[ids[x]].addr
      ensures f.info[x].lastSuccess >= 0 && (f.info[x].inTried ==> f.info[x].lastSuccess > 0)
    {
      var id := ids[x];
      assert id in s.info && SameEntry(f.info[x], s.info[ids[x]]);
    }
    forall x, y | x in f.info && y in f.info && x != y ensures f.info[x].addr != f.info[y].addr {
      SameService(cfg, s, ids[x], ids[y]);
    }
    if forall x | x in f.info :: cfg.Norm(f.info[x].addr) == f.info[x].addr {
      forall id | id in s.info ensures cfg.discriminatePorts || s.info[id].addr.port == 0 {
        var x :| 0 <= x < |ids| && ids[x] == id;
        assert x in f.info;
      }
    }
  }

  lemma {:induction false} NoneLoose(cfg: Config, s: State, t: State, ids: seq<int>)
    requires Inv(cfg, s) && Restored(s, t, ids)
    ensures LooseIds(t.info) == {}
  {
    hide AddrOk, RandomOk, TriedOk, NewOk, RefsOk, CountOk, IdsOk, TimesOk, CollisionsOk, SameTable;
    forall i | 0 <= i < |ids| ensures t.info[i].inTried || t.info[i].refCount != 0 {
      var id := ids[i];
      assert id in s.info && SameEntry(t.info[i], s.info[ids[i]]);
    }
    if LooseIds(t.info) != {} { var id := Member(LooseIds(t.info)); }
  }
}
