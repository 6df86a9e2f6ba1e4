/** Writing the address manager's stored form, and rebuilding the manager from it, in place. */
module AddrFile {
  import opened AddrTables
  import opened AddrOps
  import opened AddrMan
  import opened AddrStore
  import opened AddrLoad
  import Nonlinear

  // ---- saving ----

  /** The ids of `order` that satisfy `want`, counted so far: what both saving loops collect. */
  ghost predicate Collected(info: map<int, Info>, done: seq<int>, ids: seq<int>, entries: seq<Entry>, tried: bool) {
    && (forall i, j | 0 <= i < j < |ids| :: ids[i] != ids[j])
    && (forall id :: id in ids <==> id in done && id in info && info[id].inTried == tried)
    && |entries| == |ids| && (forall i | 0 <= i < |ids| :: ids[i] in info && entries[i] == EntryOf(info[ids[i]]))
  }

  lemma {:induction false} CollectedNext(info: map<int, Info>, order: seq<int>, n: nat, ids: seq<int>,
      entries: seq<Entry>,
      tried: bool)
    requires n < |order| && (forall i, j | 0 <= i < j < |order| :: order[i] < order[j]) && order[n] in info
    requires Collected(info, order[..n], ids, entries, tried)
    ensures order[n] !in ids
    ensures if info[order[n]].inTried == tried
            then Collected(info, order[..n + 1], ids + [order[n]], entries + [EntryOf(info[order[n]])], tried)
            else Collected(info, order[..n + 1], ids, entries, tried)
  {
    var x := order[n];
    assert order[..n + 1] == order[..n] + [x];
    assert x !in order[..n];
    assert forall id :: id in order[..n + 1] <==> id in order[..n] || id == x;
    var all := ids + [x];
    assert forall id :: id in all <==> id in ids || id == x;
  }

  lemma {:induction false} CollectedAll(info: map<int, Info>, order: seq<int>, ids: seq<int>, entries: seq<Entry>,
      tried: bool)
    requires Collected(info, order, ids, entries, tried) && forall id :: id in order <==> id in info
    ensures Enumerates(ids, if tried then TriedIds(info) else Untried(info))
  {
    var all := if tried then TriedIds(info) else Untried(info);
    forall id ensures id in ids <==> id in all {
      assert id in order <==> id in info;
    }
  }

  /** While an entry is still to come, fewer have been collected than there are. */
  lemma {:induction false} MoreToCome(ids: seq<int>, all: set<int>, x: int)
    requires forall i, j | 0 <= i < j < |ids| :: ids[i] != ids[j]
    requires (forall id | id in ids :: id in all) && x in all && x !in ids
    ensures |ids| < |all|
  {
    DistinctSize(ids);
    var seen := set y | y in ids;
    assert seen <= all - {x};
    SubsetSize(seen, all - {x});
  }

  method CollectEntries(m: AddressManager, order: seq<int>, tried: bool)
      returns (entries: seq<Entry>, index: map<int, nat>, ghost ids: seq<int>)
    requires m.Valid() && (forall i, j | 0 <= i < j < |order| :: order[i] < order[j])
    requires forall id :: id in order <==> id in m.mapInfo
    ensures Enumerates(ids, if tried then TriedIds(m.mapInfo) else Untried(m.mapInfo))
    ensures |entries| == |ids|
    ensures forall i | 0 <= i < |ids| :: ids[i] in m.mapInfo && entries[i] == EntryOf(m.mapInfo[ids[i]])
    ensures forall i | 0 <= i < |ids| :: ids[i] in index && index[ids[i]] == i
  {
    hide Inv, InvWith;
    entries, index, ids := [], map[], [];
    var n := 0;
    while n < |order|
      invariant 0 <= n <= |order| && Collected(m.mapInfo, order[..n], ids, entries, tried)
      invariant forall i | 0 <= i < |ids| :: ids[i] in index && index[ids[i]] == i
    {
      var id := order[n];
      assert id in order;
      index := index[id := |entries|];
      CollectedNext(m.mapInfo, order, n, ids, entries, tried);
      EntryKind(m.cfg, m.St(), id);
      if (if tried then m.mapInfo[id].inTried else m.mapInfo[id].refCount != 0) {
        CountLeft(m.cfg, m.St(), ids, id, tried);
        assert |entries| != if tried then m.nTried else m.nNew;
        entries := entries + [EntryOf(m.mapInfo[id])];
        ids := ids + [id];
      }
      n := n + 1;
    }
    assert order[..n] == order;
    CollectedAll(m.mapInfo, order, ids, entries, tried);
  }

  lemma {:induction false} EntryKind(cfg: Config, s: State, id: int)
    requires Inv(cfg, s) && id in s.info
    ensures s.info[id].inTried <==> s.info[id].refCount == 0
  {
  }

  lemma {:induction false} CountLeft(cfg: Config, s: State, ids: seq<int>, id: int, tried: bool)
    requires Inv(cfg, s) && id in s.info && s.info[id].inTried == tried && id !in ids
    requires forall i, j | 0 <= i < j < |ids| :: ids[i] != ids[j]
    requires forall x | x in ids :: x in s.info && s.info[x].inTried == tried
    ensures |ids| < if tried then s.nTried else s.nNew
  {
    hide AddrOk, RandomOk, TriedOk, NewOk, RefsOk, LooseOk, IdsOk, TimesOk, CollisionsOk;
    MoreToCome(ids, if tried then TriedIds(s.info) else Untried(s.info), id);
  }

  /** Index x names an entry held in bucket b, below position p. */
  ghost predicate Listed(cfg: Config, s: State, newIds: seq<int>, b: nat, x: int, p: nat) {
    && 0 <= x < |newIds| && newIds[x] in s.info
    && var sl := cfg.NewSlot(s.info[newIds[x]].addr, b);
       sl in s.news && s.news[sl] == newIds[x] && sl.pos < p
  }

  /** The part of a bucket's list that the first `p` positions give. */
  ghost predicate BucketSoFar(cfg: Config, s: State, newIds: seq<int>, b: nat, bucket: seq<int>, p: nat) {
    && (forall k | 0 <= k < |bucket| :: Listed(cfg, s, newIds, b, bucket[k], p))
    && (forall k, j | 0 <= k < j < |bucket| :: bucket[k] != bucket[j])
    && (forall sl | sl in s.news && sl.bucket == b && sl.pos < p :: NamedIn(newIds, bucket, s.news[sl]))
  }

  ghost predicate NamedIn(newIds: seq<int>, bucket: seq<int>, id: int) {
    exists k | 0 <= k < |bucket| :: 0 <= bucket[k] < |newIds| && newIds[bucket[k]] == id
  }

  lemma {:induction false} StillNamed(newIds: seq<int>, bucket: seq<int>, i: int, id: int)
    requires NamedIn(newIds, bucket, id) || (0 <= i < |newIds| && newIds[i] == id)
    ensures NamedIn(newIds, bucket + [i], id)
  {
    var r := bucket + [i];
    if NamedIn(newIds, bucket, id) {
      var k :| 0 <= k < |bucket| && 0 <= bucket[k] < |newIds| && newIds[bucket[k]] == id;
      assert r[k] == bucket[k];
    } else {
      assert r[|bucket|] == i;
    }
  }

  lemma {:induction false} BucketNext(cfg: Config, s: State, newIds: seq<int>, b: nat, bucket: seq<int>, p: nat, i: nat)
    requires NewOk(cfg, s.info, s.news) && BucketSoFar(cfg, s, newIds, b, bucket, p)
    requires Slot(b, p) in s.news && i < |newIds| && newIds[i] == s.news[Slot(b, p)]
    ensures BucketSoFar(cfg, s, newIds, b, bucket + [i], p + 1)
  {
    hide NamedIn;
    var id := s.news[Slot(b, p)];
    assert id in s.info && cfg.NewSlot(s.info[id].addr, b) == Slot(b, p);
    var r := bucket + [i];
    forall k | 0 <= k < |r| ensures Listed(cfg, s, newIds, b, r[k], p + 1) {
      if k < |bucket| { assert Listed(cfg, s, newIds, b, bucket[k], p); }
    }
    forall k | 0 <= k < |bucket| ensures bucket[k] != i { assert Listed(cfg, s, newIds, b, bucket[k], p); }
    forall sl | sl in s.news && sl.bucket == b && sl.pos < p + 1 ensures NamedIn(newIds, r, s.news[sl]) {
      if sl.pos >= p { assert sl == Slot(b, p); }
      StillNamed(newIds, bucket, i, s.news[sl]);
    }
  }

  lemma {:induction false} BucketSkip(cfg: Config, s: State, newIds: seq<int>, b: nat, bucket: seq<int>, p: nat)
    requires BucketSoFar(cfg, s, newIds, b, bucket, p) && Slot(b, p) !in s.news
    ensures BucketSoFar(cfg, s, newIds, b, bucket, p + 1)
  {
    forall sl | sl in s.news && sl.bucket == b && sl.pos < p + 1 ensures sl.pos < p { assert sl != Slot(b, p); }
  }

  lemma {:induction false} BucketDone(cfg: Config, s: State, newIds: seq<int>, b: nat, bucket: seq<int>)
    requires cfg.Wf() && NewOk(cfg, s.info, s.news) && BucketSoFar(cfg, s, newIds, b, bucket, cfg.bucketSize)
    ensures BucketSaved(cfg, s, newIds, b, bucket)
  {
    forall sl | sl in s.news ensures sl.pos < cfg.bucketSize {
      assert sl == cfg.NewSlot(s.info[s.news[sl]].addr, sl.bucket);
    }
  }

  method SaveBucket(m: AddressManager, b: nat, index: map<int, nat>, ghost newIds: seq<int>) returns (bucket: seq<int>)
    requires m.Valid() && b < m.cfg.newBuckets && Enumerates(newIds, Untried(m.mapInfo))
    requires forall i | 0 <= i < |newIds| :: newIds[i] in index && index[newIds[i]] == i
    ensures BucketSaved(m.cfg, m.St(), newIds, b, bucket)
  {
    hide Inv, InvWith, Occupied, BucketSoFar, NewOk, Enumerates;
    ghost var s := m.St();
    InvParts(m.cfg, s);
    NewParts(m.cfg, s, {}, 0);
    bucket := [];
    NothingSoFar(m.cfg, s, newIds, b);
    var p := 0;
    while p < m.cfg.bucketSize
      invariant 0 <= p <= m.cfg.bucketSize && BucketSoFar(m.cfg, s, newIds, b, bucket, p)
    {
      var id := Read(m.vvNew, Slot(b, p));
      if id != -1 {
        HolderIsNew(m.cfg, s, Slot(b, p));
        ghost var i := IndexIn(newIds, Untried(s.info), id);
        BucketNext(m.cfg, s, newIds, b, bucket, p, i);
        bucket := bucket + [index[id]];
      } else {
        BucketSkip(m.cfg, s, newIds, b, bucket, p);
      }
      p := p + 1;
    }
    BucketDone(m.cfg, s, newIds, b, bucket);
  }

  lemma {:induction false} NothingSoFar(cfg: Config, s: State, newIds: seq<int>, b: nat)
    ensures BucketSoFar(cfg, s, newIds, b, [], 0)
  {
  }

  lemma {:induction false} HolderIsNew(cfg: Config, s: State, sl: Slot)
    requires NewOk(cfg, s.info, s.news) && sl in s.news
    ensures s.news[sl] in Untried(s.info)
  {
    var id := s.news[sl];
    assert id in s.info;
  }

  method Save(m: AddressManager, asmap: int) returns (saved: Saved, ghost newIds: seq<int>, ghost triedIds: seq<int>)
    requires m.Valid()
    ensures SavedFrom(m.cfg, m.St(), saved, newIds, triedIds) && saved.asmap == asmap
  {
    hide Inv, InvWith, Occupied, BucketSaved, Enumerates;
    var order := SortIds(m.mapInfo.Keys);
    var news, index, ids1 := CollectEntries(m, order, false);
    var tried, _, ids2 := CollectEntries(m, order, true);
    newIds, triedIds := ids1, ids2;
    var buckets: seq<seq<int>> := [];
    while |buckets| < m.cfg.newBuckets
      invariant |buckets| <= m.cfg.newBuckets
      invariant forall b | 0 <= b < |buckets| :: BucketSaved(m.cfg, m.St(), newIds, b, buckets[b])
    {
      var bucket := SaveBucket(m, |buckets|, index, newIds);
      buckets := buckets + [bucket];
    }
    saved := Saved(news, tried, buckets, asmap);
  }

  // ---- loading ----

  method LoadNewEntries(m: AddressManager, news: seq<Entry>)
    requires RandomOk(m.mapInfo, m.vRandom) && IdsOk(m.mapInfo, m.nIdCount)
    modifies m
    ensures m.St() == AllNew(old(m.St()), news) && RandomOk(m.mapInfo, m.vRandom) && IdsOk(m.mapInfo, m.nIdCount)
  {
    hide Occupied, RandomOk, IdsOk;
    ghost var s := m.St();
    var n := 0;
    while n < |news|
      invariant 0 <= n <= |news| && m.St() == AllNew(s, news[..n])
      invariant RandomOk(m.mapInfo, m.vRandom) && IdsOk(m.mapInfo, m.nIdCount)
    {
      NewEntryIndexes(m.St(), InfoOf(news[n], false, |m.vRandom|));
      assert news[..n + 1][..n] == news[..n];
      LoadNewEntry(m, news[n]);
      n := n + 1;
    }
    assert news[..n] == news;
  }

  method LoadNewEntry(m: AddressManager, e: Entry)
    modifies m
    ensures m.St() == WithNew(old(m.St()), e)
  {
    hide Occupied;
    var id := m.nIdCount;
    m.mapInfo := m.mapInfo[id := InfoOf(e, false, |m.vRandom|)];
    m.mapAddr := m.mapAddr[e.addr := id];
    m.vRandom := m.vRandom + [id];
    m.nIdCount := id + 1;
    m.nNew := m.nNew + 1;
  }

  method LoadTriedEntries(m: AddressManager, tried: seq<Entry>)
    requires m.Wf() && RandomOk(m.mapInfo, m.vRandom) && IdsOk(m.mapInfo, m.nIdCount)
    modifies m, m.vvTried
    ensures m.St() == AllTried(m.cfg, old(m.St()), tried)
    ensures RandomOk(m.mapInfo, m.vRandom) && IdsOk(m.mapInfo, m.nIdCount)
  {
    hide Occupied, RandomOk, IdsOk;
    ghost var s := m.St();
    var n := 0;
    while n < |tried|
      invariant 0 <= n <= |tried| && m.St() == AllTried(m.cfg, s, tried[..n])
      invariant RandomOk(m.mapInfo, m.vRandom) && IdsOk(m.mapInfo, m.nIdCount)
    {
      NewEntryIndexes(m.St(), InfoOf(tried[n], true, |m.vRandom|));
      assert tried[..n + 1][..n] == tried[..n];
      LoadTriedEntry(m, tried[n]);
      n := n + 1;
    }
    assert tried[..n] == tried;
  }

  method LoadTriedEntry(m: AddressManager, e: Entry)
    requires m.Wf()
    modifies m, m.vvTried
    ensures m.St() == WithTried(m.cfg, old(m.St()), e)
  {
    hide Occupied;
    var sl := m.cfg.TriedSlot(e.addr);
    var at := Read(m.vvTried, sl);
    if at == -1 {
      var id := m.nIdCount;
      m.mapInfo := m.mapInfo[id := InfoOf(e, true, |m.vRandom|)];
      m.mapAddr := m.mapAddr[e.addr := id];
      m.vRandom := m.vRandom + [id];
      Write(m.vvTried, sl, id);
      m.nIdCount := id + 1;
      m.nTried := m.nTried + 1;
    }
  }

  method CollectPairs(buckets: seq<seq<int>>, count: nat) returns (pairs: seq<(nat, int)>)
    ensures pairs == Pairs(buckets, count)
  {
    pairs := [];
    var b := 0;
    while b < |buckets|
      invariant 0 <= b <= |buckets| && pairs == Pairs(buckets[..b], count)
    {
      ghost var before := pairs;
      var bucket, n := buckets[b], 0;
      while n < |bucket|
        invariant 0 <= n <= |bucket| && pairs == before + BucketPairs(b, bucket[..n], count)
      {
        assert bucket[..n + 1][..n] == bucket[..n];
        if 0 <= bucket[n] < count {
          pairs := pairs + [(b, bucket[n])];
        }
        n := n + 1;
      }
      assert bucket[..n] == bucket;
      assert buckets[..b + 1][..b] == buckets[..b];
      b := b + 1;
    }
    assert buckets[..b] == buckets;
  }

  method PlaceEntries(m: AddressManager, restore: bool, pairs: seq<(nat, int)>)
    requires m.Wf() && RandomOk(m.mapInfo, m.vRandom)
    requires forall i | 0 <= i < |pairs| :: pairs[i].1 >= 0 && (restore ==> pairs[i].0 < m.cfg.newBuckets)
    modifies m, m.vvNew
    ensures m.St() == AllPlaced(m.cfg, old(m.St()), restore, pairs) && RandomOk(m.mapInfo, m.vRandom)
  {
    hide Occupied;
    ghost var s := m.St();
    var n := 0;
    while n < |pairs|
      invariant 0 <= n <= |pairs| && m.St() == AllPlaced(m.cfg, s, restore, pairs[..n])
      invariant RandomOk(m.mapInfo, m.vRandom)
    {
      assert pairs[..n + 1][..n] == pairs[..n];
      PlaceOne(m, restore, pairs[n].0, pairs[n].1);
      n := n + 1;
    }
    assert pairs[..n] == pairs;
  }

  method PlaceOne(m: AddressManager, restore: bool, b: nat, index: int)
    requires m.Wf() && RandomOk(m.mapInfo, m.vRandom) && index >= 0 && (restore ==> b < m.cfg.newBuckets)
    modifies m, m.vvNew
    ensures m.St() == Placed(m.cfg, old(m.St()), restore, b, index) && RandomOk(m.mapInfo, m.vRandom)
  {
    hide Occupied;
    if index !in m.mapInfo || m.mapInfo[index].refCount >= NEW_BUCKETS_PER_ADDRESS {
      return;
    }
    var i := m.mapInfo[index];
    var sl := m.cfg.NewSlot(i.addr, b);
    var at := 0;
    if restore { at := Read(m.vvNew, sl); }
    if restore && at == -1 {
      Write(m.vvNew, sl, index);
      m.mapInfo := m.mapInfo[index := i.(refCount := i.refCount + 1)];
    } else {
      sl := m.cfg.NewSlot(i.addr, m.cfg.newBucketOf(i.addr, i.source));
      at := Read(m.vvNew, sl);
      if at == -1 {
        Write(m.vvNew, sl, index);
        m.mapInfo := m.mapInfo[index := i.(refCount := i.refCount + 1)];
      }
    }
  }

  method Prune(m: AddressManager) returns (ghost order: seq<int>)
    requires RandomOk(m.mapInfo, m.vRandom)
    modifies m
    ensures m.St() == Pruned(m.cfg, old(m.St()), order) && forall id | id in old(m.mapInfo) :: id in order
  {
    hide Occupied, RandomOk, Deleted;
    ghost var s := m.St();
    var todo := SortIds(m.mapInfo.Keys);
    order := todo;
    var n := 0;
    while n < |todo|
      invariant 0 <= n <= |todo| && m.St() == Pruned(m.cfg, s, todo[..n]) && RandomOk(m.mapInfo, m.vRandom)
    {
      var id := todo[n];
      assert todo[..n + 1][..n] == todo[..n];
      DeletedRandom(m.cfg, m.St(), id);
      if id in m.mapInfo && !m.mapInfo[id].inTried && m.mapInfo[id].refCount == 0 {
        m.Delete(id);
      } else {
        DeletedIs(m.cfg, m.St(), id);
      }
      n := n + 1;
    }
    assert todo[..n] == todo;
  }

  /** Whether stored buckets can be used as they are. */
  predicate CanRestore(cfg: Config, saved: Saved, asmap: int) {
    |saved.buckets| == cfg.newBuckets && saved.asmap == asmap
  }

  method Load(m: AddressManager, saved: Saved, asmap: int) returns (ok: bool, ghost order: seq<int>)
    requires m.Wf()
    modifies m, m.vvNew, m.vvTried
    ensures ok <==> |saved.news| <= m.cfg.newBuckets * m.cfg.bucketSize
                    && |saved.tried| <= m.cfg.triedBuckets * m.cfg.bucketSize
    ensures ok ==>
              var filled := Filled(m.cfg, EMPTY, saved, CanRestore(m.cfg, saved, asmap));
              var loaded := Pruned(m.cfg, filled, order);
              && m.St() == loaded.(collisions := old(m.triedCollisions)) && m.Wf()
              && (m.Valid() <==> LoadsClean(m.cfg, filled) && FitCollisions(m.cfg, loaded, old(m.triedCollisions)))
    ensures ok ==> LoadedFrom(m.cfg, m.St(), saved, |saved.buckets| == m.cfg.newBuckets && saved.asmap == asmap)
  {
    hide Occupied, AllNew, AllTried, AllPlaced, Pruned, Inv, LoadsClean, FitCollisions, LoadedFrom;
    ghost var s := m.St();
    m.Clear();
    order := [];
    if |saved.news| > m.cfg.newBuckets * m.cfg.bucketSize || |saved.tried| > m.cfg.triedBuckets * m.cfg.bucketSize {
      return false, [];
    }
    LoadNewEntries(m, saved.news);
    LoadTriedEntries(m, saved.tried);
    var pairs := CollectPairs(saved.buckets, |saved.news|);
    PairsWithin(saved.buckets, |saved.news|);
    forall i | 0 <= i < |pairs| ensures pairs[i].1 >= 0 && pairs[i].0 < |saved.buckets| { assert pairs[i] in pairs; }
    PlaceEntries(m, CanRestore(m.cfg, saved, asmap), pairs);
    order := Prune(m);
    LoadedInto(m.cfg, s, saved, CanRestore(m.cfg, saved, asmap), order);
    LoadsWhere(m.cfg, s, saved, CanRestore(m.cfg, saved, asmap), order);
    ok := true;
  }

  // ---- what was saved can always be loaded ----

  ghost function Row(b: nat, size: nat): set<Slot> { set p: nat | p < size :: Slot(b, p) }

  ghost function Grid(buckets: nat, size: nat): set<Slot> {
    if buckets == 0 then {} else Grid(buckets - 1, size) + Row(buckets - 1, size)
  }

  lemma {:induction false} RowSize(b: nat, size: nat)
    ensures |Row(b, size)| == size
  {
    if size == 0 {
      assert Row(b, 0) == {};
    } else {
      RowSize(b, size - 1);
      assert Row(b, size) == Row(b, size - 1) + {Slot(b, size - 1)};
    }
  }

  lemma {:induction false} GridMembers(buckets: nat, size: nat)
    ensures forall sl :: sl in Grid(buckets, size) <==> sl.bucket < buckets && sl.pos < size
  {
    if buckets > 0 {
      GridMembers(buckets - 1, size);
      forall sl ensures sl in Grid(buckets, size) <==> sl.bucket < buckets && sl.pos < size {
        RowMember(buckets - 1, size, sl);
      }
    }
  }

  lemma {:induction false} RowMember(b: nat, size: nat, sl: Slot)
    ensures sl in Row(b, size) <==> sl.bucket == b && sl.pos < size
  {
    if sl.bucket == b && sl.pos < size { assert Slot(b, sl.pos) == sl; }
  }

  lemma {:induction false} SumOfSizes(x: set<Slot>, y: set<Slot>)
    requires x !! y
    ensures |x + y| == |x| + |y|
  {
  }

  lemma {:induction false} GridSize(buckets: nat, size: nat)
    ensures |Grid(buckets, size)| == buckets * size
  {
    hide Row;
    if buckets > 0 {
      GridSize(buckets - 1, size);
      RowSize(buckets - 1, size);
      GridMembers(buckets - 1, size);
      var x, y := Grid(buckets - 1, size), Row(buckets - 1, size);
      forall sl | sl in x ensures sl !in y { RowMember(buckets - 1, size, sl); }
      SumOfSizes(x, y);
      Nonlinear.MulNext(buckets - 1, size);
    }
  }

  /** Entries that each occupy a position are no more than the positions. */
  lemma {:induction false} NoMoreThanSlots(ids: set<int>, table: map<Slot, int>, slots: set<Slot>)
    requires forall id | id in ids :: exists sl :: sl in slots && sl in table && table[sl] == id
    ensures |ids| <= |slots|
    decreases ids
  {
    if ids != {} {
      var id := Member(ids);
      var sl :| sl in slots && sl in table && table[sl] == id;
      NoMoreThanSlots(ids - {id}, table, slots - {sl});
    }
  }

  lemma {:induction false} SavedFits(cfg: Config, s: State)
    requires cfg.Wf() && Inv(cfg, s)
    ensures s.nNew <= cfg.newBuckets * cfg.bucketSize && s.nTried <= cfg.triedBuckets * cfg.bucketSize
  {
    hide AddrOk, RandomOk, RefsOk, LooseOk, IdsOk, TimesOk, CollisionsOk;
    GridMembers(cfg.newBuckets, cfg.bucketSize);
    GridSize(cfg.newBuckets, cfg.bucketSize);
    GridMembers(cfg.triedBuckets, cfg.bucketSize);
    GridSize(cfg.triedBuckets, cfg.bucketSize);
    forall id | id in Untried(s.info)
      ensures exists sl :: sl in Grid(cfg.newBuckets, cfg.bucketSize) && sl in s.news && s.news[sl] == id
    {
      AlwaysHeld(cfg, s, id);
      var sl :| sl in s.news && s.news[sl] == id;
      assert sl == cfg.NewSlot(s.info[s.news[sl]].addr, sl.bucket);
    }
    NoMoreThanSlots(Untried(s.info), s.news, Grid(cfg.newBuckets, cfg.bucketSize));
    forall id | id in TriedIds(s.info)
      ensures exists sl :: sl in Grid(cfg.triedBuckets, cfg.bucketSize) && sl in s.tried && s.tried[sl] == id
    {
      var sl := cfg.TriedSlot(s.info[id].addr);
      assert sl in s.tried && sl in Grid(cfg.triedBuckets, cfg.bucketSize);
    }
    NoMoreThanSlots(TriedIds(s.info), s.tried, Grid(cfg.triedBuckets, cfg.bucketSize));
  }

  /** Saving one manager and loading it into another with the same settings, whatever that holds. */
  method SaveAndLoad(m: AddressManager, other: AddressManager, asmap: int) returns (ghost ids: seq<int>)
    requires m.Valid() && other.Wf() && other != m && other.cfg == m.cfg
    requires {m.vvNew, m.vvTried} !! {other.vvNew, other.vvTried}
    modifies other, other.vvNew, other.vvTried
    ensures Restored(m.St(), other.St(), ids) && other.triedCollisions == old(other.triedCollisions)
    ensures other.Valid() <==>
              && (m.cfg.discriminatePorts || forall id | id in m.mapInfo :: m.mapInfo[id].addr.port == 0)
              && FitCollisions(m.cfg, other.St(), other.triedCollisions)
  {
    hide Inv, InvWith, Occupied, SavedFrom, Filled, Pruned, Restored, LoadsClean, FitCollisions;
    var saved, newIds, triedIds := Save(m, asmap);
    ghost var s := m.St();
    SavedFits(m.cfg, s);
    SavedCounts(m.cfg, s, saved, newIds, triedIds);
    var ok, order := Load(other, saved, asmap);
    RoundTrip(m.cfg, s, saved, newIds, triedIds, order);
    ids := newIds + triedIds;
    ghost var f := Filled(m.cfg, EMPTY, saved, true);
    ghost var r := Pruned(m.cfg, f, order);
    SameButCollisions(m.cfg, s, r, other.triedCollisions, ids);
  }

  lemma {:induction false} SameButCollisions(cfg: Config, s: State, r: State, c: set<int>, ids: seq<int>)
    ensures Restored(s, r.(collisions := c), ids) <==> Restored(s, r, ids)
    ensures FitCollisions(cfg, r.(collisions := c), c) <==> FitCollisions(cfg, r, c)
  {
    hide SameTable, CollisionsOk;
  }

  lemma {:induction false} SavedCounts(cfg: Config, s: State, saved: Saved, newIds: seq<int>, triedIds: seq<int>)
    requires Inv(cfg, s) && SavedFrom(cfg, s, saved, newIds, triedIds)
    ensures |saved.news| == s.nNew && |saved.tried| == s.nTried && |saved.buckets| == cfg.newBuckets
  {
    hide Inv, Enumerates, BucketSaved;
    Counts(cfg, s, newIds, triedIds);
  }
}
