/** The address manager (`CAddrMan`) with its maps, its random order and its two bucket tables, updated in place. */
module AddrMan {
  import opened Wrappers
  import opened AddrTables
  import opened AddrOps
  import opened AddrPolicy
  import Nonlinear

  // ---- bucket tables in arrays, -1 for an empty position ----

  ghost function Occupied(t: array2<int>): map<Slot, int>
    reads t
  {
    map b, p | 0 <= b < t.Length0 && 0 <= p < t.Length1 && t[b, p] != -1 :: Slot(b, p) := t[b, p]
  }

  predicate Within(t: array2<int>, sl: Slot) { sl.bucket < t.Length0 && sl.pos < t.Length1 }

  method Write(t: array2<int>, sl: Slot, id: int)
    requires Within(t, sl)
    modifies t
    ensures Occupied(t) == if id == -1 then old(Occupied(t)) - {sl} else old(Occupied(t))[sl := id]
  {
    t[sl.bucket, sl.pos] := id;
    ghost var now := if id == -1 then old(Occupied(t)) - {sl} else old(Occupied(t))[sl := id];
    assert Occupied(t).Keys == now.Keys;
    assert forall k | k in now :: Occupied(t)[k] == now[k];
  }

  method Read(t: array2<int>, sl: Slot) returns (id: int)
    requires Within(t, sl)
    ensures id == -1 <==> sl !in Occupied(t)
    ensures sl in Occupied(t) ==> id == Occupied(t)[sl]
  {
    id := t[sl.bucket, sl.pos];
  }

  class AddressManager {
    const cfg: Config
    const vvTried: array2<int>
    const vvNew: array2<int>
    var nIdCount: nat
    var mapInfo: map<int, Info>
    var mapAddr: map<Service, int>
    var vRandom: seq<int>
    var nTried: int
    var nNew: int
    var nLastGood: int
    var triedCollisions: set<int>

    ghost predicate Wf()
    {
      && cfg.Wf() && vvTried != vvNew
      && vvTried.Length0 == cfg.triedBuckets && vvTried.Length1 == cfg.bucketSize
      && vvNew.Length0 == cfg.newBuckets && vvNew.Length1 == cfg.bucketSize
    }

    ghost function St(): State
      reads this, vvTried, vvNew
    {
      State(nIdCount, mapInfo, mapAddr, vRandom, nTried, nNew, Occupied(vvTried), Occupied(vvNew), nLastGood,
            triedCollisions)
    }

    ghost predicate Valid()
      reads this, vvTried, vvNew
    {
      Wf() && Inv(cfg, St())
    }

    constructor (cfg: Config)
      requires cfg.Wf()
      ensures Valid() && this.cfg == cfg && St() == EMPTY && fresh(vvTried) && fresh(vvNew)
    {
      this.cfg := cfg;
      vvTried := new int[cfg.triedBuckets, cfg.bucketSize]((_, _) => -1);
      vvNew := new int[cfg.newBuckets, cfg.bucketSize]((_, _) => -1);
      nIdCount, mapInfo, mapAddr, vRandom := 0, map[], map[], [];
      nTried, nNew, nLastGood, triedCollisions := 0, 0, 1, {};
      new;
      assert Occupied(vvTried) == map[] && Occupied(vvNew) == map[];
      EmptyInv(cfg);
    }

    method SwapRandom(i: int, j: int)
      requires RandomOk(mapInfo, vRandom) && 0 <= i < |vRandom| && 0 <= j < |vRandom|
      modifies this`mapInfo, this`vRandom
      ensures St() == Swapped(old(St()), i, j)
    {
      hide Occupied;
      if i == j {
        return;
      }
      var id1, id2 := vRandom[i], vRandom[j];
      assert id1 in mapInfo && id2 in mapInfo;
      mapInfo := mapInfo[id1 := mapInfo[id1].(randomPos := j)];
      mapInfo := mapInfo[id2 := mapInfo[id2].(randomPos := i)];
      vRandom := vRandom[i := id2];
      vRandom := vRandom[j := id1];
    }

    method Delete(id: int)
      requires RandomOk(mapInfo, vRandom) && id in mapInfo && !mapInfo[id].inTried && mapInfo[id].refCount == 0
      modifies this
      ensures St() == Deleted(cfg, old(St()), id)
    {
      hide Occupied, Swapped, RandomOk;
      var addr := cfg.Norm(mapInfo[id].addr);
      RandomPlace(mapInfo, vRandom, id);
      SwappedKeys(St(), mapInfo[id].randomPos, |vRandom| - 1);
      SwapRandom(mapInfo[id].randomPos, |vRandom| - 1);
      vRandom := vRandom[..|vRandom| - 1];
      mapAddr := mapAddr - {addr};
      mapInfo := mapInfo - {id};
      nNew := nNew - 1;
    }

    method ClearNew(sl: Slot, ghost loose: set<int>, ghost off: int)
      requires Wf() && InvWith(cfg, St(), loose, off) && Within(vvNew, sl)
      modifies this, vvNew
      ensures St() == ClearedNew(cfg, old(St()), sl)
    {
      hide InvWith, Occupied, Deleted;
      var id := Read(vvNew, sl);
      if id != -1 {
        ReleasedKeeps(cfg, St(), sl, loose, off);
        assert mapInfo[id].refCount > 0;
        mapInfo := mapInfo[id := mapInfo[id].(refCount := mapInfo[id].refCount - 1)];
        Write(vvNew, sl, -1);
        assert St() == Released(old(St()), sl);
        if mapInfo[id].refCount == 0 {
          RandomPart(cfg, St(), loose + {id}, off);
          Delete(id);
        }
      }
    }

    /** Puts the entry at a wanted tried position back into the new table. */
    method MakeRoom(kSlot: Slot, evict: int, ghost id: int)
      requires Wf() && InvWith(cfg, St(), {id}, 1) && id in mapInfo && kSlot == cfg.TriedSlot(mapInfo[id].addr)
      requires kSlot in St().tried && St().tried[kSlot] == evict
      modifies this, vvNew, vvTried
      ensures evict in old(mapInfo) && St() == Readmitted(cfg, Evicted(old(St()), kSlot), evict)
    {
      hide InvWith, Occupied, ClearedNew;
      ghost var s := St();
      EvictedKeeps(cfg, s, kSlot, {id}, 1);
      assert evict in mapInfo;
      NonNegative(cfg, s, evict, {id}, 1);
      mapInfo := mapInfo[evict := mapInfo[evict].(inTried := false)];
      Write(vvTried, kSlot, -1);
      nTried := nTried - 1;
      ghost var v := Evicted(s, kSlot);
      assert St() == v;
      var uSlot := cfg.NewSlot(mapInfo[evict].addr, cfg.newBucketOf(mapInfo[evict].addr, mapInfo[evict].source));
      ReadmittedKeeps(cfg, v, evict, {id} + {evict}, 2);
      ClearedNewKeeps(cfg, v, uSlot, {id} + {evict}, 2);
      ClearNew(uSlot, {id} + {evict}, 2);
      assert uSlot !in Occupied(vvNew);
      NotLooseHolder(cfg, v, {id} + {evict}, 2);
      assert evict in mapInfo;
      mapInfo := mapInfo[evict := mapInfo[evict].(refCount := 1)];
      Write(vvNew, uSlot, evict);
      nNew := nNew + 1;
    }

    method MakeTried(id: int)
      requires Wf() && InvWith(cfg, St(), {}, 0) && id in mapInfo && !mapInfo[id].inTried && mapInfo[id].lastSuccess > 0
      modifies this, vvNew, vvTried
      ensures St() == MadeTried(cfg, old(St()), id)
    {
      hide InvWith, Occupied, ReleasedUpTo, AllReleased, ClearedNew, Readmitted;
      ghost var s := St();
      RemoveFromNew(id);
      AllReleasedKeeps(cfg, s, id);
      AllReleasedFacts(s, id);
      nNew := nNew - 1;
      assert mapInfo[id].refCount == 0;
      var kSlot := cfg.TriedSlot(mapInfo[id].addr);
      var evict := Read(vvTried, kSlot);
      if evict != -1 {
        MadeRoomKeeps(cfg, St(), id);
        MakeRoom(kSlot, evict, id);
      }
      assert kSlot !in Occupied(vvTried);
      NonNegative(cfg, s, id, {}, 0);
      Write(vvTried, kSlot, id);
      nTried := nTried + 1;
      mapInfo := mapInfo[id := mapInfo[id].(inTried := true)];
    }

    /** Removes an entry from all new buckets. */
    method RemoveFromNew(id: int)
      requires Wf() && InvWith(cfg, St(), {}, 0) && id in mapInfo
      modifies this`mapInfo, vvNew
      ensures St() == AllReleased(old(St()), id)
    {
      hide InvWith, Occupied, ReleasedUpTo, AllReleased;
      ghost var s := St();
      NewParts(cfg, s, {}, 0);
      var bucket := 0;
      ReleasedStart(cfg, s, id);
      while bucket < cfg.newBuckets
        invariant 0 <= bucket <= cfg.newBuckets && id in mapInfo && mapInfo[id].addr == s.info[id].addr
        invariant St() == ReleasedUpTo(cfg, s, id, bucket)
      {
        var sl := cfg.NewSlot(mapInfo[id].addr, bucket);
        var at := Read(vvNew, sl);
        ReleasedNext(cfg, s, id, bucket);
        NonNegative(cfg, s, id, {}, 0);
        if at == id {
          Write(vvNew, sl, -1);
          mapInfo := mapInfo[id := mapInfo[id].(refCount := mapInfo[id].refCount - 1)];
        }
        bucket := bucket + 1;
      }
      ReleasedUpToAll(cfg, s, id);
    }

    method FindEntry(a: Service) returns (r: Option<int>)
      ensures r == Find(cfg, St(), a)
    {
      var key := cfg.Norm(a);
      if key !in mapAddr || mapAddr[key] !in mapInfo {
        return None;
      }
      return Some(mapAddr[key]);
    }

    /** `start`: where the search through the new buckets begins. */
    method GoodEntry(a: Service, testBeforeEvict: bool, time: int, start: nat)
      requires Valid() && time > 0 && start < cfg.newBuckets
      modifies this, vvNew, vvTried
      ensures Valid() && St() == Good(cfg, old(St()), a, testBeforeEvict, time) && Grows(old(St()), St())
    {
      hide InvWith, Occupied, MadeTried, Inv;
      ghost var s := St();
      GoodKeeps(cfg, s, a, testBeforeEvict, time);
      nLastGood := time;
      ghost var s0 := St();
      var r := FindEntry(a);
      if r.None? || mapInfo[r.value].addr != a {
        return;
      }
      var id := r.value;
      InvParts(cfg, s);
      LastGoodKeeps(cfg, s, time);
      var i := mapInfo[id].(lastSuccess := time, lastTry := time, attempts := 0);
      PutKeeps(cfg, s0, id, i, {}, 0);
      mapInfo := mapInfo[id := i];
      ghost var t := Put(s0, id, i);
      if i.inTried {
        return;
      }
      AlwaysHeld(cfg, t, id);
      assert St() == t;
      var found := SearchNew(id, start);
      assert found;
      var sl := cfg.TriedSlot(a);
      var at := Read(vvTried, sl);
      if testBeforeEvict && at != -1 {
        if |triedCollisions| < SET_TRIED_COLLISION_SIZE {
          triedCollisions := triedCollisions + {id};
        }
      } else {
        MakeTried(id);
      }
    }

    /** Whether an entry is found in some new bucket, looking from bucket `start` on and around. */
    method SearchNew(id: int, start: nat) returns (found: bool)
      requires Wf() && InvWith(cfg, St(), {}, 0) && id in mapInfo && start < cfg.newBuckets
      ensures found <==> HoldsSome(St().news, id)
    {
      hide InvWith, Occupied, Around, Steps, NewOk;
      ghost var s := St();
      NonNegative(cfg, s, id, {}, 0);
      NewParts(cfg, s, {}, 0);
      var n := 0;
      StepsAre(0, start, cfg.newBuckets);
      forall sl | sl in s.news ensures sl.bucket < cfg.newBuckets { BucketBelow(cfg, s, sl); }
      while n < cfg.newBuckets
        invariant 0 <= n <= cfg.newBuckets
        invariant forall sl | sl in s.news && s.news[sl] == id :: Steps(sl.bucket, start, cfg.newBuckets) >= n
      {
        StepsAre(n, start, cfg.newBuckets);
        var b := Around(n, start, cfg.newBuckets);
        var sl := cfg.NewSlot(mapInfo[id].addr, b);
        var at := Read(vvNew, sl);
        if at == id {
          assert sl in s.news && s.news[sl] == id;
          return true;
        }
        forall x | x in s.news && s.news[x] == id ensures Steps(x.bucket, start, cfg.newBuckets) >= n + 1 {
          OwnBucket(cfg, s, id, b);
        }
        n := n + 1;
      }
      found := false;
    }

    method Create(a: Address, source: int) returns (id: int)
      requires Wf()
      modifies this`nIdCount, this`mapInfo, this`mapAddr, this`vRandom
      ensures id == old(nIdCount) && St() == Created(cfg, old(St()), a, source)
    {
      id := nIdCount;
      nIdCount := nIdCount + 1;
      mapInfo := mapInfo[id := Info(a.service, a.time, a.services, source, 0, 0, 0, 0, 0, false, |vRandom|)];
      mapAddr := mapAddr[cfg.Norm(a.service) := id];
      vRandom := vRandom + [id];
    }

    /** Gives an entry the new position that `source` assigns it, if it may have it. */
    method PlaceNew(id: int, source: int, now: int, ghost loose: set<int>)
      requires Wf() && InvWith(cfg, St(), loose, 0) && id in mapInfo && !mapInfo[id].inTried
      requires loose <= {id} && mapInfo[id].refCount < NEW_BUCKETS_PER_ADDRESS
      modifies this, vvNew
      ensures St() == PlacedNew(cfg, old(St()), id, source, now)
    {
      hide InvWith, Occupied, ClearedNew, Deleted, IsTerrible;
      ghost var s := St();
      var a := mapInfo[id].addr;
      var sl := cfg.NewSlot(a, cfg.newBucketOf(a, source));
      var at := Read(vvNew, sl);
      NonNegative(cfg, s, id, loose, 0);
      if at != id {
        var insert := at == -1;
        if !insert {
          ReleasedKeeps(cfg, s, sl, loose, 0);
          insert := IsTerrible(mapInfo[at], now) || (mapInfo[at].refCount > 1 && mapInfo[id].refCount == 0);
        }
        if insert {
          ClearedNewKeeps(cfg, s, sl, loose, 0);
          ClearNew(sl, loose, 0);
          assert id in mapInfo;
          mapInfo := mapInfo[id := mapInfo[id].(refCount := mapInfo[id].refCount + 1)];
          Write(vvNew, sl, id);
        } else if mapInfo[id].refCount == 0 {
          RandomPart(cfg, s, loose, 0);
          Delete(id);
        }
      }
    }

    method AddEntry(a: Address, source: int, timePenalty: int, now: int, lucky: bool) returns (isNew: bool)
      requires Valid()
      modifies this, vvNew
      ensures Valid() && (St(), isNew) == Add(cfg, old(St()), a, source, timePenalty, now, lucky)
      ensures Grows(old(St()), St())
    {
      hide InvWith, Occupied, PlacedNew, Inv, Created;
      ghost var s := St();
      AddKeeps(cfg, s, a, source, timePenalty, now, lucky);
      InvParts(cfg, s);
      if !cfg.isRoutable(a.service) {
        return false;
      }
      var r := FindEntry(a.service);
      var penalty := if a.service.host == source then 0 else timePenalty;
      var id: int;
      if r.Some? {
        id := r.value;
        var i := Refreshed(mapInfo[id], a, penalty, now);
        TimesOf(cfg, s, id);
        PutKeeps(cfg, s, id, i, {}, 0);
        mapInfo := mapInfo[id := i];
        isNew := false;
        if a.time == 0 || (i.time != 0 && a.time <= i.time) {
          return;
        }
        if i.inTried {
          return;
        }
        if i.refCount == NEW_BUCKETS_PER_ADDRESS {
          return;
        }
        if i.refCount > 0 && !lucky {
          return;
        }
        RefBelow(cfg, St(), id);
        PlaceNew(id, source, now, {});
      } else {
        NotFound(cfg, s, a.service);
        CreatedKeeps(cfg, s, a, source, {}, 0);
        assert {} + {s.idCount} == {s.idCount};
        id := Create(a, source);
        ghost var t := St();
        CreatedEntry(cfg, s, a, source);
        var i := mapInfo[id].(time := Time32(Max(0, mapInfo[id].time - penalty)));
        PutKeeps(cfg, t, id, i, {id}, 1);
        mapInfo := mapInfo[id := i];
        OneMoreCounted(cfg, St(), {id}, 1);
        nNew := nNew + 1;
        isNew := true;
        PlaceNew(id, source, now, {id});
      }
    }

    method AttemptEntry(a: Service, countFailure: bool, time: int)
      requires Valid() && time >= 0
      modifies this`mapInfo
      ensures Valid() && St() == Attempt(cfg, old(St()), a, countFailure, time)
    {
      hide InvWith, Occupied, Inv;
      StatisticsKeep(cfg, St(), a, countFailure, time, {});
      var r := FindEntry(a);
      if r.None? || mapInfo[r.value].addr != a {
        return;
      }
      var i := mapInfo[r.value].(lastTry := time);
      if countFailure && i.lastCountAttempt < nLastGood {
        i := i.(lastCountAttempt := time, attempts := i.attempts + 1);
      }
      mapInfo := mapInfo[r.value := i];
    }

    method ConnectedEntry(a: Service, time: int)
      requires Valid() && time >= 0
      modifies this`mapInfo
      ensures Valid() && St() == Connected(cfg, old(St()), a, time)
    {
      hide InvWith, Occupied, Inv;
      StatisticsKeep(cfg, St(), a, false, time, {});
      var r := FindEntry(a);
      if r.None? || mapInfo[r.value].addr != a {
        return;
      }
      if time - mapInfo[r.value].time > 20 * 60 {
        mapInfo := mapInfo[r.value := mapInfo[r.value].(time := Time32(time))];
      }
    }

    method SetEntryServices(a: Service, services: set<nat>)
      requires Valid()
      modifies this`mapInfo
      ensures Valid() && St() == SetServices(cfg, old(St()), a, services)
    {
      hide InvWith, Occupied, Inv;
      StatisticsKeep(cfg, St(), a, false, 0, services);
      var r := FindEntry(a);
      if r.None? || mapInfo[r.value].addr != a {
        return;
      }
      mapInfo := mapInfo[r.value := mapInfo[r.value].(services := services)];
    }

    /** Empties the tables; the pending collisions stay. */
    method Clear()
      requires Wf()
      modifies this, vvNew, vvTried
      ensures St() == Cleared(old(St())) && nIdCount == nTried == nNew == 0 && nLastGood == 1
      ensures mapInfo == map[] && mapAddr == map[] && vRandom == [] && triedCollisions == old(triedCollisions)
      ensures Occupied(vvTried) == map[] && Occupied(vvNew) == map[]
    {
      hide Occupied;
      vRandom := [];
      EmptyTable(vvNew);
      EmptyTable(vvTried);
      nIdCount, nTried, nNew, nLastGood := 0, 0, 0, 1;
      mapInfo, mapAddr := map[], map[];
    }

    /**
     * `draws[n]` is the random draw for place n. Yields addresses of different entries of good quality,
     * no more than the limit, and all of them if there are fewer.
     */
    method GetAddr(draws: seq<nat>, now: int) returns (addrs: seq<Address>, ghost ids: seq<int>, ghost k: nat)
      requires Valid() && |draws| == |vRandom| && forall n | 0 <= n < |draws| :: n + draws[n] < |vRandom|
      modifies this`mapInfo, this`vRandom
      ensures Valid() && k <= |draws| && St() == Shuffled(old(St()), draws[..k]) && |vRandom| == |old(vRandom)|
      ensures |addrs| == |ids| <= 2500 && 100 * |ids| <= 23 * |vRandom|
      ensures forall i | 0 <= i < |ids| ::
                && ids[i] in mapInfo && !IsTerrible(mapInfo[ids[i]], now)
                && addrs[i].service == mapInfo[ids[i]].addr && addrs[i].time == mapInfo[ids[i]].time
                && addrs[i].services == mapInfo[ids[i]].services
      ensures forall i, j | 0 <= i < j < |ids| :: ids[i] != ids[j]
      ensures |ids| < 2500 && 100 * (|ids| + 1) <= 23 * |vRandom| ==>
                forall id | id in mapInfo && !IsTerrible(mapInfo[id], now) :: id in ids
    {
      hide Occupied, Inv, InvWith, IsTerrible, Swapped, Grows;
      ghost var s := St();
      var limit := AddrLimit(|vRandom|);
      addrs, ids, k := [], [], 0;
      var n := 0;
      while n < |vRandom| && |addrs| < limit
        invariant 0 <= n == k <= |vRandom| == |s.random| && Inv(cfg, St())
        invariant St() == Shuffled(s, draws[..n])
        invariant |addrs| == |ids| <= limit && Gathered(St(), n, addrs, ids, now)
        modifies this`mapInfo, this`vRandom
        decreases |vRandom| - n
      {
        ghost var t := St();
        InvParts(cfg, t);
        SwappedKeeps(cfg, t, n, n + draws[n], {}, 0);
        SwapShuffles(cfg, t, n, n + draws[n]);
        assert draws[..n + 1][..n] == draws[..n];
        RandomPart(cfg, t, {}, 0);
        SwapRandom(n, n + draws[n]);
        GatheredSwap(cfg, t, n, n + draws[n], addrs, ids, now);
        RandomKnown(cfg, St(), n);
        var ai := mapInfo[vRandom[n]];
        GatheredNext(cfg, St(), n, addrs, ids, now);
        if !IsTerrible(ai, now) {
          addrs := addrs + [AddressOf(ai)];
          ids := ids + [vRandom[n]];
        }
        n := n + 1;
        k := n;
      }
      if |ids| < limit {
        forall id | id in mapInfo && !IsTerrible(mapInfo[id], now) ensures id in ids {
          GatheredAll(cfg, St(), addrs, ids, now, id);
        }
      }
    }

    /** Judges every pending collision, in increasing order of ids; `trace` is the states in between. */
    method ResolveCollisions(now: int, start: nat) returns (ghost order: seq<int>, ghost trace: seq<State>)
      requires Valid() && now > 0 && start < cfg.newBuckets
      modifies this, vvNew, vvTried
      ensures Valid() && Grows(old(St()), St()) && St() == Resolved(cfg, old(St()), order, now)
      ensures forall i, j | 0 <= i < j < |order| :: order[i] < order[j]
      ensures forall id :: id in order <==> id in old(triedCollisions)
      ensures |trace| == |order| + 1 && trace[0] == old(St()) && trace[|order|] == St()
      ensures forall n | 0 <= n < |order| :: Settled(cfg, trace[n], trace[n + 1], order[n], now)
    {
      hide Occupied, Inv, InvWith, Grows, Settled, Resolved, ResolvedOne;
      ghost var s := St();
      ResolvedNone(cfg, s, now);
      var todo := SortIds(triedCollisions);
      var i := 0;
      GrowsSelf(s);
      trace := [s];
      assert forall n | 0 <= n < |todo| :: todo[n] in todo;
      while i < |todo|
        invariant 0 <= i <= |todo| && Valid() && St() == Resolved(cfg, s, todo[..i], now) && Grows(s, St())
        invariant forall n | i <= n < |todo| :: todo[n] in triedCollisions
        invariant |trace| == i + 1 && trace[0] == s && trace[i] == St()
        invariant forall n | 0 <= n < i :: Settled(cfg, trace[n], trace[n + 1], todo[n], now)
      {
        ghost var t := St();
        var id := todo[i];
        ResolvedNext(cfg, s, todo, i, now);
        ResolveOne(id, now, start);
        GrowsOn(s, t, St());
        trace := trace + [St()];
        i := i + 1;
      }
      assert todo[..i] == todo;
      order := todo;
    }

    method ResolveOne(id: int, now: int, start: nat)
      requires Valid() && now > 0 && start < cfg.newBuckets && id in triedCollisions
      modifies this, vvNew, vvTried
      ensures Valid() && Grows(old(St()), St()) && St() == ResolvedOne(cfg, old(St()), id, now)
      ensures Settled(cfg, old(St()), St(), id, now)
      ensures forall x | x in old(triedCollisions) && x != id :: x in triedCollisions
    {
      hide Occupied, Inv, InvWith, Good, Grows, Settled;
      ghost var s := St();
      ResolvedOneKeeps(cfg, s, id, now);
      ResolvedOneSettles(cfg, s, id, now);
      OthersPending(cfg, s, ResolvedOne(cfg, s, id, now), id, now);
      var verdict := JudgeEntry(id, now);
      if verdict == Replace && id in mapInfo {
        GoodEntry(mapInfo[id].addr, false, now, start);
      }
      if verdict != Keep {
        triedCollisions := triedCollisions - {id};
      }
      assert St() == ResolvedOne(cfg, s, id, now);
    }

    method JudgeEntry(id: int, now: int) returns (v: Verdict)
      requires Valid()
      ensures v == Judge(cfg, St(), id, now) && (v == Replace ==> id in mapInfo)
      ensures id !in mapInfo || !cfg.isValid(mapInfo[id].addr) ==> v == Forget
      ensures id in mapInfo && cfg.isValid(mapInfo[id].addr) && cfg.TriedSlot(mapInfo[id].addr) !in St().tried ==>
                v == Replace
      ensures id in mapInfo && cfg.isValid(mapInfo[id].addr) && cfg.TriedSlot(mapInfo[id].addr) in St().tried ==>
                && St().tried[cfg.TriedSlot(mapInfo[id].addr)] in mapInfo
                && var holder := mapInfo[St().tried[cfg.TriedSlot(mapInfo[id].addr)]];
                   var success, attempt := now - holder.lastSuccess, now - holder.lastTry;
                   && (v == Forget <==> success < 14400)
                   && (v == Replace <==> && success >= 14400 && attempt > 60
                                         && (attempt >= 14400 ==> now - mapInfo[id].lastSuccess > 2400))
    {
      hide Occupied, InvWith, Inv;
      if id !in mapInfo {
        return Forget;
      }
      var i := mapInfo[id];
      var sl := cfg.TriedSlot(i.addr);
      if !cfg.isValid(i.addr) {
        return Forget;
      }
      var at := Read(vvTried, sl);
      if at != -1 {
        TriedKnown(cfg, St(), sl);
        var holder := mapInfo[at];
        if now - holder.lastSuccess < 4 * 3600 {
          return Forget;
        } else if now - holder.lastTry < 4 * 3600 {
          return if now - holder.lastTry > 60 then Replace else Keep;
        } else if now - i.lastSuccess > 40 * 60 {
          return Replace;
        }
        return Keep;
      }
      return Replace;
    }

    /** `pick` is the randomly chosen pending collision, if there is one. */
    method SelectTriedCollision(pick: int) returns (r: Option<Info>)
      requires Valid() && (triedCollisions != {} ==> pick in triedCollisions)
      modifies this`triedCollisions
      ensures Valid() && (St(), r) == SelectCollision(cfg, old(St()), pick)
      ensures r.Some? ==> r.value.inTried
    {
      hide Occupied, InvWith, Inv;
      SelectedIsTried(cfg, St(), pick);
      if triedCollisions == {} {
        return None;
      }
      if pick !in mapInfo {
        FewerCollisions(cfg, St(), triedCollisions - {pick});
        triedCollisions := triedCollisions - {pick};
        return None;
      }
      var at := Read(vvTried, cfg.TriedSlot(mapInfo[pick].addr));
      assert at != -1;
      TriedKnown(cfg, St(), cfg.TriedSlot(mapInfo[pick].addr));
      return Some(mapInfo[at]);
    }
  }

  /** How many steps from `start` a search around `size` buckets reaches bucket `b`. */
  function Steps(b: nat, start: nat, size: nat): int {
    if b >= start then b - start else b + size - start
  }

  function Around(n: nat, start: nat, size: nat): nat
    requires size > 0
  {
    (n + start) % size
  }

  lemma {:induction false} StepsAre(n: nat, start: nat, size: nat)
    requires n < size && start < size
    ensures Around(n, start, size) < size
    ensures forall b: nat | b < size :: 0 <= Steps(b, start, size) < size
    ensures forall b: nat | b < size && Steps(b, start, size) <= n ::
              Steps(b, start, size) < n || b == Around(n, start, size)
  {
    if n + start < size {
      assert (n + start) % size == n + start;
    } else {
      Nonlinear.ModExact(n + start, 1, size, n + start - size);
    }
  }

  lemma {:induction false} LastGoodKeeps(cfg: Config, s: State, time: int)
    requires InvWith(cfg, s, {}, 0)
    ensures InvWith(cfg, s.(lastGood := time), {}, 0)
  {
  }

  lemma {:induction false} BucketBelow(cfg: Config, s: State, sl: Slot)
    requires NewOk(cfg, s.info, s.news) && sl in s.news
    ensures sl.bucket < cfg.newBuckets
  {
  }

  lemma {:induction false} InvParts(cfg: Config, s: State)
    requires Inv(cfg, s)
    ensures InvWith(cfg, s, {}, 0)
  {
  }

  lemma {:induction false} RandomPart(cfg: Config, s: State, loose: set<int>, off: int)
    requires InvWith(cfg, s, loose, off)
    ensures RandomOk(s.info, s.random)
  {
  }

  lemma {:induction false} RefBelow(cfg: Config, s: State, id: int)
    requires InvWith(cfg, s, {}, 0) && id in s.info && !s.info[id].inTried
    ensures 0 < s.info[id].refCount <= NEW_BUCKETS_PER_ADDRESS
  {
  }

  lemma {:induction false} CreatedEntry(cfg: Config, s: State, a: Address, source: int)
    ensures var t := Created(cfg, s, a, source);
            s.idCount in t.info && t.info[s.idCount]
            == Info(a.service, a.time, a.services, source, 0, 0, 0, 0, 0, false, |s.random|)
  {
  }

  lemma {:induction false} NewParts(cfg: Config, s: State, loose: set<int>, off: int)
    requires InvWith(cfg, s, loose, off)
    ensures NewOk(cfg, s.info, s.news) && RefsOk(s.info, s.news)
  {
  }

  lemma {:induction false} NonNegative(cfg: Config, s: State, id: int, loose: set<int>, off: int)
    requires InvWith(cfg, s, loose, off) && id in s.info
    ensures id >= 0
  {
  }

  lemma {:induction false} ReleasedStart(cfg: Config, s: State, id: int)
    requires id in s.info
    ensures ReleasedUpTo(cfg, s, id, 0) == s
  {
  }

  lemma {:induction false} ReleasedNext(cfg: Config, s: State, id: int, b: nat)
    requires id in s.info
    ensures var t := ReleasedUpTo(cfg, s, id, b);
            var sl := cfg.NewSlot(s.info[id].addr, b);
            ReleasedUpTo(cfg, s, id, b + 1)
            == if sl in t.news && t.news[sl] == id && id in t.info
               then Put(t.(news := t.news - {sl}), id, t.info[id].(refCount := t.info[id].refCount - 1)) else t
  {
  }

  lemma {:induction false} AllReleasedFacts(s: State, id: int)
    requires id in s.info
    ensures var t := AllReleased(s, id);
            && t == s.(news := t.news, info := s.info[id := s.info[id].(refCount := 0)])
            && id in t.info
  {
  }

  lemma {:induction false} SwappedKeys(s: State, i: int, j: int)
    ensures var t := Swapped(s, i, j);
            && |t.random| == |s.random| && t == s.(info := t.info, random := t.random)
            && (forall id | id in s.info :: id in t.info && t.info[id].addr == s.info[id].addr)
  {
  }

  method EmptyTable(t: array2<int>)
    modifies t
    ensures Occupied(t) == map[]
  {
    var b := 0;
    while b < t.Length0
      invariant 0 <= b <= t.Length0 && forall i, p | 0 <= i < b && 0 <= p < t.Length1 :: t[i, p] == -1
    {
      var p := 0;
      while p < t.Length1
        invariant 0 <= p <= t.Length1 && forall i, q | 0 <= i < b && 0 <= q < t.Length1 :: t[i, q] == -1
        invariant forall q | 0 <= q < p :: t[b, q] == -1
      {
        t[b, p] := -1;
        p := p + 1;
      }
      b := b + 1;
    }
  }

  function AddressOf(i: Info): Address { Address(i.addr, i.time, i.services) }

  /** 23 percent of the entries, 2500 at most. */
  function AddrLimit(n: nat): nat { if 23 * n / 100 > 2500 then 2500 else 23 * n / 100 }

  lemma {:induction false} TriedKnown(cfg: Config, s: State, sl: Slot)
    requires Inv(cfg, s) && sl in s.tried
    ensures s.tried[sl] in s.info
  {
  }

  lemma {:induction false} RandomKnown(cfg: Config, s: State, n: nat)
    requires Inv(cfg, s) && n < |s.random|
    ensures s.random[n] in s.info
  {
  }

  // ---- gathering addresses ----

  /** The first `n` places have been looked at: `ids` are those of good quality. */
  ghost predicate Gathered(s: State, n: nat, addrs: seq<Address>, ids: seq<int>, now: int) {
    && n <= |s.random| && |addrs| == |ids|
    && (forall i | 0 <= i < |ids| ::
          && ids[i] in s.info && addrs[i] == AddressOf(s.info[ids[i]]) && !IsTerrible(s.info[ids[i]], now)
          && 0 <= s.info[ids[i]].randomPos < n)
    && (forall i, j | 0 <= i < j < |ids| :: ids[i] != ids[j])
    && (forall m | 0 <= m < n ::
          s.random[m] in s.info && (!IsTerrible(s.info[s.random[m]], now) ==> s.random[m] in ids))
  }

  lemma {:induction false} GatheredSwap(cfg: Config, s: State, n: nat, j: nat, addrs: seq<Address>, ids: seq<int>,
      now: int)
    requires Inv(cfg, s) && n <= j < |s.random| && Gathered(s, n, addrs, ids, now)
    ensures Gathered(Swapped(s, n, j), n, addrs, ids, now)
  {
    hide AddrOk, TriedOk, NewOk, RefsOk, CountOk, LooseOk, IdsOk, TimesOk, CollisionsOk, IsTerrible;
    var t := Swapped(s, n, j);
    forall m | 0 <= m < n
      ensures t.random[m] in t.info && (!IsTerrible(t.info[t.random[m]], now) ==> t.random[m] in ids)
    {
      assert t.random[m] == s.random[m] && s.info[s.random[m]].randomPos == m;
      assert t.info[t.random[m]] == s.info[s.random[m]];
    }
  }

  lemma {:induction false} GatheredNext(cfg: Config, s: State, n: nat, addrs: seq<Address>, ids: seq<int>, now: int)
    requires Inv(cfg, s) && n < |s.random| && Gathered(s, n, addrs, ids, now)
    ensures s.random[n] in s.info
    ensures var i := s.info[s.random[n]];
            if IsTerrible(i, now) then Gathered(s, n + 1, addrs, ids, now)
            else Gathered(s, n + 1, addrs + [AddressOf(i)], ids + [s.random[n]], now)
  {
    hide AddrOk, TriedOk, NewOk, RefsOk, CountOk, LooseOk, IdsOk, TimesOk, CollisionsOk, IsTerrible;
    assert s.random[n] in s.info && s.info[s.random[n]].randomPos == n;
    var id := s.random[n];
    var all := ids + [id];
    assert all[|ids|] == id;
    assert forall m | m in ids :: m in all;
  }

  lemma {:induction false} GatheredAll(cfg: Config, s: State, addrs: seq<Address>, ids: seq<int>, now: int, id: int)
    requires Inv(cfg, s) && Gathered(s, |s.random|, addrs, ids, now) && id in s.info && !IsTerrible(s.info[id], now)
    ensures id in ids
  {
    hide AddrOk, TriedOk, NewOk, RefsOk, CountOk, LooseOk, IdsOk, TimesOk, CollisionsOk, IsTerrible;
    assert s.random[s.info[id].randomPos] == id;
  }

  // ---- the order of a set of ids ----

  method SortIds(ids: set<int>) returns (order: seq<int>)
    ensures forall i, j | 0 <= i < j < |order| :: order[i] < order[j]
    ensures forall id :: id in order <==> id in ids
  {
    order := [];
    var todo := ids;
    while todo != {}
      invariant todo <= ids && forall i, j | 0 <= i < j < |order| :: order[i] < order[j]
      invariant forall id :: id in order <==> id in ids && id !in todo
    {
      ghost var some := Member(todo);
      var x :| x in todo;
      var k := 0;
      while k < |order| && order[k] < x
        invariant 0 <= k <= |order| && forall i | 0 <= i < k :: order[i] < x
      {
        k := k + 1;
      }
      InsertSorted(order, k, x);
      order := order[..k] + [x] + order[k..];
      todo := todo - {x};
    }
  }

  lemma {:induction false} InsertSorted(order: seq<int>, k: nat, x: int)
    requires forall i, j | 0 <= i < j < |order| :: order[i] < order[j]
    requires k <= |order| && x !in order && (forall i | 0 <= i < k :: order[i] < x) && (k < |order| ==> order[k] >= x)
    ensures var r := order[..k] + [x] + order[k..];
            && (forall i, j | 0 <= i < j < |r| :: r[i] < r[j])
            && (forall id :: id in r <==> id in order || id == x)
  {
    var r := order[..k] + [x] + order[k..];
    assert k < |order| ==> order[k] != x;
    forall i | 0 <= i < |r| ensures r[i] == if i < k then order[i] else if i == k then x else order[i - 1] {}
    forall id | id in order ensures id in r {
      var i :| 0 <= i < |order| && order[i] == id;
      assert r[if i < k then i else i + 1] == id;
    }
    assert r[k] == x;
  }
}
