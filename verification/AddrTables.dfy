/** The tables of the address manager as values, the steps that change them, and what every step keeps. */
module AddrTables {

  // ---- data ----

  datatype Service = Service(host: int, port: nat)

  datatype Address = Address(service: Service, time: nat, services: set<nat>)

  datatype Info = Info(addr: Service, time: nat, services: set<nat>, source: int, lastTry: int, lastCountAttempt: int,
                       lastSuccess: int, attempts: int, refCount: int, inTried: bool, randomPos: int)

  /** A position of a bucket table. */
  datatype Slot = Slot(bucket: nat, pos: nat)

  const NEW_BUCKETS_PER_ADDRESS := 8
  const SET_TRIED_COLLISION_SIZE := 10

  /** Table sizes, and the placement of addresses: what the secret key and the address map decide. */
  datatype Config = Config(newBuckets: nat, triedBuckets: nat, bucketSize: nat, discriminatePorts: bool,
                           triedBucketOf: Service -> nat, newBucketOf: (Service, int) -> nat,
                           positionOf: (Service, bool, nat) -> nat, isRoutable: Service -> bool,
                           isValid: Service -> bool)
  {
    ghost predicate Wf() {
      && (forall a :: triedBucketOf(a) < triedBuckets)
      && (forall a, src :: newBucketOf(a, src) < newBuckets)
      && (forall a, fresh_, b :: positionOf(a, fresh_, b) < bucketSize)
    }

    function Norm(a: Service): Service { if discriminatePorts then a else a.(port := 0) }

    function TriedSlot(a: Service): Slot { Slot(triedBucketOf(a), positionOf(a, false, triedBucketOf(a))) }

    function NewSlot(a: Service, bucket: nat): Slot { Slot(bucket, positionOf(a, true, bucket)) }
  }

  /** `tried` and `news` hold the occupied positions of the two bucket tables. */
  datatype State = State(idCount: nat, info: map<int, Info>, ids: map<Service, int>, random: seq<int>, nTried: int,
                         nNew: int, tried: map<Slot, int>, news: map<Slot, int>, lastGood: int, collisions: set<int>)

  // ---- what every state satisfies between operations ----

  ghost predicate AddrOk(cfg: Config, info: map<int, Info>, ids: map<Service, int>) {
    && (forall id | id in info :: cfg.Norm(info[id].addr) in ids && ids[cfg.Norm(info[id].addr)] == id)
    && (forall a | a in ids :: ids[a] in info && cfg.Norm(info[ids[a]].addr) == a)
  }

  /** `random` is a permutation of the ids, and every entry knows its place in it. */
  ghost predicate RandomOk(info: map<int, Info>, random: seq<int>) {
    && (forall id | id in info :: 0 <= info[id].randomPos < |random| && random[info[id].randomPos] == id)
    && (forall i | 0 <= i < |random| :: random[i] in info && info[random[i]].randomPos == i)
  }

  ghost predicate TriedOk(cfg: Config, info: map<int, Info>, tried: map<Slot, int>) {
    && (forall sl | sl in tried ::
          tried[sl] in info && info[tried[sl]].inTried && cfg.TriedSlot(info[tried[sl]].addr) == sl)
    && (forall id | id in info && info[id].inTried ::
          cfg.TriedSlot(info[id].addr) in tried && tried[cfg.TriedSlot(info[id].addr)] == id)
  }

  ghost predicate NewOk(cfg: Config, info: map<int, Info>, news: map<Slot, int>) {
    forall sl | sl in news ::
      && news[sl] in info && !info[news[sl]].inTried
      && sl == cfg.NewSlot(info[news[sl]].addr, sl.bucket) && sl.bucket < cfg.newBuckets
  }

  /** The new positions that an id holds. */
  ghost function Held(news: map<Slot, int>, id: int): set<Slot> { set sl | sl in news && news[sl] == id }

  ghost predicate RefsOk(info: map<int, Info>, news: map<Slot, int>) {
    forall id | id in info :: info[id].refCount == |Held(news, id)|
  }

  ghost function Untried(info: map<int, Info>): set<int> { set id | id in info && !info[id].inTried }

  ghost function TriedIds(info: map<int, Info>): set<int> { set id | id in info && info[id].inTried }

  /** `off` entries outside tried are not counted as new for the time being. */
  ghost predicate CountOk(info: map<int, Info>, nTried: int, nNew: int, off: int) {
    nNew + off == |Untried(info)| && nTried == |TriedIds(info)|
  }

  /** Outside tried, exactly the entries in `loose` hold no new position; none holds more than eight. */
  ghost predicate LooseOk(info: map<int, Info>, loose: set<int>) {
    && (forall id | id in loose :: id in info)
    && (forall id | id in info ::
          if info[id].inTried then info[id].refCount == 0 && id !in loose
          else 0 <= info[id].refCount <= NEW_BUCKETS_PER_ADDRESS && (id in loose <==> info[id].refCount == 0))
  }

  ghost predicate IdsOk(info: map<int, Info>, idCount: nat) {
    forall id | id in info :: 0 <= id < idCount
  }

  ghost predicate TimesOk(info: map<int, Info>) {
    forall id | id in info ::
      info[id].lastTry >= 0 && info[id].lastSuccess >= 0 && (info[id].inTried ==> info[id].lastSuccess > 0)
  }

  /** A pending collision that still exists collides with an occupied tried position. */
  ghost predicate CollisionsOk(cfg: Config, info: map<int, Info>, tried: map<Slot, int>, collisions: set<int>) {
    && |collisions| <= SET_TRIED_COLLISION_SIZE
    && (forall id | id in collisions && id in info :: cfg.TriedSlot(info[id].addr) in tried)
  }

  ghost predicate InvWith(cfg: Config, s: State, loose: set<int>, off: int) {
    && AddrOk(cfg, s.info, s.ids) && RandomOk(s.info, s.random) && TriedOk(cfg, s.info, s.tried)
    && NewOk(cfg, s.info, s.news) && RefsOk(s.info, s.news) && CountOk(s.info, s.nTried, s.nNew, off)
    && LooseOk(s.info, loose) && IdsOk(s.info, s.idCount) && TimesOk(s.info)
    && (forall id | id in s.collisions :: 0 <= id < s.idCount)
  }

  ghost predicate Inv(cfg: Config, s: State) {
    InvWith(cfg, s, {}, 0) && CollisionsOk(cfg, s.info, s.tried, s.collisions)
  }

  // ---- small steps ----

  function Put(s: State, id: int, i: Info): State { s.(info := s.info[id := i]) }

  function Created(cfg: Config, s: State, a: Address, source: int): State {
    var i := Info(a.service, a.time, a.services, source, 0, 0, 0, 0, 0, false, |s.random|);
    s.(idCount := s.idCount + 1, info := s.info[s.idCount := i], ids := s.ids[cfg.Norm(a.service) := s.idCount],
       random := s.random + [s.idCount])
  }

  // Where the code asserts, the step does nothing if the assertion fails; it never does in a state the manager reaches.

  function Swapped(s: State, i: int, j: int): State {
    if i == j || !(0 <= i < |s.random| && 0 <= j < |s.random|) then s
    else if s.random[i] !in s.info || s.random[j] !in s.info then s
    else
      var a, b := s.random[i], s.random[j];
      var info := s.info[a := s.info[a].(randomPos := j)];
      var info := info[b := info[b].(randomPos := i)];
      s.(info := info, random := s.random[i := b][j := a])
  }

  function Popped(cfg: Config, s: State, id: int): State
    requires id in s.info && |s.random| > 0
  {
    s.(random := s.random[..|s.random| - 1], ids := s.ids - {cfg.Norm(s.info[id].addr)}, info := s.info - {id},
       nNew := s.nNew - 1)
  }

  function Deleted(cfg: Config, s: State, id: int): State {
    if id !in s.info || s.info[id].inTried || s.info[id].refCount != 0 then s
    else
      var t := Swapped(s, s.info[id].randomPos, |s.random| - 1);
      if id !in t.info || t.random == [] then t else Popped(cfg, t, id)
  }

  /** The holder of a new position gives it up. */
  function Released(s: State, sl: Slot): State {
    if sl !in s.news || s.news[sl] !in s.info then s
    else
      var id := s.news[sl];
      Put(s.(news := s.news - {sl}), id, s.info[id].(refCount := s.info[id].refCount - 1))
  }

  function ClearedNew(cfg: Config, s: State, sl: Slot): State {
    if sl !in s.news then s
    else
      var id, t := s.news[sl], Released(s, sl);
      if id in t.info && t.info[id].refCount == 0 then Deleted(cfg, t, id) else t
  }

  /** An entry takes a free new position. */
  function Claimed(s: State, sl: Slot, id: int): State
    requires id in s.info
  {
    Put(s.(news := s.news[sl := id]), id, s.info[id].(refCount := s.info[id].refCount + 1))
  }

  /** An entry gives up all its new positions. */
  function AllReleased(s: State, id: int): State
    requires id in s.info
  {
    Put(s.(news := map sl | sl in s.news && s.news[sl] != id :: s.news[sl]), id, s.info[id].(refCount := 0))
  }

  function Evicted(s: State, sl: Slot): State
    requires sl in s.tried && s.tried[sl] in s.info
  {
    var id := s.tried[sl];
    Put(s.(tried := s.tried - {sl}, nTried := s.nTried - 1), id, s.info[id].(inTried := false))
  }

  function Entered(s: State, sl: Slot, id: int): State
    requires id in s.info
  {
    Put(s.(tried := s.tried[sl := id], nTried := s.nTried + 1), id, s.info[id].(inTried := true))
  }

  /** An entry evicted from tried goes back to the new position of its own source. */
  function Readmitted(cfg: Config, s: State, id: int): State
    requires id in s.info
  {
    var a := s.info[id].addr;
    var sl := cfg.NewSlot(a, cfg.newBucketOf(a, s.info[id].source));
    var t := ClearedNew(cfg, s, sl);
    if id !in t.info then t
    else Put(t.(news := t.news[sl := id], nNew := t.nNew + 1), id, t.info[id].(refCount := 1))
  }

  function MadeTried(cfg: Config, s: State, id: int): State {
    if id !in s.info then s
    else
      var sl := cfg.TriedSlot(s.info[id].addr);
      var t := AllReleased(s, id);
      var t := t.(nNew := t.nNew - 1);
      var u := if sl in t.tried && t.tried[sl] in t.info
               then var e := t.tried[sl]; Readmitted(cfg, Evicted(t, sl), e)
               else t;
      if id !in u.info then u else Entered(u, sl, id)
  }

  // ---- entries that change without moving ----

  /** The same entries, in the same tables; other fields may differ. */
  ghost predicate SameAddrs(info: map<int, Info>, now: map<int, Info>) {
    && (forall id | id in now :: id in info)
    && (forall id | id in info ::
          id in now && now[id].addr == info[id].addr && now[id].inTried == info[id].inTried)
  }

  lemma {:induction false} SameAddrsKeep(cfg: Config, s: State, now: map<int, Info>, loose: set<int>, off: int)
    requires InvWith(cfg, s, loose, off) && SameAddrs(s.info, now)
    ensures AddrOk(cfg, now, s.ids) && TriedOk(cfg, now, s.tried) && NewOk(cfg, now, s.news)
    ensures CountOk(now, s.nTried, s.nNew, off) && IdsOk(now, s.idCount)
  {
    hide RandomOk, TimesOk, RefsOk, LooseOk, TriedOk, NewOk, CountOk;
    SameTablesKeep(cfg, s, now, off);
    forall a | a in s.ids ensures s.ids[a] in now && cfg.Norm(now[s.ids[a]].addr) == a {
      var id := s.ids[a];
      assert id in s.info;
    }
  }

  lemma {:induction false} SameTablesKeep(cfg: Config, s: State, now: map<int, Info>, off: int)
    requires TriedOk(cfg, s.info, s.tried) && NewOk(cfg, s.info, s.news) && CountOk(s.info, s.nTried, s.nNew, off)
    requires SameAddrs(s.info, now)
    ensures TriedOk(cfg, now, s.tried) && NewOk(cfg, now, s.news) && CountOk(now, s.nTried, s.nNew, off)
  {
    SameSets(s.info, now);
    forall sl | sl in s.tried
      ensures s.tried[sl] in now && now[s.tried[sl]].inTried && cfg.TriedSlot(now[s.tried[sl]].addr) == sl
    {
      var id := s.tried[sl];
      assert id in s.info;
    }
    forall sl | sl in s.news
      ensures s.news[sl] in now && !now[s.news[sl]].inTried && sl == cfg.NewSlot(now[s.news[sl]].addr, sl.bucket)
    {
      var id := s.news[sl];
      assert id in s.info;
    }
  }

  lemma {:induction false} SameSets(info: map<int, Info>, now: map<int, Info>)
    requires SameAddrs(info, now)
    ensures Untried(now) == Untried(info) && TriedIds(now) == TriedIds(info)
  {
    forall id ensures (id in Untried(now) <==> id in Untried(info)) && (id in TriedIds(now) <==> id in TriedIds(info)) {
      assert id in info <==> id in now;
    }
  }

  /** Ids are not used again, entries keep their address, and occupied tried positions stay occupied. */
  ghost predicate Grows(s: State, t: State) {
    && s.idCount <= t.idCount && (forall sl | sl in s.tried :: sl in t.tried)
    && (forall id | id in t.info && id < s.idCount :: id in s.info && t.info[id].addr == s.info[id].addr)
  }

  lemma {:induction false} GrowsOn(s: State, t: State, u: State)
    requires Grows(s, t) && Grows(t, u)
    ensures Grows(s, u)
  {
  }

  lemma {:induction false} GrowsCollisions(cfg: Config, s: State, t: State)
    requires Inv(cfg, s) && Grows(s, t) && t.collisions == s.collisions
    ensures CollisionsOk(cfg, t.info, t.tried, t.collisions)
  {
    hide InvWith;
    assert InvWith(cfg, s, {}, 0);
    BelowIdCount(cfg, s);
  }

  lemma {:induction false} BelowIdCount(cfg: Config, s: State)
    requires Inv(cfg, s)
    ensures forall id | id in s.collisions :: 0 <= id < s.idCount
  {
  }

  lemma {:induction false} SwappedRandomOk(s: State, i: int, j: int)
    requires RandomOk(s.info, s.random) && 0 <= i < |s.random| && 0 <= j < |s.random|
    ensures s.random[i] in s.info && s.random[j] in s.info
    ensures RandomOk(Swapped(s, i, j).info, Swapped(s, i, j).random)
  {
  }

  lemma {:induction false} SwappedKeeps(cfg: Config, s: State, i: int, j: int, loose: set<int>, off: int)
    requires InvWith(cfg, s, loose, off) && 0 <= i < |s.random| && 0 <= j < |s.random|
    ensures s.random[i] in s.info && s.random[j] in s.info
    ensures InvWith(cfg, Swapped(s, i, j), loose, off) && Grows(s, Swapped(s, i, j))
  {
    hide AddrOk, TriedOk, NewOk, CountOk, IdsOk, RandomOk, Held;
    SwappedRandomOk(s, i, j);
    SameAddrsKeep(cfg, s, Swapped(s, i, j).info, loose, off);
  }

  /** An entry's statistics may change freely, within the bounds on times. */
  lemma {:induction false} PutKeeps(cfg: Config, s: State, id: int, i: Info, loose: set<int>, off: int)
    requires InvWith(cfg, s, loose, off) && id in s.info
    requires i.addr == s.info[id].addr && i.refCount == s.info[id].refCount && i.inTried == s.info[id].inTried
    requires i.randomPos == s.info[id].randomPos
    requires i.lastTry >= 0 && i.lastSuccess >= 0 && (i.inTried ==> i.lastSuccess > 0)
    ensures InvWith(cfg, Put(s, id, i), loose, off) && Grows(s, Put(s, id, i))
  {
    hide AddrOk, TriedOk, NewOk, CountOk, IdsOk, Held;
    SameAddrsKeep(cfg, s, Put(s, id, i).info, loose, off);
  }

  // ---- creating and deleting ----

  lemma {:induction false} CreatedKeeps(cfg: Config, s: State, a: Address, source: int, loose: set<int>, off: int)
    requires InvWith(cfg, s, loose, off) && cfg.Norm(a.service) !in s.ids
    ensures InvWith(cfg, Created(cfg, s, a, source), loose + {s.idCount}, off + 1)
    ensures Grows(s, Created(cfg, s, a, source))
  {
    hide AddrOk, RandomOk, TriedOk, NewOk, RefsOk, CountOk, LooseOk;
    CreatedIndexes(cfg, s, a, source);
    CreatedTables(cfg, s, a, source);
    CreatedCounts(cfg, s, a, source, loose, off);
  }

  lemma {:induction false} CreatedIndexes(cfg: Config, s: State, a: Address, source: int)
    requires AddrOk(cfg, s.info, s.ids) && RandomOk(s.info, s.random) && IdsOk(s.info, s.idCount)
    requires cfg.Norm(a.service) !in s.ids
    ensures var t := Created(cfg, s, a, source); AddrOk(cfg, t.info, t.ids) && RandomOk(t.info, t.random)
  {
    assert s.idCount !in s.info;
  }

  lemma {:induction false} CreatedTables(cfg: Config, s: State, a: Address, source: int)
    requires TriedOk(cfg, s.info, s.tried) && NewOk(cfg, s.info, s.news) && RefsOk(s.info, s.news)
    requires IdsOk(s.info, s.idCount)
    ensures var t := Created(cfg, s, a, source);
            TriedOk(cfg, t.info, t.tried) && NewOk(cfg, t.info, t.news) && RefsOk(t.info, t.news)
  {
    hide Held;
    assert s.idCount !in s.info;
    NoneHeld(cfg, s.info, s.news, s.idCount);
  }

  lemma {:induction false} CreatedCounts(cfg: Config, s: State, a: Address, source: int, loose: set<int>, off: int)
    requires IdsOk(s.info, s.idCount) && CountOk(s.info, s.nTried, s.nNew, off) && LooseOk(s.info, loose)
    ensures var t := Created(cfg, s, a, source);
            CountOk(t.info, t.nTried, t.nNew, off + 1) && LooseOk(t.info, loose + {s.idCount})
  {
    var t := Created(cfg, s, a, source);
    assert s.idCount !in s.info;
    assert Untried(t.info) == Untried(s.info) + {s.idCount};
    assert TriedIds(t.info) == TriedIds(s.info);
  }

  lemma {:induction false} NoneHeld(cfg: Config, info: map<int, Info>, news: map<Slot, int>, id: int)
    requires NewOk(cfg, info, news) && (id !in info || info[id].inTried)
    ensures Held(news, id) == {}
  {
  }

  /** Deletion in two stages: to the end of the random order, then off it. */
  lemma {:induction false} PoppedKeeps(cfg: Config, s: State, id: int, loose: set<int>, off: int)
    requires InvWith(cfg, s, loose, off) && id in loose
    requires |s.random| > 0 && s.random[|s.random| - 1] == id
    ensures InvWith(cfg, Popped(cfg, s, id), loose - {id}, off)
  {
    hide AddrOk, RandomOk, TriedOk, NewOk, RefsOk, CountOk;
    PoppedIndexes(cfg, s, id);
    PoppedTables(cfg, s, id);
    PoppedCounts(cfg, s, id, off);
  }

  lemma {:induction false} PoppedIndexes(cfg: Config, s: State, id: int)
    requires AddrOk(cfg, s.info, s.ids) && RandomOk(s.info, s.random)
    requires |s.random| > 0 && s.random[|s.random| - 1] == id
    ensures id in s.info
    ensures var t := Popped(cfg, s, id); AddrOk(cfg, t.info, t.ids) && RandomOk(t.info, t.random)
  {
  }

  lemma {:induction false} PoppedTables(cfg: Config, s: State, id: int)
    requires TriedOk(cfg, s.info, s.tried) && NewOk(cfg, s.info, s.news) && RefsOk(s.info, s.news)
    requires id in s.info && !s.info[id].inTried && s.info[id].refCount == 0 && |s.random| > 0
    ensures var t := Popped(cfg, s, id);
            TriedOk(cfg, t.info, t.tried) && NewOk(cfg, t.info, t.news) && RefsOk(t.info, t.news)
  {
    hide Held;
    HoldsNothing(s.info, s.news, id);
  }

  lemma {:induction false} PoppedCounts(cfg: Config, s: State, id: int, off: int)
    requires CountOk(s.info, s.nTried, s.nNew, off) && id in s.info && !s.info[id].inTried && |s.random| > 0
    ensures var t := Popped(cfg, s, id); CountOk(t.info, t.nTried, t.nNew, off)
  {
    var info := s.info - {id};
    assert Untried(info) == Untried(s.info) - {id} && id in Untried(s.info);
    assert TriedIds(info) == TriedIds(s.info);
  }

  /** The same record of an address; its place in the tables may differ. */
  predicate SameRecord(i: Info, j: Info) {
    i == j.(refCount := i.refCount, inTried := i.inTried, randomPos := i.randomPos)
  }

  /** What a step leaves alone: the tried table, all records and, but for their random position, entries other than
      `gone`. */
  ghost predicate Spares(s: State, t: State, gone: set<int>) {
    && t.tried == s.tried && t.collisions == s.collisions && t.idCount == s.idCount && t.lastGood == s.lastGood
    && t.nTried == s.nTried
    && (forall id | id in t.info :: id in s.info && SameRecord(t.info[id], s.info[id]))
    && (forall id | id in s.info && id !in gone ::
          id in t.info && t.info[id] == s.info[id].(randomPos := t.info[id].randomPos))
  }

  lemma {:induction false} DeletedKeeps(cfg: Config, s: State, id: int, loose: set<int>, off: int)
    requires InvWith(cfg, s, loose, off) && id in loose
    ensures InvWith(cfg, Deleted(cfg, s, id), loose - {id}, off)
    ensures id !in Deleted(cfg, s, id).info && Deleted(cfg, s, id).news == s.news
    ensures Spares(s, Deleted(cfg, s, id), {id})
  {
    hide AddrOk, TriedOk, NewOk, RefsOk, CountOk, IdsOk, TimesOk, RandomOk, LooseOk, Swapped, Popped;
    LooseEntry(s.info, loose, id);
    RandomPlace(s.info, s.random, id);
    var p, n := s.info[id].randomPos, |s.random| - 1;
    SwappedKeeps(cfg, s, p, n, loose, off);
    SwappedSpares(s, p, n);
    var t := Swapped(s, p, n);
    PoppedKeeps(cfg, t, id, loose, off);
    PoppedSpares(cfg, t, id);
  }

  lemma {:induction false} LooseEntry(info: map<int, Info>, loose: set<int>, id: int)
    requires LooseOk(info, loose) && id in loose
    ensures id in info && !info[id].inTried && info[id].refCount == 0
  {
  }

  lemma {:induction false} SwappedSpares(s: State, i: int, j: int)
    requires RandomOk(s.info, s.random) && 0 <= i < |s.random| && 0 <= j < |s.random|
    ensures var t := Swapped(s, i, j);
            && Spares(s, t, {}) && t.news == s.news && |t.random| == |s.random| && t.random[j] == s.random[i]
  {
  }

  lemma {:induction false} PoppedSpares(cfg: Config, s: State, id: int)
    requires id in s.info && |s.random| > 0
    ensures var t := Popped(cfg, s, id); id !in t.info && t.news == s.news && Spares(s, t, {id})
  {
  }

  lemma {:induction false} RandomPlace(info: map<int, Info>, random: seq<int>, id: int)
    requires RandomOk(info, random) && id in info
    ensures 0 <= info[id].randomPos < |random| && random[info[id].randomPos] == id && random[|random| - 1] in info
  {
  }

  lemma {:induction false} HoldsNothing(info: map<int, Info>, news: map<Slot, int>, id: int)
    requires RefsOk(info, news) && id in info && info[id].refCount == 0
    ensures forall sl | sl in news :: news[sl] != id
  {
    assert Held(news, id) == {};
    assert forall sl | sl in news :: news[sl] == id ==> sl in Held(news, id);
  }

  // ---- positions of the new table ----

  lemma {:induction false} ReleasedKeeps(cfg: Config, s: State, sl: Slot, loose: set<int>, off: int)
    requires InvWith(cfg, s, loose, off) && sl in s.news
    ensures s.news[sl] in s.info && s.news[sl] !in loose
    ensures s.info[s.news[sl]].refCount > 0 && !s.info[s.news[sl]].inTried
    ensures var id := s.news[sl];
            InvWith(cfg, Released(s, sl), if s.info[id].refCount == 1 then loose + {id} else loose, off)
    ensures Spares(s, Released(s, sl), {s.news[sl]})
  {
    hide AddrOk, TriedOk, CountOk, IdsOk, Held;
    var id := s.news[sl];
    assert id in s.info;
    var t := Released(s, sl);
    HeldReleased(s.news, sl);
    SameAddrsKeep(cfg, s, t.info, loose, off);
  }

  lemma {:induction false} HeldReleased(news: map<Slot, int>, sl: Slot)
    requires sl in news
    ensures |Held(news - {sl}, news[sl])| == |Held(news, news[sl])| - 1
    ensures forall id | id != news[sl] :: Held(news - {sl}, id) == Held(news, id)
  {
    assert sl in Held(news, news[sl]);
    assert Held(news - {sl}, news[sl]) == Held(news, news[sl]) - {sl};
    forall id | id != news[sl] ensures Held(news - {sl}, id) == Held(news, id) {}
  }

  lemma {:induction false} ClearedNewKeeps(cfg: Config, s: State, sl: Slot, loose: set<int>, off: int)
    requires InvWith(cfg, s, loose, off)
    ensures InvWith(cfg, ClearedNew(cfg, s, sl), loose, off)
    ensures ClearedNew(cfg, s, sl).news == s.news - {sl}
    ensures Spares(s, ClearedNew(cfg, s, sl), if sl in s.news then {s.news[sl]} else {})
  {
    hide AddrOk, TriedOk, NewOk, RefsOk, CountOk, IdsOk, TimesOk, RandomOk;
    if sl in s.news {
      ReleasedKeeps(cfg, s, sl, loose, off);
      var id := s.news[sl];
      if s.info[id].refCount == 1 { DeletedKeeps(cfg, Released(s, sl), id, loose + {id}, off); }
    }
  }

  /** An entry takes a free new position of its own. */
  lemma {:induction false} ClaimedKeeps(cfg: Config, s: State, sl: Slot, id: int, loose: set<int>, off: int)
    requires InvWith(cfg, s, loose, off) && sl !in s.news && id in s.info && !s.info[id].inTried
    requires sl == cfg.NewSlot(s.info[id].addr, sl.bucket) && sl.bucket < cfg.newBuckets
    requires s.info[id].refCount < NEW_BUCKETS_PER_ADDRESS
    ensures InvWith(cfg, Claimed(s, sl, id), loose - {id}, off)
    ensures Spares(s, Claimed(s, sl, id), {id})
  {
    hide AddrOk, TriedOk, CountOk, IdsOk, Held;
    var t := Claimed(s, sl, id);
    HeldClaimed(s.news, sl, id);
    SameAddrsKeep(cfg, s, t.info, loose, off);
  }

  lemma {:induction false} HeldClaimed(news: map<Slot, int>, sl: Slot, id: int)
    requires sl !in news
    ensures |Held(news[sl := id], id)| == |Held(news, id)| + 1
    ensures forall other | other != id :: Held(news[sl := id], other) == Held(news, other)
  {
    assert Held(news[sl := id], id) == Held(news, id) + {sl};
    forall other | other != id ensures Held(news[sl := id], other) == Held(news, other) {}
  }
}
