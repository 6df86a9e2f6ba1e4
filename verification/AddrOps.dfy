/** The operations of the address manager on its tables, and what whole runs keep. */
module AddrOps {
  import opened Wrappers
  import opened AddrTables

  // ---- moving an entry to tried ----

  lemma {:induction false} AllReleasedKeeps(cfg: Config, s: State, id: int)
    requires InvWith(cfg, s, {}, 0) && id in s.info && !s.info[id].inTried
    ensures var t := AllReleased(s, id); InvWith(cfg, t.(nNew := t.nNew - 1), {id}, 1)
  {
    hide AddrOk, TriedOk, IdsOk, Held;
    var t := AllReleased(s, id);
    HeldAllReleased(s.news, t.news, id);
    SameAddrsKeep(cfg, s, t.info, {}, 0);
  }

  /** The search through the buckets, one bucket at a time. */
  function ReleasedUpTo(cfg: Config, s: State, id: int, b: nat): State
    requires id in s.info
  {
    if b == 0 then s
    else
      var t := ReleasedUpTo(cfg, s, id, b - 1);
      var sl := cfg.NewSlot(s.info[id].addr, b - 1);
      if sl in t.news && t.news[sl] == id && id in t.info
      then Put(t.(news := t.news - {sl}), id, t.info[id].(refCount := t.info[id].refCount - 1))
      else t
  }

  ghost function HeldFrom(news: map<Slot, int>, id: int, b: nat): set<Slot> {
    set sl | sl in news && news[sl] == id && sl.bucket >= b
  }

  /** What is left of a new table when `id` has left the buckets below `b`. */
  ghost function NewsFrom(news: map<Slot, int>, id: int, b: nat): map<Slot, int> {
    map sl | sl in news && !(news[sl] == id && sl.bucket < b) :: news[sl]
  }

  lemma {:induction false} NewsStep(news: map<Slot, int>, id: int, b: nat, sl: Slot)
    requires sl.bucket == b && forall x | x in news && news[x] == id && x.bucket == b :: x == sl
    ensures if sl in news && news[sl] == id
            then NewsFrom(news, id, b + 1) == NewsFrom(news, id, b) - {sl}
              && |HeldFrom(news, id, b + 1)| == |HeldFrom(news, id, b)| - 1
            else (NewsFrom(news, id, b + 1) == NewsFrom(news, id, b)
              && HeldFrom(news, id, b + 1) == HeldFrom(news, id, b))
    ensures sl in NewsFrom(news, id, b) && NewsFrom(news, id, b)[sl] == id <==> sl in news && news[sl] == id
  {
    if sl in news && news[sl] == id {
      assert HeldFrom(news, id, b) == HeldFrom(news, id, b + 1) + {sl};
      assert NewsFrom(news, id, b + 1) == NewsFrom(news, id, b) - {sl};
    } else {
      assert HeldFrom(news, id, b) == HeldFrom(news, id, b + 1);
      assert NewsFrom(news, id, b + 1) == NewsFrom(news, id, b);
    }
  }

  lemma {:induction false} ReleasedUpToIs(cfg: Config, s: State, id: int, b: nat)
    requires NewOk(cfg, s.info, s.news) && RefsOk(s.info, s.news) && id in s.info
    ensures ReleasedUpTo(cfg, s, id, b)
            == Put(s.(news := NewsFrom(s.news, id, b)), id, s.info[id].(refCount := |HeldFrom(s.news, id, b)|))
  {
    hide NewOk, RefsOk, Held, HeldFrom, NewsFrom;
    if b == 0 {
      HeldFromZero(s.news, id);
      RefOf(s.info, s.news, id);
      assert s.info[id := s.info[id].(refCount := |HeldFrom(s.news, id, 0)|)] == s.info;
    } else {
      ReleasedUpToIs(cfg, s, id, b - 1);
      var sl := cfg.NewSlot(s.info[id].addr, b - 1);
      OwnBucket(cfg, s, id, b - 1);
      NewsStep(s.news, id, b - 1, sl);
      var i := s.info[id];
      var was, now := i.(refCount := |HeldFrom(s.news, id, b - 1)|), i.(refCount := |HeldFrom(s.news, id, b)|);
      assert s.info[id := was][id := now] == s.info[id := now];
    }
  }

  lemma {:induction false} HeldFromZero(news: map<Slot, int>, id: int)
    ensures HeldFrom(news, id, 0) == Held(news, id) && NewsFrom(news, id, 0) == news
  {
  }

  lemma {:induction false} RefOf(info: map<int, Info>, news: map<Slot, int>, id: int)
    requires RefsOk(info, news) && id in info
    ensures info[id].refCount == |Held(news, id)|
  {
  }

  /** In one bucket an entry can hold only its own position. */
  lemma {:induction false} OwnBucket(cfg: Config, s: State, id: int, b: nat)
    requires NewOk(cfg, s.info, s.news) && id in s.info
    ensures forall x | x in s.news && s.news[x] == id && x.bucket == b :: x == cfg.NewSlot(s.info[id].addr, b)
  {
  }

  lemma {:induction false} ReleasedUpToAll(cfg: Config, s: State, id: int)
    requires NewOk(cfg, s.info, s.news) && RefsOk(s.info, s.news) && id in s.info
    ensures ReleasedUpTo(cfg, s, id, cfg.newBuckets) == AllReleased(s, id)
  {
    ReleasedUpToIs(cfg, s, id, cfg.newBuckets);
    assert HeldFrom(s.news, id, cfg.newBuckets) == {};
    assert NewsFrom(s.news, id, cfg.newBuckets) == map sl | sl in s.news && s.news[sl] != id :: s.news[sl];
  }

  lemma {:induction false} HeldAllReleased(news: map<Slot, int>, now: map<Slot, int>, id: int)
    requires now == map sl | sl in news && news[sl] != id :: news[sl]
    ensures Held(now, id) == {} && forall other | other != id :: Held(now, other) == Held(news, other)
  {
    forall other | other != id ensures Held(now, other) == Held(news, other) {}
  }

  /** Moving an entry between the tables leaves the indexes alone. */
  lemma {:induction false} FlagKeepsIndexes(cfg: Config, s: State, id: int, flag: bool)
    requires AddrOk(cfg, s.info, s.ids) && RandomOk(s.info, s.random) && IdsOk(s.info, s.idCount) && TimesOk(s.info)
    requires id in s.info && (flag ==> s.info[id].lastSuccess > 0)
    ensures var now := s.info[id := s.info[id].(inTried := flag)];
            AddrOk(cfg, now, s.ids) && RandomOk(now, s.random) && IdsOk(now, s.idCount) && TimesOk(now)
  {
  }

  lemma {:induction false} EvictedTriedOk(cfg: Config, s: State, sl: Slot)
    requires TriedOk(cfg, s.info, s.tried) && sl in s.tried
    ensures s.tried[sl] in s.info && s.info[s.tried[sl]].inTried
    ensures TriedOk(cfg, Evicted(s, sl).info, Evicted(s, sl).tried)
  {
    var id := s.tried[sl];
    assert id in s.info;
  }

  lemma {:induction false} EnteredTriedOk(cfg: Config, s: State, id: int)
    requires TriedOk(cfg, s.info, s.tried) && id in s.info && !s.info[id].inTried
    requires cfg.TriedSlot(s.info[id].addr) !in s.tried
    ensures var t := Entered(s, cfg.TriedSlot(s.info[id].addr), id); TriedOk(cfg, t.info, t.tried)
  {
  }

  lemma {:induction false} EvictedKeeps(cfg: Config, s: State, sl: Slot, loose: set<int>, off: int)
    requires InvWith(cfg, s, loose, off) && sl in s.tried
    ensures s.tried[sl] in s.info && s.tried[sl] !in loose
    ensures InvWith(cfg, Evicted(s, sl), loose + {s.tried[sl]}, off + 1)
  {
    hide Held, AddrOk, RandomOk, IdsOk, TimesOk, TriedOk, NewOk, RefsOk, CountOk;
    EvictedTriedOk(cfg, s, sl);
    EvictedTables(cfg, s, sl, off);
    FlagKeepsIndexes(cfg, s, s.tried[sl], false);
  }

  lemma {:induction false} EvictedTables(cfg: Config, s: State, sl: Slot, off: int)
    requires NewOk(cfg, s.info, s.news) && RefsOk(s.info, s.news) && CountOk(s.info, s.nTried, s.nNew, off)
    requires sl in s.tried && s.tried[sl] in s.info && s.info[s.tried[sl]].inTried
    ensures var t := Evicted(s, sl);
            NewOk(cfg, t.info, t.news) && RefsOk(t.info, t.news) && CountOk(t.info, t.nTried, t.nNew, off + 1)
  {
    hide Held;
    var id, t := s.tried[sl], Evicted(s, sl);
    NoneHeld(cfg, s.info, s.news, id);
    assert Untried(t.info) == Untried(s.info) + {id};
    assert TriedIds(t.info) == TriedIds(s.info) - {id};
  }

  lemma {:induction false} EnteredKeeps(cfg: Config, s: State, id: int, loose: set<int>, off: int)
    requires InvWith(cfg, s, loose, off) && id in loose
    requires cfg.TriedSlot(s.info[id].addr) !in s.tried && s.info[id].lastSuccess > 0
    ensures InvWith(cfg, Entered(s, cfg.TriedSlot(s.info[id].addr), id), loose - {id}, off - 1)
  {
    hide Held, AddrOk, RandomOk, IdsOk, TimesOk, TriedOk, NewOk, RefsOk, CountOk;
    EnteredTriedOk(cfg, s, id);
    EnteredTables(cfg, s, id, off);
    FlagKeepsIndexes(cfg, s, id, true);
  }

  lemma {:induction false} EnteredTables(cfg: Config, s: State, id: int, off: int)
    requires NewOk(cfg, s.info, s.news) && RefsOk(s.info, s.news) && CountOk(s.info, s.nTried, s.nNew, off)
    requires id in s.info && !s.info[id].inTried && s.info[id].refCount == 0
    ensures var t := Entered(s, cfg.TriedSlot(s.info[id].addr), id);
            NewOk(cfg, t.info, t.news) && RefsOk(t.info, t.news) && CountOk(t.info, t.nTried, t.nNew, off - 1)
  {
    hide Held;
    var t := Entered(s, cfg.TriedSlot(s.info[id].addr), id);
    HoldsNothing(s.info, s.news, id);
    assert Untried(t.info) == Untried(s.info) - {id};
    assert TriedIds(t.info) == TriedIds(s.info) + {id};
  }

  lemma {:induction false} ReadmittedKeeps(cfg: Config, s: State, id: int, loose: set<int>, off: int)
    requires cfg.Wf() && InvWith(cfg, s, loose, off) && id in loose
    ensures id in s.info && InvWith(cfg, Readmitted(cfg, s, id), loose - {id}, off - 1)
    ensures var t := Readmitted(cfg, s, id); var a := s.info[id].addr;
            var sl := cfg.NewSlot(a, cfg.newBucketOf(a, s.info[id].source));
            && t.news == s.news[sl := id]
            && Spares(s, t, {id} + if sl in s.news then {s.news[sl]} else {})
            && id in t.info && t.info[id].refCount == 1 && !t.info[id].inTried
  {
    hide InvWith, ClearedNew, Spares;
    LooseFacts(cfg, s, id, loose, off);
    var a := s.info[id].addr;
    var sl := cfg.NewSlot(a, cfg.newBucketOf(a, s.info[id].source));
    ClearedNewKeeps(cfg, s, sl, loose, off);
    if sl in s.news { ReleasedKeeps(cfg, s, sl, loose, off); }
    var gone := if sl in s.news then {s.news[sl]} else {};
    var t := ClearedNew(cfg, s, sl);
    SparedEntry(s, t, gone, id);
    ClaimedKeeps(cfg, t, sl, id, loose, off);
    var u := Claimed(t, sl, id);
    OneMoreCounted(cfg, u, loose - {id}, off);
    assert Readmitted(cfg, s, id) == u.(nNew := u.nNew + 1);
    SparesOn(s, t, u, gone, id);
  }

  lemma {:induction false} LooseFacts(cfg: Config, s: State, id: int, loose: set<int>, off: int)
    requires InvWith(cfg, s, loose, off) && id in loose
    ensures id in s.info && !s.info[id].inTried && s.info[id].refCount == 0
  {
    hide AddrOk, RandomOk, TriedOk, NewOk, RefsOk, CountOk, IdsOk, TimesOk;
  }

  lemma {:induction false} SparedEntry(s: State, t: State, gone: set<int>, id: int)
    requires Spares(s, t, gone) && id in s.info && id !in gone
    ensures id in t.info && t.info[id] == s.info[id].(randomPos := t.info[id].randomPos)
  {
  }

  lemma {:induction false} SparesOn(s: State, t: State, u: State, gone: set<int>, id: int)
    requires Spares(s, t, gone) && Spares(t, u, {id})
    ensures Spares(s, u.(nNew := u.nNew + 1), {id} + gone)
  {
  }

  /** What moving `id` to tried does: it leaves new; whoever had its position goes back to new, to its own place there.
      With the invariant, that says who is dropped: the entry at that place, if it has no other. */
  ghost predicate MovedToTried(cfg: Config, s: State, t: State, id: int)
    requires id in s.info
  {
    var sl := cfg.TriedSlot(s.info[id].addr);
    && t.tried == s.tried[sl := id]
    && (sl !in s.tried ==> t.news == Left(s.news, id))
    && (sl in s.tried ==>
          s.tried[sl] in s.info && t.news == Left(s.news, id)[Home(cfg, s.info[s.tried[sl]]) := s.tried[sl]])
    && t.collisions == s.collisions && t.idCount == s.idCount && t.lastGood == s.lastGood
    && (forall x | x in t.info :: x in s.info && SameRecord(t.info[x], s.info[x]))
    && id in t.info && t.info[id].inTried
  }

  /** The new table without the positions of one entry. */
  ghost function Left(news: map<Slot, int>, id: int): map<Slot, int> {
    map sl | sl in news && news[sl] != id :: news[sl]
  }

  /** The new position that an entry's own source gives it. */
  ghost function Home(cfg: Config, i: Info): Slot { cfg.NewSlot(i.addr, cfg.newBucketOf(i.addr, i.source)) }

  /** Room for `id`: the entry at its tried position, if any, goes back to new. */
  lemma {:induction false} MadeRoomKeeps(cfg: Config, s: State, id: int)
    requires cfg.Wf() && InvWith(cfg, s, {id}, 1) && id in s.info && cfg.TriedSlot(s.info[id].addr) in s.tried
    ensures var sl := cfg.TriedSlot(s.info[id].addr); s.tried[sl] in s.info && s.tried[sl] != id
    ensures var sl := cfg.TriedSlot(s.info[id].addr); var e := s.tried[sl];
            var u := Readmitted(cfg, Evicted(s, sl), e);
            && InvWith(cfg, u, {id}, 1) && u.collisions == s.collisions && u.idCount == s.idCount
            && (forall x | x in u.info :: x in s.info && SameRecord(u.info[x], s.info[x]))
            && u.tried == s.tried - {sl} && id in u.info && u.info[id] == s.info[id].(randomPos := u.info[id].randomPos)
            && u.news == s.news[Home(cfg, s.info[e]) := e] && u.lastGood == s.lastGood
  {
    hide AddrOk, TriedOk, NewOk, RefsOk, CountOk, LooseOk, IdsOk, TimesOk, RandomOk, Readmitted;
    var sl := cfg.TriedSlot(s.info[id].addr);
    EvictedKeeps(cfg, s, sl, {id}, 1);
    var e, v := s.tried[sl], Evicted(s, sl);
    ReadmittedKeeps(cfg, v, e, {id} + {e}, 2);
    assert {id} + {e} - {e} == {id};
    NotLooseHolder(cfg, v, {id} + {e}, 2);
  }

  lemma {:induction false} NotLooseHolder(cfg: Config, s: State, loose: set<int>, off: int)
    requires InvWith(cfg, s, loose, off)
    ensures forall sl | sl in s.news :: s.news[sl] !in loose
  {
    hide AddrOk, TriedOk, NewOk, RefsOk, CountOk, LooseOk, IdsOk, TimesOk, RandomOk;
    forall sl | sl in s.news ensures s.news[sl] !in loose { ReleasedKeeps(cfg, s, sl, loose, off); }
  }

  lemma {:induction false} MadeTriedKeeps(cfg: Config, s: State, id: int)
    requires cfg.Wf() && InvWith(cfg, s, {}, 0) && id in s.info && !s.info[id].inTried && s.info[id].lastSuccess > 0
    ensures InvWith(cfg, MadeTried(cfg, s, id), {}, 0) && Grows(s, MadeTried(cfg, s, id))
    ensures MovedToTried(cfg, s, MadeTried(cfg, s, id), id)
  {
    hide AddrOk, TriedOk, NewOk, RefsOk, CountOk, LooseOk, IdsOk, TimesOk, RandomOk, Readmitted, Held;
    var sl := cfg.TriedSlot(s.info[id].addr);
    var t := AllReleased(s, id);
    t := t.(nNew := t.nNew - 1);
    AllReleasedKeeps(cfg, s, id);
    var u := t;
    if sl in t.tried {
      var e := t.tried[sl];
      MadeRoomKeeps(cfg, t, id);
      u := Readmitted(cfg, Evicted(t, sl), e);
    }
    EnteredKeeps(cfg, u, id, {id}, 1);
    assert {id} - {id} == {};
    var r := Entered(u, sl, id);
    assert r == MadeTried(cfg, s, id);
    NoneHeld(cfg, r.info, r.news, id);
  }

  // ---- looking up ----

  function Find(cfg: Config, s: State, a: Service): Option<int> {
    if cfg.Norm(a) in s.ids && s.ids[cfg.Norm(a)] in s.info then Some(s.ids[cfg.Norm(a)]) else None
  }

  /** The entry for exactly this service, port included. */
  function FindExact(cfg: Config, s: State, a: Service): Option<int> {
    match Find(cfg, s, a)
    case Some(id) => if s.info[id].addr == a then Some(id) else None
    case None => None
  }

  /** Looking up finds an entry exactly when one with the same normalised address exists. */
  lemma {:induction false} FindIff(cfg: Config, s: State, a: Service)
    requires Inv(cfg, s)
    ensures Find(cfg, s, a).Some? <==> exists id | id in s.info :: cfg.Norm(s.info[id].addr) == cfg.Norm(a)
    ensures Find(cfg, s, a).Some? ==>
              forall id | id in s.info :: cfg.Norm(s.info[id].addr) == cfg.Norm(a) <==> id == Find(cfg, s, a).value
  {
    hide RandomOk, TriedOk, NewOk, RefsOk, CountOk, LooseOk, IdsOk, TimesOk;
    if Find(cfg, s, a).Some? {
      var id := Find(cfg, s, a).value;
      assert id in s.info && cfg.Norm(s.info[id].addr) == cfg.Norm(a);
    }
  }

  lemma {:induction false} FindOwn(cfg: Config, s: State, id: int)
    requires InvWith(cfg, s, {}, 0) && id in s.info
    ensures FindExact(cfg, s, s.info[id].addr) == Some(id)
  {
    hide RandomOk, TriedOk, NewOk, RefsOk, CountOk, LooseOk, IdsOk, TimesOk;
  }

  // ---- the operations ----

  const TWO32 := 0x1_0000_0000

  /** Conversion to the 32-bit time of an address. */
  function Time32(t: int): nat { t % TWO32 }

  function Max(a: int, b: int): int { if a < b then b else a }

  predicate IsTerrible(i: Info, now: int) {
    if i.lastTry != 0 && i.lastTry >= now - 60 then false
    else
      || i.time > now + 600
      || i.time == 0 || now - i.time > 30 * 86400
      || (i.lastSuccess == 0 && i.attempts >= 3)
      || (now - i.lastSuccess > 7 * 86400 && i.attempts >= 10)
  }

  predicate HoldsSome(news: map<Slot, int>, id: int) { exists sl | sl in news :: news[sl] == id }

  function Good(cfg: Config, s: State, a: Service, testBeforeEvict: bool, time: int): State {
    var s := s.(lastGood := time);
    match FindExact(cfg, s, a)
    case None => s
    case Some(id) =>
      var s := Put(s, id, s.info[id].(lastSuccess := time, lastTry := time, attempts := 0));
      var sl := cfg.TriedSlot(a);
      if s.info[id].inTried then s
      else if !HoldsSome(s.news, id) then s
      else if testBeforeEvict && sl in s.tried then
        if |s.collisions| < SET_TRIED_COLLISION_SIZE then s.(collisions := s.collisions + {id}) else s
      else MadeTried(cfg, s, id)
  }

  function PlacedNew(cfg: Config, s: State, id: int, source: int, now: int): State
    requires id in s.info
  {
    var a := s.info[id].addr;
    var sl := cfg.NewSlot(a, cfg.newBucketOf(a, source));
    if sl in s.news && s.news[sl] == id then s
    else if sl !in s.news || s.news[sl] !in s.info || IsTerrible(s.info[s.news[sl]], now)
            || (s.info[s.news[sl]].refCount > 1 && s.info[id].refCount == 0) then
      var t := ClearedNew(cfg, s, sl);
      if id in t.info then Claimed(t, sl, id) else t
    else if s.info[id].refCount == 0 then Deleted(cfg, s, id) else s
  }

  /** Whether an announcement of a known address goes on to take another new position. */
  predicate MayTakeAnother(i: Info, a: Address, lucky: bool) {
    && a.time != 0 && (i.time == 0 || a.time > i.time)
    && !i.inTried && i.refCount != NEW_BUCKETS_PER_ADDRESS
    && (i.refCount > 0 ==> lucky)
  }

  function Refreshed(i: Info, a: Address, penalty: int, now: int): Info {
    var interval := if now - a.time < 86400 then 3600 else 86400;
    var time := if a.time != 0 && (i.time == 0 || i.time < a.time - interval - penalty)
                then Time32(Max(0, a.time - penalty)) else i.time;
    i.(time := time, services := i.services + a.services)
  }

  /** `lucky`: the random draw that decides on one more position came up zero. */
  function Add(cfg: Config, s: State, a: Address, source: int, timePenalty: int, now: int, lucky: bool): (State, bool) {
    var penalty := if a.service.host == source then 0 else timePenalty;
    if !cfg.isRoutable(a.service) then (s, false)
    else match Find(cfg, s, a.service)
      case Some(id) =>
        var i := Refreshed(s.info[id], a, penalty, now);
        var t := Put(s, id, i);
        (if MayTakeAnother(i, a, lucky) then PlacedNew(cfg, t, id, source, now) else t, false)
      case None =>
        var t := Created(cfg, s, a, source);
        var i := t.info[s.idCount];
        var t := Put(t, s.idCount, i.(time := Time32(Max(0, i.time - penalty))));
        (PlacedNew(cfg, t.(nNew := t.nNew + 1), s.idCount, source, now), true)
  }

  function Attempt(cfg: Config, s: State, a: Service, countFailure: bool, time: int): State {
    match FindExact(cfg, s, a)
    case None => s
    case Some(id) =>
      var i := s.info[id].(lastTry := time);
      Put(s, id, if countFailure && i.lastCountAttempt < s.lastGood
                 then i.(lastCountAttempt := time, attempts := i.attempts + 1) else i)
  }

  function Connected(cfg: Config, s: State, a: Service, time: int): State {
    match FindExact(cfg, s, a)
    case None => s
    case Some(id) =>
      if time - s.info[id].time > 20 * 60 then Put(s, id, s.info[id].(time := Time32(time))) else s
  }

  function SetServices(cfg: Config, s: State, a: Service, services: set<nat>): State {
    match FindExact(cfg, s, a)
    case None => s
    case Some(id) => Put(s, id, s.info[id].(services := services))
  }

  /** Whether a pending collision is settled now, and whether by replacing. */
  datatype Verdict = Keep | Forget | Replace

  function Judge(cfg: Config, s: State, id: int, now: int): Verdict {
    if id !in s.info then Forget
    else
      var i := s.info[id];
      var sl := cfg.TriedSlot(i.addr);
      if !cfg.isValid(i.addr) then Forget
      else if sl in s.tried && s.tried[sl] in s.info then
        var holder := s.info[s.tried[sl]];
        if now - holder.lastSuccess < 4 * 3600 then Forget
        else if now - holder.lastTry < 4 * 3600 then (if now - holder.lastTry > 60 then Replace else Keep)
        else if now - i.lastSuccess > 40 * 60 then Replace
        else Keep
      else Replace
  }

  function ResolvedOne(cfg: Config, s: State, id: int, now: int): State {
    match Judge(cfg, s, id, now)
    case Keep => s
    case Forget => s.(collisions := s.collisions - {id})
    case Replace =>
      if id !in s.info then s
      else var t := Good(cfg, s, s.info[id].addr, false, now); t.(collisions := t.collisions - {id})
  }

  /** The pending collisions are judged one after the other, in the order of `ids`. */
  function Resolved(cfg: Config, s: State, ids: seq<int>, now: int): State {
    if ids == [] then s else ResolvedOne(cfg, Resolved(cfg, s, ids[..|ids| - 1], now), ids[|ids| - 1], now)
  }

  lemma {:induction false} ResolvedNone(cfg: Config, s: State, now: int)
    ensures Resolved(cfg, s, [], now) == s
  {
  }

  lemma {:induction false} ResolvedNext(cfg: Config, s: State, ids: seq<int>, i: nat, now: int)
    requires i < |ids|
    ensures Resolved(cfg, s, ids[..i + 1], now) == ResolvedOne(cfg, Resolved(cfg, s, ids[..i], now), ids[i], now)
  {
    assert ids[..i + 1][..i] == ids[..i];
  }

  /** A partial shuffle: the first `n` places are drawn one after the other. */
  function Shuffled(s: State, draws: seq<nat>): State {
    if draws == [] then s
    else var n := |draws| - 1; Swapped(Shuffled(s, draws[..n]), n, n + draws[n])
  }

  // ---- every operation keeps the invariant ----

  lemma {:induction false} GoodKeeps(cfg: Config, s: State, a: Service, test: bool, time: int)
    requires cfg.Wf() && Inv(cfg, s) && time > 0
    ensures Inv(cfg, Good(cfg, s, a, test, time)) && Grows(s, Good(cfg, s, a, test, time))
  {
    hide AddrOk, RandomOk, TriedOk, NewOk, RefsOk, CountOk, IdsOk, TimesOk, MadeTried;
    var s0 := s.(lastGood := time);
    match FindExact(cfg, s0, a)
    case None =>
    case Some(id) =>
      var i := s.info[id].(lastSuccess := time, lastTry := time, attempts := 0);
      PutKeeps(cfg, s0, id, i, {}, 0);
      var t := Put(s0, id, i);
      GrowsCollisions(cfg, s, t);
      if !i.inTried {
        IdBelow(cfg, s, id);
        MadeTriedKeeps(cfg, t, id);
        var u := MadeTried(cfg, t, id);
        GrowsOn(s, t, u);
        GrowsCollisions(cfg, s, u);
      }
  }

  lemma {:induction false} IdBelow(cfg: Config, s: State, id: int)
    requires InvWith(cfg, s, {}, 0) && id in s.info
    ensures 0 <= id < s.idCount
  {
  }

  /** An entry outside tried always holds a new position: the search for one never fails. */
  lemma {:induction false} AlwaysHeld(cfg: Config, s: State, id: int)
    requires InvWith(cfg, s, {}, 0) && id in s.info && !s.info[id].inTried
    ensures HoldsSome(s.news, id)
  {
    hide AddrOk, RandomOk, TriedOk, NewOk, CountOk, IdsOk, TimesOk;
    assert Held(s.news, id) != {};
    var sl :| sl in Held(s.news, id);
  }

  lemma {:induction false} PlacedNewKeeps(cfg: Config, s: State, id: int, source: int, now: int, loose: set<int>)
    requires cfg.Wf() && InvWith(cfg, s, loose, 0) && id in s.info && !s.info[id].inTried
    requires loose <= {id} && s.info[id].refCount < NEW_BUCKETS_PER_ADDRESS
    ensures InvWith(cfg, PlacedNew(cfg, s, id, source, now), {}, 0)
    ensures Grows(s, PlacedNew(cfg, s, id, source, now))
    ensures PlacedNew(cfg, s, id, source, now).collisions == s.collisions
  {
    hide AddrOk, RandomOk, TriedOk, NewOk, RefsOk, CountOk, IdsOk, TimesOk, IsTerrible;
    var a := s.info[id].addr;
    var sl := cfg.NewSlot(a, cfg.newBucketOf(a, source));
    if sl in s.news { ReleasedKeeps(cfg, s, sl, loose, 0); }
    assert loose - {id} == {};
    if sl in s.news && s.news[sl] == id {
      assert loose == {};
    } else if PlacedNew(cfg, s, id, source, now) != s || s.info[id].refCount == 0 {
      ClearedNewKeeps(cfg, s, sl, loose, 0);
      var t := ClearedNew(cfg, s, sl);
      ClaimedKeeps(cfg, t, sl, id, loose, 0);
      if id in loose { DeletedKeeps(cfg, s, id, loose, 0); }
    } else {
      assert loose == {};
    }
  }

  lemma {:induction false} AddKeeps(cfg: Config, s: State, a: Address, source: int, timePenalty: int, now: int,
      lucky: bool)
    requires cfg.Wf() && Inv(cfg, s)
    ensures var t := Add(cfg, s, a, source, timePenalty, now, lucky).0; Inv(cfg, t) && Grows(s, t)
    ensures Add(cfg, s, a, source, timePenalty, now, lucky).1
            <==> cfg.isRoutable(a.service) && Find(cfg, s, a.service).None?
  {
    hide AddrOk, RandomOk, TriedOk, NewOk, RefsOk, CountOk, IdsOk, PlacedNew;
    var penalty := if a.service.host == source then 0 else timePenalty;
    var r := Add(cfg, s, a, source, timePenalty, now, lucky).0;
    if cfg.isRoutable(a.service) {
      match Find(cfg, s, a.service)
      case Some(id) =>
        var i := Refreshed(s.info[id], a, penalty, now);
        var t := Put(s, id, i);
        PutKeeps(cfg, s, id, i, {}, 0);
        GrowsCollisions(cfg, s, t);
        if MayTakeAnother(i, a, lucky) {
          PlacedNewKeeps(cfg, t, id, source, now, {});
          GrowsOn(s, t, r);
          GrowsCollisions(cfg, s, r);
        }
      case None =>
        NotFound(cfg, s, a.service);
        CreatedKeeps(cfg, s, a, source, {}, 0);
        assert {} + {s.idCount} == {s.idCount};
        var t := Created(cfg, s, a, source);
        var i := t.info[s.idCount];
        var i' := i.(time := Time32(Max(0, i.time - penalty)));
        PutKeeps(cfg, t, s.idCount, i', {s.idCount}, 1);
        var u := Put(t, s.idCount, i');
        GrowsOn(s, t, u);
        var v := u.(nNew := u.nNew + 1);
        assert InvWith(cfg, v, {s.idCount}, 0) by { OneMoreCounted(cfg, u, {s.idCount}, 1); }
        PlacedNewKeeps(cfg, v, s.idCount, source, now, {s.idCount});
        GrowsOn(s, v, r);
        GrowsCollisions(cfg, s, r);
    }
  }

  lemma {:induction false} FreshId(cfg: Config, s: State)
    requires InvWith(cfg, s, {}, 0)
    ensures s.idCount !in s.info && forall sl | sl in s.news :: s.news[sl] != s.idCount
  {
    hide AddrOk, RandomOk, TriedOk, RefsOk, CountOk, LooseOk, TimesOk;
    forall sl | sl in s.news ensures s.news[sl] != s.idCount {
      var id := s.news[sl];
      assert id in s.info;
    }
  }

  lemma {:induction false} StillUnknown(cfg: Config, s: State, t: State, a: Service)
    requires Inv(cfg, s) && Inv(cfg, t) && Find(cfg, s, a).None?
    requires forall id | id in t.info :: id in s.info && t.info[id].addr == s.info[id].addr
    ensures Find(cfg, t, a).None?
  {
    hide RandomOk, TriedOk, NewOk, RefsOk, CountOk, LooseOk, IdsOk, TimesOk, CollisionsOk;
    if cfg.Norm(a) in t.ids {
      var id := t.ids[cfg.Norm(a)];
      assert id in t.info ==> id in s.info;
    }
  }

  lemma {:induction false} OneMoreCounted(cfg: Config, s: State, loose: set<int>, off: int)
    requires InvWith(cfg, s, loose, off)
    ensures InvWith(cfg, s.(nNew := s.nNew + 1), loose, off - 1)
  {
    hide AddrOk, RandomOk, TriedOk, NewOk, RefsOk, LooseOk, IdsOk, TimesOk;
  }

  lemma {:induction false} NotFound(cfg: Config, s: State, a: Service)
    requires Inv(cfg, s) && Find(cfg, s, a).None?
    ensures cfg.Norm(a) !in s.ids
  {
    hide RandomOk, TriedOk, NewOk, RefsOk, CountOk, LooseOk, IdsOk, TimesOk;
  }

  lemma {:induction false} TouchKeeps(cfg: Config, s: State, id: int, i: Info)
    requires Inv(cfg, s) && id in s.info
    requires i.addr == s.info[id].addr && i.refCount == s.info[id].refCount && i.inTried == s.info[id].inTried
    requires i.randomPos == s.info[id].randomPos && i.lastTry >= 0 && i.lastSuccess == s.info[id].lastSuccess
    ensures Inv(cfg, Put(s, id, i)) && Grows(s, Put(s, id, i))
  {
    hide AddrOk, RandomOk, TriedOk, NewOk, RefsOk, CountOk, LooseOk, IdsOk;
    PutKeeps(cfg, s, id, i, {}, 0);
    GrowsCollisions(cfg, s, Put(s, id, i));
  }

  lemma {:induction false} StatisticsKeep(cfg: Config, s: State, a: Service, flag: bool, time: int, services: set<nat>)
    requires Inv(cfg, s) && time >= 0
    ensures Inv(cfg, Attempt(cfg, s, a, flag, time)) && Grows(s, Attempt(cfg, s, a, flag, time))
    ensures Inv(cfg, Connected(cfg, s, a, time)) && Grows(s, Connected(cfg, s, a, time))
    ensures Inv(cfg, SetServices(cfg, s, a, services)) && Grows(s, SetServices(cfg, s, a, services))
  {
    hide AddrOk, RandomOk, TriedOk, NewOk, RefsOk, CountOk, LooseOk, IdsOk;
    match FindExact(cfg, s, a)
    case None =>
    case Some(id) =>
      var i := s.info[id].(lastTry := time);
      TouchKeeps(cfg, s, id, i);
      TouchKeeps(cfg, s, id, i.(lastCountAttempt := time, attempts := i.attempts + 1));
      TouchKeeps(cfg, s, id, s.info[id].(time := Time32(time)));
      TouchKeeps(cfg, s, id, s.info[id].(services := services));
  }

  lemma {:induction false} FewerCollisions(cfg: Config, s: State, collisions: set<int>)
    requires Inv(cfg, s) && collisions <= s.collisions
    ensures Inv(cfg, s.(collisions := collisions)) && Grows(s, s.(collisions := collisions))
  {
    hide AddrOk, RandomOk, TriedOk, NewOk, RefsOk, CountOk, LooseOk, IdsOk, TimesOk;
    SubsetSize(collisions, s.collisions);
  }

  lemma {:induction false} SubsetSize(x: set<int>, y: set<int>)
    requires x <= y
    ensures |x| <= |y|
  {
    assert y == x + (y - x) && |y| == |x| + |y - x|;
  }

  lemma {:induction false} ResolvedOneKeeps(cfg: Config, s: State, id: int, now: int)
    requires cfg.Wf() && Inv(cfg, s) && now > 0
    ensures Inv(cfg, ResolvedOne(cfg, s, id, now)) && Grows(s, ResolvedOne(cfg, s, id, now))
  {
    hide InvWith, CollisionsOk, Good, Judge;
    match Judge(cfg, s, id, now)
    case Keep => GrowsSelf(s);
    case Forget => FewerCollisions(cfg, s, s.collisions - {id});
    case Replace =>
      if id in s.info {
        GoodKeeps(cfg, s, s.info[id].addr, false, now);
        var t := Good(cfg, s, s.info[id].addr, false, now);
        FewerCollisions(cfg, t, t.collisions - {id});
        GrowsOn(s, t, t.(collisions := t.collisions - {id}));
      } else {
        GrowsSelf(s);
      }
  }

  lemma {:induction false} GrowsSelf(s: State)
    ensures Grows(s, s)
  {
  }

  lemma {:induction false} ResolvedKeeps(cfg: Config, s: State, ids: seq<int>, now: int)
    requires cfg.Wf() && Inv(cfg, s) && now > 0
    ensures Inv(cfg, Resolved(cfg, s, ids, now)) && Grows(s, Resolved(cfg, s, ids, now))
  {
    hide Inv, ResolvedOne, Grows;
    if ids == [] {
      GrowsSelf(s);
    } else {
      var n := |ids| - 1;
      ResolvedKeeps(cfg, s, ids[..n], now);
      var t := Resolved(cfg, s, ids[..n], now);
      ResolvedOneKeeps(cfg, t, ids[n], now);
      GrowsOn(s, t, ResolvedOne(cfg, t, ids[n], now));
    }
  }

  lemma {:induction false} ShuffledKeeps(cfg: Config, s: State, draws: seq<nat>)
    requires Inv(cfg, s) && |draws| <= |s.random| && forall n | 0 <= n < |draws| :: n + draws[n] < |s.random|
    ensures Inv(cfg, Shuffled(s, draws)) && Grows(s, Shuffled(s, draws))
    ensures |Shuffled(s, draws).random| == |s.random| && multiset(Shuffled(s, draws).random) == multiset(s.random)
  {
    hide InvWith, Swapped, Grows;
    if draws == [] {
      GrowsSelf(s);
    } else {
      var n := |draws| - 1;
      ShuffledKeeps(cfg, s, draws[..n]);
      var t := Shuffled(s, draws[..n]);
      var u := Swapped(t, n, n + draws[n]);
      SwapShuffles(cfg, t, n, n + draws[n]);
      GrowsOn(s, t, u);
      assert u == Shuffled(s, draws);
    }
  }

  lemma {:induction false} SwapShuffles(cfg: Config, s: State, i: nat, j: nat)
    requires Inv(cfg, s) && i < |s.random| && j < |s.random|
    ensures Inv(cfg, Swapped(s, i, j)) && Grows(s, Swapped(s, i, j))
    ensures |Swapped(s, i, j).random| == |s.random| && multiset(Swapped(s, i, j).random) == multiset(s.random)
  {
    hide InvWith;
    SwappedKeeps(cfg, s, i, j, {}, 0);
    GrowsCollisions(cfg, s, Swapped(s, i, j));
    SwapIsPermutation(s.random, i, j);
  }

  lemma {:induction false} SwapIsPermutation(r: seq<int>, i: nat, j: nat)
    requires i < |r| && j < |r|
    ensures multiset(r[i := r[j]][j := r[i]]) == multiset(r)
  {
  }

  // ---- whole runs ----

  datatype Op =
    | AddOp(addr: Address, source: int, penalty: int, now: int, lucky: bool)
    | GoodOp(a: Service, test: bool, time: int)
    | AttemptOp(a: Service, countFailure: bool, time: int)
    | ConnectedOp(a: Service, time: int)
    | SetServicesOp(a: Service, services: set<nat>)
    | GetAddrOp(draws: seq<nat>)
    | ResolveOp(order: seq<int>, now: int)
    | SelectCollisionOp(pick: int)

  function Apply(cfg: Config, s: State, op: Op): State {
    match op
    case AddOp(a, source, penalty, now, lucky) => Add(cfg, s, a, source, penalty, now, lucky).0
    case GoodOp(a, test, time) => Good(cfg, s, a, test, time)
    case AttemptOp(a, countFailure, time) => Attempt(cfg, s, a, countFailure, time)
    case ConnectedOp(a, time) => Connected(cfg, s, a, time)
    case SetServicesOp(a, services) => SetServices(cfg, s, a, services)
    case GetAddrOp(draws) => Shuffled(s, draws)
    case ResolveOp(order, now) => Resolved(cfg, s, order, now)
    case SelectCollisionOp(pick) => SelectCollision(cfg, s, pick).0
  }

  /** Times are positive, and random draws are within what is left to draw from. */
  predicate Allowed(s: State, op: Op) {
    match op
    case GoodOp(_, _, time) => time > 0
    case AttemptOp(_, _, time) => time >= 0
    case ConnectedOp(_, time) => time >= 0
    case ResolveOp(_, now) => now > 0
    case GetAddrOp(draws) => |draws| <= |s.random| && forall n | 0 <= n < |draws| :: n + draws[n] < |s.random|
    case _ => true
  }

  /** The record that the code makes up for an id it does not know. */
  const BLANK := Info(Service(0, 0), 100000000, {}, 0, 0, 0, 0, 0, 0, false, -1)

  /** The tried entry that a pending collision would evict; a collision whose entry is gone is dropped. An empty
      position reads as id -1, and looking an unknown id up inserts a blank entry under it. */
  function SelectCollision(cfg: Config, s: State, pick: int): (State, Option<Info>) {
    if pick !in s.collisions then (s, None)
    else if pick !in s.info then (s.(collisions := s.collisions - {pick}), None)
    else
      var sl := cfg.TriedSlot(s.info[pick].addr);
      var old_ := if sl in s.tried then s.tried[sl] else -1;
      if old_ in s.info then (s, Some(s.info[old_])) else (s.(info := s.info[old_ := BLANK]), Some(BLANK))
  }

  /** A selected collision is an entry actually in tried, at the position the new one wants. */
  lemma {:induction false} SelectedIsTried(cfg: Config, s: State, pick: int)
    requires Inv(cfg, s)
    ensures var r := SelectCollision(cfg, s, pick).1;
            && (r.Some? <==> pick in s.collisions && pick in s.info)
            && SelectCollision(cfg, s, pick).0.info == s.info
            && (r.Some? ==>
                  var sl := cfg.TriedSlot(s.info[pick].addr);
                  && r.value.inTried && cfg.TriedSlot(r.value.addr) == sl
                  && sl in s.tried && s.tried[sl] in s.info && r.value == s.info[s.tried[sl]])
  {
    hide AddrOk, RandomOk, NewOk, RefsOk, CountOk, LooseOk, IdsOk, TimesOk;
    if pick in s.collisions && pick in s.info {
      var id := s.tried[cfg.TriedSlot(s.info[pick].addr)];
      assert id in s.info;
    }
  }

  const EMPTY := State(0, map[], map[], [], 0, 0, map[], map[], 1, {})

  lemma {:induction false} EmptyInv(cfg: Config)
    ensures Inv(cfg, EMPTY)
  {
    assert Untried(EMPTY.info) == {} && TriedIds(EMPTY.info) == {};
  }

  lemma {:induction false} ApplyKeeps(cfg: Config, s: State, op: Op)
    requires cfg.Wf() && Inv(cfg, s) && Allowed(s, op)
    ensures Inv(cfg, Apply(cfg, s, op)) && Grows(s, Apply(cfg, s, op))
  {
    hide Inv, Grows, Good, Add, Resolved, Shuffled, Attempt, Connected, SetServices;
    match op
    case AddOp(a, source, penalty, now, lucky) => AddKeeps(cfg, s, a, source, penalty, now, lucky);
    case GoodOp(a, test, time) => GoodKeeps(cfg, s, a, test, time);
    case AttemptOp(a, countFailure, time) => StatisticsKeep(cfg, s, a, countFailure, time, {});
    case ConnectedOp(a, time) => StatisticsKeep(cfg, s, a, false, time, {});
    case SetServicesOp(a, services) => StatisticsKeep(cfg, s, a, false, 0, services);
    case GetAddrOp(draws) => ShuffledKeeps(cfg, s, draws);
    case ResolveOp(order, now) => ResolvedKeeps(cfg, s, order, now);
    case SelectCollisionOp(pick) =>
      GrowsSelf(s);
      SelectedIsTried(cfg, s, pick);
      FewerCollisions(cfg, s, s.collisions - {pick});
  }

  function Run(cfg: Config, s: State, ops: seq<Op>): State {
    if ops == [] then s else Apply(cfg, Run(cfg, s, ops[..|ops| - 1]), ops[|ops| - 1])
  }

  predicate AllowedRun(cfg: Config, s: State, ops: seq<Op>) {
    ops == [] || (AllowedRun(cfg, s, ops[..|ops| - 1]) && Allowed(Run(cfg, s, ops[..|ops| - 1]), ops[|ops| - 1]))
  }

  /** Every run keeps the invariant; no id is used twice and no occupied tried position ever becomes empty. */
  lemma {:induction false} RunKeeps(cfg: Config, s: State, ops: seq<Op>)
    requires cfg.Wf() && Inv(cfg, s) && AllowedRun(cfg, s, ops)
    ensures Inv(cfg, Run(cfg, s, ops)) && Grows(s, Run(cfg, s, ops))
  {
    hide Inv, Grows, Apply, Allowed;
    if ops == [] {
      GrowsSelf(s);
    } else {
      var n := |ops| - 1;
      RunKeeps(cfg, s, ops[..n]);
      var t := Run(cfg, s, ops[..n]);
      ApplyKeeps(cfg, t, ops[n]);
      GrowsOn(s, t, Apply(cfg, t, ops[n]));
    }
  }

  // ---- the manager's own consistency check ----

  /** The check looks an entry up by its full service; a missing one reads as id 0. */
  ghost function LookedUp(s: State, a: Service): int { if a in s.ids then s.ids[a] else 0 }

  ghost predicate EntryPasses(s: State, id: int)
    requires id in s.info
  {
    var i := s.info[id];
    && (if i.inTried then i.lastSuccess != 0 && i.refCount == 0 else 0 < i.refCount <= NEW_BUCKETS_PER_ADDRESS)
    && LookedUp(s, i.addr) == id
    && 0 <= i.randomPos < |s.random| && s.random[i.randomPos] == id
    && i.lastTry >= 0 && i.lastSuccess >= 0
  }

  ghost predicate TablesPass(cfg: Config, s: State) {
    && (forall sl | sl in s.tried :: s.tried[sl] in TriedIds(s.info) && cfg.TriedSlot(s.info[s.tried[sl]].addr) == sl)
    && (forall sl, sl' | sl in s.tried && sl' in s.tried && s.tried[sl] == s.tried[sl'] :: sl == sl')
    && (forall id | id in TriedIds(s.info) :: exists sl :: sl in s.tried && s.tried[sl] == id)
    && (forall sl | sl in s.news ::
          s.news[sl] in Untried(s.info) && sl.pos == cfg.positionOf(s.info[s.news[sl]].addr, true, sl.bucket))
    && (forall id | id in Untried(s.info) :: |Held(s.news, id)| == s.info[id].refCount)
  }

  ghost predicate CheckPasses(cfg: Config, s: State) {
    && |s.random| == s.nTried + s.nNew
    && (forall id | id in s.info :: EntryPasses(s, id))
    && |TriedIds(s.info)| == s.nTried && |Untried(s.info)| == s.nNew
    && TablesPass(cfg, s)
  }

  /** In every reachable state the check passes, except that it ignores port normalisation when it looks entries up. */
  lemma {:induction false} CheckExact(cfg: Config, s: State)
    requires Inv(cfg, s)
    ensures CheckPasses(cfg, s)
       <==> cfg.discriminatePorts || forall id | id in s.info :: id == 0 || s.info[id].addr.port == 0
  {
    hide Held, TablesPass, CollisionsOk;
    RandomSize(cfg, s);
    TablesDoPass(cfg, s);
    assert CountOk(s.info, s.nTried, s.nNew, 0);
    forall id | id in s.info
      ensures EntryPasses(s, id) <==> cfg.discriminatePorts || id == 0 || s.info[id].addr.port == 0
    {
      LookupFull(cfg, s, id);
    }
  }

  lemma {:induction false} LookupFull(cfg: Config, s: State, id: int)
    requires AddrOk(cfg, s.info, s.ids) && id in s.info
    ensures LookedUp(s, s.info[id].addr) == id <==> cfg.discriminatePorts || id == 0 || s.info[id].addr.port == 0
  {
    var a := s.info[id].addr;
    if a in s.ids {
      var j := s.ids[a];
      assert j in s.info && cfg.Norm(s.info[j].addr) == a;
    }
  }

  /** The check's lookup inserts the service it misses, with id 0. */
  function AfterLookup(s: State, a: Service): State { s.(ids := s.ids[a := if a in s.ids then s.ids[a] else 0]) }

  /** So where ports do not count, the lookup that fails the check also spoils the index. */
  lemma {:induction false} LookupSpoils(cfg: Config, s: State, id: int)
    requires Inv(cfg, s) && id in s.info
    ensures Inv(cfg, AfterLookup(s, s.info[id].addr)) <==> cfg.discriminatePorts || s.info[id].addr.port == 0
    ensures cfg.discriminatePorts || s.info[id].addr.port == 0 ==> AfterLookup(s, s.info[id].addr) == s
  {
    hide RandomOk, TriedOk, NewOk, RefsOk, CountOk, LooseOk, IdsOk, TimesOk, CollisionsOk;
    var a, t := s.info[id].addr, AfterLookup(s, s.info[id].addr);
    if cfg.Norm(a) == a {
      assert s.ids[a] == id;
      assert t.ids == s.ids;
    } else {
      assert a in t.ids;
    }
  }

  lemma {:induction false} TablesDoPass(cfg: Config, s: State)
    requires Inv(cfg, s)
    ensures TablesPass(cfg, s)
  {
    hide AddrOk, RandomOk, CountOk, IdsOk, TimesOk, Held, CollisionsOk;
    forall sl | sl in s.tried ensures s.tried[sl] in TriedIds(s.info) && cfg.TriedSlot(s.info[s.tried[sl]].addr) == sl {
      var id := s.tried[sl];
      assert id in s.info;
    }
    forall sl | sl in s.news
      ensures s.news[sl] in Untried(s.info) && sl.pos == cfg.positionOf(s.info[s.news[sl]].addr, true, sl.bucket)
    {
      var id := s.news[sl];
      assert id in s.info;
    }
  }

  lemma {:induction false} RandomSize(cfg: Config, s: State)
    requires Inv(cfg, s)
    ensures |s.random| == s.nTried + s.nNew
  {
    hide AddrOk, TriedOk, NewOk, RefsOk, LooseOk, IdsOk, TimesOk, CollisionsOk;
    forall i, j | 0 <= i < j < |s.random| ensures s.random[i] != s.random[j] {
      assert s.info[s.random[i]].randomPos == i && s.info[s.random[j]].randomPos == j;
    }
    DistinctSize(s.random);
    var all := set id | id in s.random;
    assert all == Untried(s.info) + TriedIds(s.info) by {
      forall id | id in s.info ensures id in s.random { assert s.random[s.info[id].randomPos] == id; }
    }
    assert Untried(s.info) !! TriedIds(s.info);
  }

  lemma {:induction false} DistinctSize(r: seq<int>)
    requires forall i, j | 0 <= i < j < |r| :: r[i] != r[j]
    ensures |set x | x in r| == |r|
  {
    if r == [] {
      assert (set x | x in r) == {};
    } else {
      var m, x := r[..|r| - 1], r[|r| - 1];
      DistinctSize(m);
      assert (set y | y in r) == (set y | y in m) + {x};
    }
  }

  // ---- clearing ----

  /** Clearing resets everything but the pending collisions. */
  function Cleared(s: State): State { EMPTY.(collisions := s.collisions) }

  /** So it leaves a consistent manager exactly when no collision was pending. */
  lemma {:induction false} ClearedIff(cfg: Config, s: State)
    ensures Inv(cfg, Cleared(s)) <==> s.collisions == {}
  {
    EmptyInv(cfg);
    if s.collisions != {} {
      var id := Member(s.collisions);
      assert id in Cleared(s).collisions;
    }
  }

  lemma {:induction false} Member<T>(ids: set<T>) returns (id: T)
    requires ids != {}
    ensures id in ids
  {
    id :| id in ids;
  }
}
