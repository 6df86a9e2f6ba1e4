/** What each operation of the address manager does to the entries and the tables, said of the entries themselves.
    With the invariant, the two tables and the records determine a state up to the random order: an entry exists exactly
    if it has a position, and its reference count is the number of its new ones. */
module AddrPolicy {
  import opened Wrappers
  import opened AddrTables
  import opened AddrOps

  /** No entry has exactly this service. */
  ghost predicate Unknown(s: State, a: Service) { forall id | id in s.info :: s.info[id].addr != a }

  lemma {:induction false} FindsNone(cfg: Config, s: State, a: Service)
    requires Unknown(s, a)
    ensures FindExact(cfg, s, a).None?
  {
  }

  // ---- a successful connection ----

  /** The success is noted, and the failures are forgotten. */
  function Noted(s: State, id: int, time: int): State
    requires id in s.info
  {
    s.(lastGood := time,
       info := s.info[id := s.info[id].(lastSuccess := time, lastTry := time, attempts := 0)])
  }

  lemma {:induction false} GoodUnknown(cfg: Config, s: State, a: Service, test: bool, time: int)
    requires Unknown(s, a)
    ensures Good(cfg, s, a, test, time) == s.(lastGood := time)
  {
    FindsNone(cfg, s.(lastGood := time), a);
  }

  /** An entry outside tried moves to tried, unless that would evict and must be tested first: then it is only recorded
      as a pending collision, of which there are ten at most. */
  lemma {:induction false} GoodMoves(cfg: Config, s: State, id: int, test: bool, time: int)
    requires cfg.Wf() && Inv(cfg, s) && time > 0 && id in s.info
    ensures var i := s.info[id];
            var t, n := Good(cfg, s, i.addr, test, time), Noted(s, id, time);
            if i.inTried then t == n
            else if test && cfg.TriedSlot(i.addr) in s.tried
            then t == n.(collisions := if |s.collisions| < 10 then s.collisions + {id} else s.collisions)
            else MovedToTried(cfg, n, t, id)
  {
    hide AddrOk, RandomOk, TriedOk, NewOk, RefsOk, CountOk, LooseOk, IdsOk, TimesOk, MadeTried, Held, HoldsSome;
    FindOwn(cfg, s, id);
    var s0 := s.(lastGood := time);
    var i := s.info[id].(lastSuccess := time, lastTry := time, attempts := 0);
    PutKeeps(cfg, s0, id, i, {}, 0);
    if !i.inTried {
      AlwaysHeld(cfg, Put(s0, id, i), id);
      MadeTriedKeeps(cfg, Put(s0, id, i), id);
    }
  }

  // ---- pending collisions ----

  /** The entry now has its tried position, as if it had just been connected to. */
  ghost predicate Replaces(cfg: Config, s: State, t: State, id: int, now: int)
    requires id in s.info
  {
    && t.tried == s.tried[cfg.TriedSlot(s.info[id].addr) := id]
    && t.collisions == s.collisions - {id}
    && (s.info[id].inTried ==> t == Noted(s, id, now).(collisions := t.collisions))
    && (!s.info[id].inTried ==> MovedToTried(cfg, Noted(s, id, now), t.(collisions := s.collisions), id))
  }

  /** The policy for one pending collision. An unknown or invalid entry is dropped. Otherwise the entry that has the
      tried position decides: if connected to in the last four hours it stays for good; if an attempt in the last four
      hours failed and a minute has passed, it is replaced; if there was no attempt, it is replaced once forty minutes
      have passed since the new entry's success. Until then nothing happens. */
  ghost predicate Settled(cfg: Config, s: State, t: State, id: int, now: int) {
    if id !in s.info || !cfg.isValid(s.info[id].addr) then t == s.(collisions := s.collisions - {id})
    else
      var sl := cfg.TriedSlot(s.info[id].addr);
      && sl in s.tried && s.tried[sl] in s.info
      && var holder := s.info[s.tried[sl]];
         var success, attempt := now - holder.lastSuccess, now - holder.lastTry;
         && (success < 14400 ==> t == s.(collisions := s.collisions - {id}))
         && (success >= 14400 && 60 < attempt < 14400 ==> Replaces(cfg, s, t, id, now))
         && (success >= 14400 && attempt <= 60 ==> t == s)
         && (success >= 14400 && attempt >= 14400 && now - s.info[id].lastSuccess > 2400 ==>
               Replaces(cfg, s, t, id, now))
         && (success >= 14400 && attempt >= 14400 && now - s.info[id].lastSuccess <= 2400 ==> t == s)
  }

  lemma {:induction false} ResolvedOneSettles(cfg: Config, s: State, id: int, now: int)
    requires cfg.Wf() && Inv(cfg, s) && now > 0 && id in s.collisions
    ensures Settled(cfg, s, ResolvedOne(cfg, s, id, now), id, now)
  {
    hide AddrOk, RandomOk, NewOk, RefsOk, CountOk, LooseOk, IdsOk, TimesOk, Good, Held, MovedToTried;
    if id in s.info {
      GoodMoves(cfg, s, id, false, now);
      var sl := cfg.TriedSlot(s.info[id].addr);
      HolderKnown(cfg, s, sl);
      var t := Good(cfg, s, s.info[id].addr, false, now);
      if !s.info[id].inTried {
        MovedTables(cfg, Noted(s, id, now), t, id);
        assert t.(collisions := t.collisions - {id}).(collisions := s.collisions) == t;
      } else {
        assert s.tried[sl] == id;
      }
    }
  }

  lemma {:induction false} HolderKnown(cfg: Config, s: State, sl: Slot)
    requires Inv(cfg, s) && sl in s.tried
    ensures s.tried[sl] in s.info
    ensures forall id | id in s.info && s.info[id].inTried && cfg.TriedSlot(s.info[id].addr) == sl :: s.tried[sl] == id
  {
  }

  lemma {:induction false} MovedTables(cfg: Config, s: State, t: State, id: int)
    requires id in s.info && MovedToTried(cfg, s, t, id)
    ensures t.tried == s.tried[cfg.TriedSlot(s.info[id].addr) := id] && t.collisions == s.collisions
  {
  }

  /** A settled collision leaves the others pending. */
  lemma {:induction false} OthersPending(cfg: Config, s: State, t: State, id: int, now: int)
    requires Settled(cfg, s, t, id, now)
    ensures forall x | x in s.collisions && x != id :: x in t.collisions
  {
  }

  // ---- announcements ----

  /** An entry of low quality: unless tried in the last minute, it is dated more than ten minutes ahead, not seen for
      thirty days, never reached in three attempts, or not in a week and in ten attempts. */
  lemma {:induction false} TerribleIff(i: Info, now: int)
    ensures i.lastTry != 0 && now - i.lastTry <= 60 ==> !IsTerrible(i, now)
    ensures i.lastTry == 0 || now - i.lastTry > 60 ==>
              (IsTerrible(i, now) <==>
                 || i.time - now > 600 || i.time == 0 || now - i.time > 2592000
                 || (i.lastSuccess == 0 && i.attempts >= 3) || (now - i.lastSuccess > 604800 && i.attempts >= 10))
  {
  }

  lemma {:induction false} AddUnroutable(cfg: Config, s: State, a: Address, source: int, timePenalty: int, now: int,
      lucky: bool)
    requires !cfg.isRoutable(a.service)
    ensures Add(cfg, s, a, source, timePenalty, now, lucky) == (s, false)
  {
  }

  /** What an announcement of an address leaves alone. */
  ghost predicate OtherRecords(s: State, t: State, id: int) {
    && t.tried == s.tried && t.collisions == s.collisions && t.lastGood == s.lastGood
    && (forall x | x in t.info && x != id :: x in s.info && SameRecord(t.info[x], s.info[x]))
  }

  /** Whether the new position that `source` gives an address can be had by an entry that holds none. */
  predicate CanBeHad(cfg: Config, s: State, a: Service, source: int, now: int) {
    var sl := cfg.NewSlot(a, cfg.newBucketOf(a, source));
    sl in s.news && s.news[sl] in s.info ==>
      IsTerrible(s.info[s.news[sl]], now) || s.info[s.news[sl]].refCount > 1
  }

  /** An entry without a position gets its own exactly when it can be had, and is dropped otherwise. */
  lemma {:induction false} PlacedLoose(cfg: Config, s: State, id: int, source: int, now: int)
    requires cfg.Wf() && InvWith(cfg, s, {id}, 0) && id in s.info
    ensures var t := PlacedNew(cfg, s, id, source, now);
            var sl := cfg.NewSlot(s.info[id].addr, cfg.newBucketOf(s.info[id].addr, source));
            && OtherRecords(s, t, id) && t.idCount == s.idCount
            && (CanBeHad(cfg, s, s.info[id].addr, source, now) ==>
                  && id in t.info && SameRecord(t.info[id], s.info[id]) && t.info[id].refCount == 1
                  && t.news == s.news[sl := id])
            && (!CanBeHad(cfg, s, s.info[id].addr, source, now) ==> id !in t.info && t.news == s.news)
  {
    hide AddrOk, RandomOk, TriedOk, NewOk, RefsOk, CountOk, IdsOk, TimesOk, ClearedNew, Deleted, IsTerrible;
    var sl := cfg.NewSlot(s.info[id].addr, cfg.newBucketOf(s.info[id].addr, source));
    LooseFacts(cfg, s, id, {id}, 0);
    if sl in s.news { ReleasedKeeps(cfg, s, sl, {id}, 0); }
    if CanBeHad(cfg, s, s.info[id].addr, source, now) {
      ClearedNewKeeps(cfg, s, sl, {id}, 0);
    } else {
      DeletedKeeps(cfg, s, id, {id}, 0);
    }
  }

  /** The time penalty is for hearsay only. */
  function Penalty(a: Address, source: int, timePenalty: int): int {
    if a.service.host == source then 0 else timePenalty
  }

  /** An unknown address is known afterwards exactly when its position could be had; then it is there, once, with what
      was announced and no history. */
  lemma {:induction false} AddUnknown(cfg: Config, s: State, a: Address, source: int, timePenalty: int, now: int,
      lucky: bool)
    requires cfg.Wf() && Inv(cfg, s) && cfg.isRoutable(a.service) && Find(cfg, s, a.service).None?
    ensures var (t, isNew), id := Add(cfg, s, a, source, timePenalty, now, lucky), s.idCount;
            var sl := cfg.NewSlot(a.service, cfg.newBucketOf(a.service, source));
            var seen := a.time - Penalty(a, source, timePenalty);
            && isNew && OtherRecords(s, t, id) && t.idCount == id + 1
            && (id in t.info <==> CanBeHad(cfg, s, a.service, source, now))
            && t.news == (if id in t.info then s.news[sl := id] else s.news)
            && (id in t.info ==>
                  SameRecord(t.info[id], Info(a.service, if seen < 0 then 0 else seen % 0x1_0000_0000, a.services,
                                              source, 0, 0, 0, 0, 1, false, 0)))
            && (id !in t.info ==> Find(cfg, t, a.service).None?)
  {
    hide InvWith, PlacedNew, IsTerrible, CollisionsOk;
    AddKeeps(cfg, s, a, source, timePenalty, now, lucky);
    var penalty := Penalty(a, source, timePenalty);
    var id := s.idCount;
    NotFound(cfg, s, a.service);
    FreshId(cfg, s);
    CreatedKeeps(cfg, s, a, source, {}, 0);
    assert {} + {id} == {id};
    var c := Created(cfg, s, a, source);
    var i := c.info[id].(time := Time32(Max(0, c.info[id].time - penalty)));
    PutKeeps(cfg, c, id, i, {id}, 1);
    var u := Put(c, id, i);
    OneMoreCounted(cfg, u, {id}, 1);
    var v := u.(nNew := u.nNew + 1);
    PlacedLoose(cfg, v, id, source, now);
    var t := PlacedNew(cfg, v, id, source, now);
    assert t == Add(cfg, s, a, source, timePenalty, now, lucky).0;
    if id !in t.info {
      forall x | x in t.info ensures x in s.info && t.info[x].addr == s.info[x].addr {
        assert x in v.info && SameRecord(t.info[x], v.info[x]);
      }
      StillUnknown(cfg, s, t, a.service);
    }
  }

  /** When a known address was last seen, after an announcement: updated if that is news by an hour, or by a day when
      the announcement itself is a day old. */
  function Seen(time: nat, a: Address, penalty: int, now: int): nat {
    var margin := penalty + if now - a.time < 86400 then 3600 else 86400;
    if a.time == 0 || (time != 0 && time >= a.time - margin) then time
    else if a.time < penalty then 0 else (a.time - penalty) % 0x1_0000_0000
  }

  /** A known address is not entered again. It gets the services and the time, and one more new position if the
      announcement is news, the entry is in new with fewer than eight, it is lucky, and the position that `source` gives
      it is free or held by a terrible entry. */
  lemma {:induction false} AddKnown(cfg: Config, s: State, id: int, a: Address, source: int, timePenalty: int, now: int,
      lucky: bool)
    requires cfg.Wf() && Inv(cfg, s) && cfg.isRoutable(a.service)
    requires id in s.info && cfg.Norm(s.info[id].addr) == cfg.Norm(a.service)
    ensures var (t, isNew), i := Add(cfg, s, a, source, timePenalty, now, lucky), s.info[id];
            var sl := cfg.NewSlot(i.addr, cfg.newBucketOf(i.addr, source));
            var seen := Seen(i.time, a, Penalty(a, source, timePenalty), now);
            && !isNew && OtherRecords(s, t, id) && t.idCount == s.idCount
            && id in t.info && SameRecord(t.info[id], i.(time := seen, services := i.services + a.services))
            && t.news == if && a.time != 0 && (seen == 0 || a.time > seen) && !i.inTried && i.refCount < 8 && lucky
                            && (sl in s.news && s.news[sl] in s.info ==> IsTerrible(s.info[s.news[sl]], now))
                         then s.news[sl := id] else s.news
  {
    hide AddrOk, RandomOk, TriedOk, NewOk, RefsOk, CountOk, IdsOk, TimesOk, PlacedNew, IsTerrible;
    FindIff(cfg, s, a.service);
    var penalty := Penalty(a, source, timePenalty);
    var i := Refreshed(s.info[id], a, penalty, now);
    var t := Put(s, id, i);
    TimesOf(cfg, s, id);
    PutKeeps(cfg, s, id, i, {}, 0);
    if !i.inTried && i.refCount < 8 {
      PlacedHeld(cfg, t, id, source, now);
    }
  }

  lemma {:induction false} TimesOf(cfg: Config, s: State, id: int)
    requires InvWith(cfg, s, {}, 0) && id in s.info
    ensures s.info[id].lastTry >= 0 && s.info[id].lastSuccess >= 0
    ensures s.info[id].inTried ==> s.info[id].lastSuccess > 0
  {
  }

  /** An entry that holds positions gets another one exactly when that is free or held by a terrible entry. */
  lemma {:induction false} PlacedHeld(cfg: Config, s: State, id: int, source: int, now: int)
    requires cfg.Wf() && InvWith(cfg, s, {}, 0) && id in s.info && !s.info[id].inTried
    ensures var t := PlacedNew(cfg, s, id, source, now);
            var sl := cfg.NewSlot(s.info[id].addr, cfg.newBucketOf(s.info[id].addr, source));
            && OtherRecords(s, t, id) && t.idCount == s.idCount && id in t.info && SameRecord(t.info[id], s.info[id])
            && t.news == if sl in s.news && s.news[sl] != id && s.news[sl] in s.info
                            && !IsTerrible(s.info[s.news[sl]], now)
                         then s.news else s.news[sl := id]
  {
    hide AddrOk, RandomOk, TriedOk, NewOk, RefsOk, CountOk, IdsOk, TimesOk, ClearedNew, Deleted, IsTerrible;
    var sl := cfg.NewSlot(s.info[id].addr, cfg.newBucketOf(s.info[id].addr, source));
    if sl in s.news { ReleasedKeeps(cfg, s, sl, {}, 0); }
    ClearedNewKeeps(cfg, s, sl, {}, 0);
    if sl in s.news && s.news[sl] == id { assert s.news[sl := id] == s.news; }
  }

  // ---- statistics ----

  /** Only the record of one entry changes. */
  ghost predicate OnlyRecord(s: State, t: State, id: int)
    requires id in s.info
  {
    t == s.(info := t.info) && id in t.info && t.info == s.info[id := t.info[id]]
  }

  lemma {:induction false} StatisticsUnknown(cfg: Config, s: State, a: Service, flag: bool, time: int,
      services: set<nat>)
    requires Unknown(s, a)
    ensures Attempt(cfg, s, a, flag, time) == Connected(cfg, s, a, time) == SetServices(cfg, s, a, services) == s
  {
    FindsNone(cfg, s, a);
  }

  /** An attempt is dated, and counted as a failure at most once between two successful connections of the node. */
  lemma {:induction false} AttemptCounts(cfg: Config, s: State, id: int, countFailure: bool, time: int)
    requires Inv(cfg, s) && id in s.info
    ensures var t, i := Attempt(cfg, s, s.info[id].addr, countFailure, time), s.info[id];
            && OnlyRecord(s, t, id)
            && (if countFailure && i.lastCountAttempt < s.lastGood
                then t.info[id] == i.(lastTry := time, lastCountAttempt := time, attempts := i.attempts + 1)
                else t.info[id] == i.(lastTry := time))
    ensures time >= s.lastGood ==>
              forall again, later ::
                var t := Attempt(cfg, s, s.info[id].addr, true, time);
                Attempt(cfg, t, s.info[id].addr, again, later).info[id].attempts == t.info[id].attempts
  {
    hide AddrOk, RandomOk, TriedOk, NewOk, RefsOk, CountOk, LooseOk, IdsOk, TimesOk;
    FindOwn(cfg, s, id);
  }

  /** A connection dates the address anew when the date is twenty minutes old. */
  lemma {:induction false} ConnectedDates(cfg: Config, s: State, id: int, time: int)
    requires Inv(cfg, s) && id in s.info
    ensures var t, i := Connected(cfg, s, s.info[id].addr, time), s.info[id];
            && OnlyRecord(s, t, id)
            && t.info[id] == i.(time := if time > i.time + 1200 then time % 0x1_0000_0000 else i.time)
  {
    hide AddrOk, RandomOk, TriedOk, NewOk, RefsOk, CountOk, LooseOk, IdsOk, TimesOk;
    FindOwn(cfg, s, id);
    assert s.info[id := s.info[id]] == s.info;
  }

  lemma {:induction false} ServicesSet(cfg: Config, s: State, id: int, services: set<nat>)
    requires Inv(cfg, s) && id in s.info
    ensures var t := SetServices(cfg, s, s.info[id].addr, services);
            OnlyRecord(s, t, id) && t.info[id] == s.info[id].(services := services)
  {
    hide AddrOk, RandomOk, TriedOk, NewOk, RefsOk, CountOk, LooseOk, IdsOk, TimesOk;
    FindOwn(cfg, s, id);
  }
}
