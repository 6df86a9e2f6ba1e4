/** Runs after which the manager fails its check, is not restored by its file, or is not cleared by clearing. */
module AddrExamples {
  import opened Wrappers
  import opened AddrTables
  import opened AddrOps
  import opened AddrStore

  /** The sizes of the node, on a network where ports do not count, with addresses that share a tried position. */
  const CFG := Config(1024, 256, 64, false, (_: Service) => 0, (a: Service, _: int) => if a.host == 1 then 1 else 0,
                      (_: Service, _: bool, _: nat) => 0, (_: Service) => true, (_: Service) => true)

  const ONE := Service(1, 9999)
  const TWO := Service(2, 9999)

  function InfoFor(a: Service, refs: int, pos: int): Info { Info(a, 100, {}, 5, 0, 0, 0, 0, refs, false, pos) }

  const FIRST := State(1, map[0 := InfoFor(ONE, 1, 0)], map[Service(1, 0) := 0], [0], 0, 1, map[],
                       map[Slot(1, 0) := 0], 1, {})

  lemma {:induction false} FirstAdded()
    ensures Add(CFG, EMPTY, Address(ONE, 100, {}), 5, 0, 200, false).0 == FIRST
  {
    var a := Address(ONE, 100, {});
    assert Find(CFG, EMPTY, ONE).None?;
    var t := Created(CFG, EMPTY, a, 5);
    assert t == State(1, map[0 := InfoFor(ONE, 0, 0)], map[Service(1, 0) := 0], [0], 0, 0, map[], map[], 1, {});
  }

  const SECOND := State(2, map[0 := InfoFor(ONE, 1, 0), 1 := InfoFor(TWO, 1, 1)],
                        map[Service(1, 0) := 0, Service(2, 0) := 1], [0, 1], 0, 2, map[],
                        map[Slot(1, 0) := 0, Slot(0, 0) := 1], 1, {})

  lemma {:induction false} SecondAdded()
    ensures Add(CFG, FIRST, Address(TWO, 100, {}), 5, 0, 200, false).0 == SECOND
  {
    assert Find(CFG, FIRST, TWO).None?;
    var t := Created(CFG, FIRST, Address(TWO, 100, {}), 5);
    assert t.info == map[0 := InfoFor(ONE, 1, 0), 1 := InfoFor(TWO, 0, 1)];
    assert t.ids == map[Service(1, 0) := 0, Service(2, 0) := 1] && t.random == [0, 1];
  }

  const ADDS := [AddOp(Address(ONE, 100, {}), 5, 0, 200, false), AddOp(Address(TWO, 100, {}), 5, 0, 200, false)]

  lemma {:induction false} RunAppend(cfg: Config, ops: seq<Op>, op: Op)
    requires AllowedRun(cfg, EMPTY, ops) && Allowed(Run(cfg, EMPTY, ops), op)
    ensures AllowedRun(cfg, EMPTY, ops + [op])
    ensures Run(cfg, EMPTY, ops + [op]) == Apply(cfg, Run(cfg, EMPTY, ops), op)
  {
    hide Apply, Allowed;
    assert (ops + [op])[..|ops|] == ops;
  }

  lemma {:induction false} Added()
    ensures CFG.Wf() && AllowedRun(CFG, EMPTY, ADDS) && Run(CFG, EMPTY, ADDS) == SECOND
  {
    hide Add;
    FirstAdded();
    SecondAdded();
    RunAppend(CFG, [], ADDS[0]);
    RunAppend(CFG, [ADDS[0]], ADDS[1]);
    assert [] + [ADDS[0]] == [ADDS[0]] && [ADDS[0]] + [ADDS[1]] == ADDS;
  }

  /** Two announced addresses are enough for the manager's own check to report an error. */
  lemma {:induction false} CheckFails()
    ensures AllowedRun(CFG, EMPTY, ADDS) && !CheckPasses(CFG, Run(CFG, EMPTY, ADDS))
  {
    hide Inv, CheckPasses;
    Added();
    EmptyInv(CFG);
    RunKeeps(CFG, EMPTY, ADDS);
    CheckExact(CFG, SECOND);
    assert 1 in SECOND.info && SECOND.info[1].addr.port == 9999;
  }

  const FILE := Saved([EntryOf(InfoFor(ONE, 1, 0)), EntryOf(InfoFor(TWO, 1, 1))], [],
                      seq(1024, b => if b == 0 then [1] else if b == 1 then [0] else []), 0)

  lemma {:induction false} FileIsSaved()
    ensures SavedFrom(CFG, SECOND, FILE, [0, 1], [])
  {
    assert Enumerates([0, 1], Untried(SECOND.info)) && Enumerates([], TriedIds(SECOND.info));
  }

  /** The file written after that run does not restore a consistent manager, in whatever order entries are pruned. */
  lemma {:induction false} ReloadFails(order: seq<int>)
    ensures AllowedRun(CFG, EMPTY, ADDS) && SavedFrom(CFG, Run(CFG, EMPTY, ADDS), FILE, [0, 1], [])
    ensures !Inv(CFG, Pruned(CFG, Filled(CFG, EMPTY, FILE, true), order))
  {
    hide Inv, Pruned, Filled, SavedFrom;
    Added();
    FileIsSaved();
    EmptyInv(CFG);
    RunKeeps(CFG, EMPTY, ADDS);
    RoundTrip(CFG, SECOND, FILE, [0, 1], [], order);
    assert SECOND.info[1].addr.port == 9999;
  }

  // ---- clearing ----

  const TRIED := State(2, map[0 := InfoFor(ONE, 1, 0), 1 := Info(TWO, 100, {}, 5, 300, 0, 300, 0, 0, true, 1)],
                       map[Service(1, 0) := 0, Service(2, 0) := 1], [0, 1], 1, 1, map[Slot(0, 0) := 1],
                       map[Slot(1, 0) := 0], 300, {})

  lemma {:induction false} TwoIsGood()
    ensures Good(CFG, SECOND, TWO, true, 300) == TRIED
  {
    var s := SECOND.(lastGood := 300);
    assert FindExact(CFG, s, TWO) == Some(1);
    var t := Put(s, 1, s.info[1].(lastSuccess := 300, lastTry := 300, attempts := 0));
    assert t.news[Slot(0, 0)] == 1;
    assert HoldsSome(t.news, 1);
    var u := AllReleased(t, 1);
    assert u.news == map[Slot(1, 0) := 0];
  }

  /** The one tried position is taken: the other address is left pending. */
  lemma {:induction false} OneIsPending()
    ensures Good(CFG, TRIED, ONE, true, 400).collisions == {0}
  {
    var s := TRIED.(lastGood := 400);
    assert FindExact(CFG, s, ONE) == Some(0);
    var t := Put(s, 0, s.info[0].(lastSuccess := 400, lastTry := 400, attempts := 0));
    assert t.news[Slot(1, 0)] == 0;
    assert HoldsSome(t.news, 0);
  }

  const PENDING := ADDS + [GoodOp(TWO, true, 300)] + [GoodOp(ONE, true, 400)]

  /**
   * After this run id 0 waits for its tried position. Clearing forgets everything but that, so the manager is not
   * consistent; the next address gets id 0, and selecting the collision then makes up an entry with id -1.
   */
  lemma {:induction false} ClearIsIncomplete(a: Address, source: int, now: int)
    ensures AllowedRun(CFG, EMPTY, PENDING)
    ensures var s := Cleared(Run(CFG, EMPTY, PENDING));
            var t := Add(CFG, s, a, source, 0, now, false).0;
            && !Inv(CFG, s) && 0 in t.info && 0 in t.collisions && CFG.TriedSlot(t.info[0].addr) !in t.tried
            && SelectCollision(CFG, t, 0).0.info == t.info[-1 := BLANK]
  {
    hide Good, Inv;
    Added();
    TwoIsGood();
    OneIsPending();
    RunAppend(CFG, ADDS, GoodOp(TWO, true, 300));
    RunAppend(CFG, ADDS + [GoodOp(TWO, true, 300)], GoodOp(ONE, true, 400));
    var r := Run(CFG, EMPTY, PENDING);
    ClearedIff(CFG, r);
    var s := Cleared(r);
    assert Find(CFG, s, a.service).None?;
    var t := Created(CFG, s, a, source);
    assert t.info.Keys == {0};
  }
}
