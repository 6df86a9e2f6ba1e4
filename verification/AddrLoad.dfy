/** Where the entries of any stored file end up when it is loaded. */
module AddrLoad {
  import opened AddrTables
  import opened AddrOps
  import opened AddrStore

  /** An entry made from a stored one. */
  predicate MadeFrom(i: Info, e: Entry, inTried: bool) {
    && i.addr == e.addr && i.time == e.time && i.services == e.services && i.source == e.source
    && i.lastSuccess == e.lastSuccess && i.attempts == e.attempts && i.lastTry == i.lastCountAttempt == 0
    && i.inTried == inTried
  }

  // ---- tried entries ----

  /** The i-th stored entry is the first that wants this tried position. */
  predicate First(cfg: Config, tried: seq<Entry>, sl: Slot, i: int) {
    && 0 <= i < |tried| && cfg.TriedSlot(tried[i].addr) == sl
    && forall j | 0 <= j < i :: cfg.TriedSlot(tried[j].addr) != sl
  }

  /** The tried table: each position that is wanted belongs to the first entry that wants it. */
  ghost predicate FirstComers(cfg: Config, info: map<int, Info>, table: map<Slot, int>, tried: seq<Entry>) {
    && (forall i | 0 <= i < |tried| :: cfg.TriedSlot(tried[i].addr) in table)
    && (forall sl | sl in table ::
          exists i :: First(cfg, tried, sl, i) && table[sl] in info && MadeFrom(info[table[sl]], tried[i], true))
  }

  lemma {:induction false} AllTriedFirst(cfg: Config, s: State, tried: seq<Entry>)
    requires s.tried == map[] && forall id | id in s.info :: id < s.idCount
    ensures var t := AllTried(cfg, s, tried); FirstComers(cfg, t.info, t.tried, tried)
  {
    if tried != [] {
      hide FirstComers, WithTried;
      var n := |tried| - 1;
      AllTriedFirst(cfg, s, tried[..n]);
      AllTriedIs(cfg, s, tried[..n]);
      var m := AllTried(cfg, s, tried[..n]);
      BelowCount(s, m, tried[..n]);
      FirstComersNext(cfg, m, tried);
    }
  }

  lemma {:induction false} FirstComersNext(cfg: Config, s: State, tried: seq<Entry>)
    requires tried != [] && FirstComers(cfg, s.info, s.tried, tried[..|tried| - 1])
    requires forall id | id in s.info :: id < s.idCount
    ensures var t := WithTried(cfg, s, tried[|tried| - 1]); FirstComers(cfg, t.info, t.tried, tried)
  {
    hide MadeFrom;
    var n := |tried| - 1;
    var t := WithTried(cfg, s, tried[n]);
    forall i | 0 <= i < |tried| ensures cfg.TriedSlot(tried[i].addr) in t.tried {
      if i < n { assert tried[..n][i] == tried[i]; }
    }
    forall sl | sl in t.tried
      ensures exists i ::
                First(cfg, tried, sl, i) && t.tried[sl] in t.info && MadeFrom(t.info[t.tried[sl]], tried[i], true)
    {
      if sl in s.tried {
        var i :| && First(cfg, tried[..n], sl, i) && s.tried[sl] in s.info
                 && MadeFrom(s.info[s.tried[sl]], tried[..n][i], true);
        FirstLonger(cfg, tried, sl, i);
      } else {
        NewcomerFirst(cfg, s, tried);
      }
    }
  }

  lemma {:induction false} NewcomerFirst(cfg: Config, s: State, tried: seq<Entry>)
    requires tried != [] && FirstComers(cfg, s.info, s.tried, tried[..|tried| - 1])
    requires cfg.TriedSlot(tried[|tried| - 1].addr) !in s.tried
    ensures First(cfg, tried, cfg.TriedSlot(tried[|tried| - 1].addr), |tried| - 1)
    ensures MadeFrom(InfoOf(tried[|tried| - 1], true, |s.random|), tried[|tried| - 1], true)
  {
    var n := |tried| - 1;
    forall j | 0 <= j < n ensures cfg.TriedSlot(tried[j].addr) in s.tried { assert tried[..n][j] == tried[j]; }
  }

  lemma {:induction false} FirstLonger(cfg: Config, tried: seq<Entry>, sl: Slot, i: int)
    requires tried != [] && First(cfg, tried[..|tried| - 1], sl, i)
    ensures First(cfg, tried, sl, i) && tried[..|tried| - 1][i] == tried[i]
  {
    forall j | 0 <= j < i ensures cfg.TriedSlot(tried[j].addr) != sl { assert tried[..|tried| - 1][j] == tried[j]; }
  }

  lemma {:induction false} BelowCount(s: State, t: State, tried: seq<Entry>)
    requires TriedLoaded(s, t, tried) && forall id | id in s.info :: id < s.idCount
    ensures forall id | id in t.info :: id < t.idCount
  {
  }

  // ---- new entries ----

  /** Every new position is one the entry is listed for, if lists count, or the one its own source gives it. */
  ghost predicate Placements(cfg: Config, t: State, restore: bool, pairs: seq<(nat, int)>) {
    forall sl | sl in t.news ::
      && t.news[sl] in t.info
      && (sl == Home(cfg, t.info[t.news[sl]]) || (restore && (sl.bucket, t.news[sl]) in pairs))
  }

  /** A listed entry goes without a position only if the one its own source gives it is taken. */
  ghost predicate ListedPlaced(cfg: Config, t: State, pairs: seq<(nat, int)>) {
    && (forall x | x in t.info :: t.info[x].refCount >= 0)
    && (forall p | p in pairs && p.1 in t.info :: t.info[p.1].refCount > 0 || Home(cfg, t.info[p.1]) in t.news)
  }

  lemma {:induction false} AllPlacedWhere(cfg: Config, s: State, restore: bool, pairs: seq<(nat, int)>)
    requires s.news == map[] && forall x | x in s.info :: s.info[x].refCount >= 0
    ensures var t := AllPlaced(cfg, s, restore, pairs);
            Placements(cfg, t, restore, pairs) && ListedPlaced(cfg, t, pairs)
  {
    if pairs != [] {
      hide Placements, ListedPlaced, Placed;
      var n := |pairs| - 1;
      AllPlacedWhere(cfg, s, restore, pairs[..n]);
      PlacedWhere(cfg, AllPlaced(cfg, s, restore, pairs[..n]), restore, pairs);
    }
  }

  lemma {:induction false} PlacedWhere(cfg: Config, s: State, restore: bool, pairs: seq<(nat, int)>)
    requires pairs != []
    requires Placements(cfg, s, restore, pairs[..|pairs| - 1]) && ListedPlaced(cfg, s, pairs[..|pairs| - 1])
    ensures var t := Placed(cfg, s, restore, pairs[|pairs| - 1].0, pairs[|pairs| - 1].1);
            Placements(cfg, t, restore, pairs) && ListedPlaced(cfg, t, pairs)
  {
    hide Placements, ListedPlaced, Placed;
    var n := |pairs| - 1;
    assert pairs == pairs[..n] + [pairs[n]];
    PlacedOwn(cfg, s, restore, pairs[..n], pairs[n]);
    PlacedListed(cfg, s, restore, pairs[..n], pairs[n]);
  }

  lemma {:induction false} PlacedOwn(cfg: Config, s: State, restore: bool, pairs: seq<(nat, int)>, p: (nat, int))
    requires Placements(cfg, s, restore, pairs)
    ensures Placements(cfg, Placed(cfg, s, restore, p.0, p.1), restore, pairs + [p])
  {
  }

  lemma {:induction false} PlacedListed(cfg: Config, s: State, restore: bool, pairs: seq<(nat, int)>, p: (nat, int))
    requires ListedPlaced(cfg, s, pairs)
    ensures ListedPlaced(cfg, Placed(cfg, s, restore, p.0, p.1), pairs + [p])
  {
    var t := Placed(cfg, s, restore, p.0, p.1);
    forall q | q in pairs + [p] && q.1 in t.info ensures t.info[q.1].refCount > 0 || Home(cfg, t.info[q.1]) in t.news {
      if q.1 != p.1 { assert q in pairs; }
    }
  }

  // ---- whole files ----

  /** Whether some bucket of the file lists a new entry. */
  predicate Listed(saved: Saved, x: int) { exists b | 0 <= b < |saved.buckets| :: x in saved.buckets[b] }

  /** Where everything in a file is after loading. Entry x of the new ones has id x; it is there exactly if it holds a
      position, and a listed one does unless the position its own source gives it is taken. Stored buckets count only if
      `restore`. A tried entry is lost exactly if an earlier one wants its position. */
  ghost predicate LoadedFrom(cfg: Config, r: State, saved: Saved, restore: bool) {
    && FirstComers(cfg, r.info, r.tried, saved.tried)
    && (forall x | x in r.info && !r.info[x].inTried ::
          0 <= x < |saved.news| && MadeFrom(r.info[x], saved.news[x], false))
    && (forall x | 0 <= x < |saved.news| && x !in r.info && Listed(saved, x) ::
          var e := saved.news[x]; cfg.NewSlot(e.addr, cfg.newBucketOf(e.addr, e.source)) in r.news)
    && (forall sl | sl in r.news ::
          && r.news[sl] in r.info
          && (|| sl == Home(cfg, r.info[r.news[sl]])
              || (restore && sl.bucket < |saved.buckets| && r.news[sl] in saved.buckets[sl.bucket])))
  }

  lemma {:induction false} LoadsWhere(cfg: Config, was: State, saved: Saved, restore: bool, order: seq<int>)
    requires cfg.Wf() && (restore ==> |saved.buckets| == cfg.newBuckets)
    requires forall id | id in Filled(cfg, Cleared(was), saved, restore).info :: id in order
    ensures LoadedFrom(cfg, Pruned(cfg, Filled(cfg, Cleared(was), saved, restore), order), saved, restore)
  {
    hide Loading, RawIndex, AllNew, AllTried, AllPlaced, Pruned, LooseIds, LoadedFrom;
    hide Placements, ListedPlaced, FirstComers;
    AllNewIs(saved.news);
    var s := AllNew(EMPTY, saved.news);
    AllTriedIs(cfg, s, saved.tried);
    AllTriedFirst(cfg, s, saved.tried);
    var t := AllTried(cfg, s, saved.tried);
    AllNewKeeps(cfg, saved.news);
    AllTriedKeeps(cfg, s, saved.tried);
    RefsNatural(cfg, t);
    FilledKeeps(cfg, saved, restore);
    var pairs := Pairs(saved.buckets, |saved.news|);
    AllPlacedWhere(cfg, t, restore, pairs);
    AllPlacedIs(cfg, t, restore, pairs);
    var f := AllPlaced(cfg, t, restore, pairs);
    FilledFrame(cfg, was.collisions, saved, restore);
    PrunedKeeps(cfg, f, order);
    LooseKnown(f.info);
    forall id | id in LooseIds(f.info) ensures id in order { assert id in f.info; }
    assert (set id | id in LooseIds(f.info) && id in order) == LooseIds(f.info);
    Collected(cfg, s, t, f, Pruned(cfg, f, order), saved, restore);
    PrunedFrame(cfg, f, was.collisions, order);
    CollisionsApart(cfg, Pruned(cfg, f, order), was.collisions, saved, restore);
  }

  lemma {:induction false} CollisionsApart(cfg: Config, r: State, c: set<int>, saved: Saved, restore: bool)
    ensures LoadedFrom(cfg, r.(collisions := c), saved, restore) == LoadedFrom(cfg, r, saved, restore)
  {
    hide FirstComers;
  }

  lemma {:induction false} RefsNatural(cfg: Config, s: State)
    requires Loading(cfg, s)
    ensures forall x | x in s.info :: s.info[x].refCount >= 0
  {
  }

  lemma {:induction false} TriedStay(cfg: Config, t: State, f: State, r: State, tried: seq<Entry>)
    requires FirstComers(cfg, t.info, t.tried, tried) && OnlyPlaced(t, f)
    requires LooseIds(f.info) <= f.info.Keys && PrunedTo(cfg, f, r, LooseIds(f.info))
    ensures FirstComers(cfg, r.info, r.tried, tried)
  {
    forall sl | sl in r.tried
      ensures exists i ::
                First(cfg, tried, sl, i) && r.tried[sl] in r.info && MadeFrom(r.info[r.tried[sl]], tried[i], true)
    {
      var i :| First(cfg, tried, sl, i) && t.tried[sl] in t.info && MadeFrom(t.info[t.tried[sl]], tried[i], true);
      var x := t.tried[sl];
      assert x in f.info && x !in LooseIds(f.info);
    }
  }

  lemma {:induction false} NewMade(s: State, t: State, f: State, saved: Saved, x: int)
    requires NewLoaded(s, saved.news) && TriedLoaded(s, t, saved.tried) && OnlyPlaced(t, f)
    ensures x in f.info && !f.info[x].inTried ==> 0 <= x < |saved.news|
    ensures 0 <= x < |saved.news| ==> x in f.info && MadeFrom(f.info[x], saved.news[x], false)
  {
  }

  lemma {:induction false} ListedStays(cfg: Config, f: State, saved: Saved, x: int)
    requires ListedPlaced(cfg, f, Pairs(saved.buckets, |saved.news|)) && Listed(saved, x)
    requires 0 <= x < |saved.news| && x in f.info && f.info[x].refCount == 0
    ensures Home(cfg, f.info[x]) in f.news
  {
    var b :| 0 <= b < |saved.buckets| && x in saved.buckets[b];
    PairsMember(saved.buckets, |saved.news|, (b, x));
  }

  lemma {:induction false} PlacedFrom(cfg: Config, f: State, saved: Saved, restore: bool, sl: Slot)
    requires Placements(cfg, f, restore, Pairs(saved.buckets, |saved.news|)) && sl in f.news
    requires Loading(cfg, f)
    ensures f.news[sl] in f.info && f.news[sl] !in LooseIds(f.info)
    ensures || sl == Home(cfg, f.info[f.news[sl]])
            || (restore && sl.bucket < |saved.buckets| && f.news[sl] in saved.buckets[sl.bucket])
  {
    hide Held, RandomOk, TriedOk, NewOk, CountOk, IdsOk, LooseOk, Pairs;
    PairsMember(saved.buckets, |saved.news|, (sl.bucket, f.news[sl]));
    if f.news[sl] in LooseIds(f.info) { HoldsNothing(f.info, f.news, f.news[sl]); }
  }

  lemma {:induction false} Collected(cfg: Config, s: State, t: State, f: State, r: State, saved: Saved, restore: bool)
    requires NewLoaded(s, saved.news) && TriedLoaded(s, t, saved.tried)
    requires FirstComers(cfg, t.info, t.tried, saved.tried)
    requires OnlyPlaced(t, f) && Loading(cfg, f)
    requires var pairs := Pairs(saved.buckets, |saved.news|);
             Placements(cfg, f, restore, pairs) && ListedPlaced(cfg, f, pairs)
    requires LooseIds(f.info) <= f.info.Keys && PrunedTo(cfg, f, r, LooseIds(f.info))
    ensures LoadedFrom(cfg, r, saved, restore)
  {
    hide First, Loading, Placements, ListedPlaced, OnlyPlaced, Pairs, Listed, NewLoaded, TriedLoaded, FirstComers;
    TriedStay(cfg, t, f, r, saved.tried);
    forall x | x in r.info && !r.info[x].inTried
      ensures 0 <= x < |saved.news| && MadeFrom(r.info[x], saved.news[x], false)
    {
      NewMade(s, t, f, saved, x);
    }
    forall x | 0 <= x < |saved.news| && x !in r.info && Listed(saved, x)
      ensures var e := saved.news[x]; cfg.NewSlot(e.addr, cfg.newBucketOf(e.addr, e.source)) in r.news
    {
      NewMade(s, t, f, saved, x);
      ListedStays(cfg, f, saved, x);
    }
    forall sl | sl in r.news
      ensures r.news[sl] in r.info
      ensures || sl == Home(cfg, r.info[r.news[sl]])
              || (restore && sl.bucket < |saved.buckets| && r.news[sl] in saved.buckets[sl.bucket])
    {
      PlacedFrom(cfg, f, saved, restore, sl);
      var x := r.news[sl];
      assert x in r.info && r.info[x] == f.info[x].(randomPos := r.info[x].randomPos);
    }
  }
}
