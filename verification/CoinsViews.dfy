/** The mutable views: a database at the bottom and any number of caches stacked on it. */
module CoinsViews {
  import opened Coins

  /** The bottom view.  Only its contract matters: it stores unspent coins and applies a
      batch atomically. */
  class CoinsViewDB {
    var coins: UtxoSet
    var bestBlock: nat

    constructor (coins: UtxoSet, bestBlock: nat)
      ensures this.coins == coins && this.bestBlock == bestBlock
    {
      this.coins, this.bestBlock := coins, bestBlock;
    }

    method BatchWrite(mapCoins: CoinsMap, block: nat)
      requires block != 0
      modifies this
      ensures coins == Applied(old(coins), mapCoins) && bestBlock == block
    {
      var todo := mapCoins.Keys;
      var was := coins;
      while todo != {}
        invariant todo <= mapCoins.Keys && was == old(coins)
        invariant coins == Applied(was, mapCoins - todo)
      {
        var o :| o in todo;
        if mapCoins[o].isDirty {
          coins := if mapCoins[o].coin.IsSpent() then coins - {o} else coins[o := mapCoins[o].coin];
        }
        AppliedStep(was, mapCoins, todo, o);
        todo := todo - {o};
      }
      assert mapCoins - {} == mapCoins;
      bestBlock := block;
    }
  }

  datatype Outcome = Ok | LogicError

  class CoinsViewCache {
    /** The view below: another cache, or the database when there is none. */
    const parent: CoinsViewCache?
    const db: CoinsViewDB
    ghost const Repr: set<object>
    ghost const Depth: nat

    var hashBlock: nat
    var cacheCoins: CoinsMap
    var cachedCoinsUsage: int

    /** The shape of the stack, fixed at construction. */
    ghost predicate Wf()
      decreases Depth
    {
      if parent == null then Depth == 0 && Repr == {this, db}
      else
        && Depth == parent.Depth + 1
        && parent.db == db
        && this !in parent.Repr
        && Repr == {this} + parent.Repr
        && parent.Wf()
    }

    lemma WfFacts()
      requires Wf()
      ensures db in Repr && this in Repr
      decreases Depth
    {
      if parent != null { parent.WfFacts(); }
    }

    /** The unspent coins this view answers with. */
    ghost function Contents(): UtxoSet
      requires Wf()
      reads Repr
      decreases Depth, 1
    {
      View(cacheCoins, Below())
    }

    ghost function Below(): UtxoSet
      requires Wf()
      reads Repr
      decreases Depth, 0
    {
      if parent == null then db.coins else parent.Contents()
    }

    /** Every level's flags tell the truth about the level below it, and its memory counter is
        the sum over its entries. */
    ghost predicate Valid()
      reads Repr
      decreases Depth
    {
      && Wf()
      && AllUnspent(Below())
      && CacheOk(cacheCoins, Below())
      && cachedCoinsUsage == UsageSum(cacheCoins)
      && (parent != null ==> parent.Valid())
    }

    ghost function BestBlock(): nat
      requires Wf()
      reads Repr
      decreases Depth, 1
    {
      if hashBlock != 0 then hashBlock else BestBlockBelow()
    }

    ghost function BestBlockBelow(): nat
      requires Wf()
      reads Repr
      decreases Depth, 0
    {
      if parent == null then db.bestBlock else parent.BestBlock()
    }

    constructor OnDatabase(db: CoinsViewDB)
      requires AllUnspent(db.coins)
      ensures Valid() && Depth == 0 && this.db == db
      ensures Contents() == db.coins && BestBlock() == db.bestBlock
    {
      this.parent, this.db := null, db;
      Repr, Depth := {this, db}, 0;
      hashBlock, cacheCoins, cachedCoinsUsage := 0, map[], 0;
    }

    constructor OnCache(parent: CoinsViewCache)
      requires parent.Valid()
      ensures Valid() && this.parent == parent && Depth == parent.Depth + 1
      ensures Contents() == parent.Contents() && BestBlock() == parent.BestBlock()
    {
      this.parent, this.db := parent, parent.db;
      Repr, Depth := {this} + parent.Repr, parent.Depth + 1;
      hashBlock, cacheCoins, cachedCoinsUsage := 0, map[], 0;
      new;
      ViewUnspent(parent.cacheCoins, parent.Below());
    }

    /** Asks the view below, which may fill the caches there. */
    method GetCoinBelow(o: OutPoint) returns (found: bool, coin: Coin)
      requires Valid()
      modifies Repr - {this}
      ensures Valid() && unchanged(db)
      ensures Below() == old(Below()) && BestBlockBelow() == old(BestBlockBelow())
      ensures found <==> o in Below()
      ensures found ==> coin == Below()[o]
      decreases Depth, 0
    {
      if parent == null {
        found := o in db.coins;
        coin := if found then db.coins[o] else CLEARED;
      } else {
        assert parent.Repr == Repr - {this};
        found, coin := parent.GetCoin(o);
      }
    }

    /** Nothing below notices a change made at this level. */
    twostate lemma BelowUnchanged()
      requires Wf() && unchanged(Repr - {this})
      ensures Below() == old(Below()) && BestBlockBelow() == old(BestBlockBelow())
      ensures parent != null ==> parent.Valid() == old(parent.Valid())
      ensures db in Repr && unchanged(db)
    {
      WfFacts();
      if parent != null {
        assert parent.Repr == Repr - {this};
      }
    }

    /** Looks the outpoint up, filling every level on the way down. */
    method FetchCoin(o: OutPoint) returns (found: bool)
      requires Valid()
      modifies Repr
      ensures Valid() && unchanged(db) && hashBlock == old(hashBlock)
      ensures Below() == old(Below()) && BestBlockBelow() == old(BestBlockBelow())
      ensures Contents() == old(Contents())
      ensures found <==> o in old(cacheCoins) || o in Below()
      ensures cacheCoins == if !found || o in old(cacheCoins) then old(cacheCoins)
                            else old(cacheCoins)[o := Entry(Below()[o], false, false)]
      decreases Depth, 1
    {
      WfFacts();
      if o in cacheCoins {
        return true;
      }
      var tmp;
      found, tmp := GetCoinBelow(o);
      if !found {
        return;
      }
      FillKeepsView(cacheCoins, Below(), o);
      UsageSumPut(cacheCoins, o, Entry(tmp, false, tmp.IsSpent()));
      label Fetched:
      cacheCoins := cacheCoins[o := Entry(tmp, false, tmp.IsSpent())];
      cachedCoinsUsage := cachedCoinsUsage + tmp.Usage();
      BelowUnchanged@Fetched();
    }

    method GetCoin(o: OutPoint) returns (found: bool, coin: Coin)
      requires Valid()
      modifies Repr
      ensures Valid()
      ensures Contents() == old(Contents()) && BestBlock() == old(BestBlock())
      ensures Below() == old(Below())
      ensures unchanged(db)
      ensures found <==> o in Contents()
      ensures found ==> coin == Contents()[o]
      decreases Depth, 2
    {
      var cached := FetchCoin(o);
      if cached {
        coin := cacheCoins[o].coin;
        return !coin.IsSpent(), coin;
      }
      return false, CLEARED;
    }

    method AccessCoin(o: OutPoint) returns (coin: Coin)
      requires Valid()
      modifies Repr
      ensures Valid() && unchanged(db)
      ensures Contents() == old(Contents()) && Below() == old(Below())
      ensures if o in Contents() then coin == Contents()[o] else coin.IsSpent()
    {
      var cached := FetchCoin(o);
      coin := if cached then cacheCoins[o].coin else CLEARED;
    }

    method HaveCoin(o: OutPoint) returns (have: bool)
      requires Valid()
      modifies Repr
      ensures Valid() && unchanged(db)
      ensures Contents() == old(Contents()) && Below() == old(Below())
      ensures have <==> o in Contents()
    {
      var cached := FetchCoin(o);
      have := cached && !cacheCoins[o].coin.IsSpent();
    }

    /** Like HaveCoin, without asking the view below: it can miss coins but not invent them. */
    method HaveCoinInCache(o: OutPoint) returns (have: bool)
      requires Valid()
      ensures have <==> o in cacheCoins && o in Contents()
    {
      have := o in cacheCoins && !cacheCoins[o].coin.IsSpent();
    }

    /** `overwrite == false` is the caller's promise that no unspent coin is replaced.  A promise
        broken at this level is caught, but the memory counter has already been lowered. */
    method AddCoin(o: OutPoint, coin: Coin, overwrite: bool) returns (r: Outcome)
      requires Valid() && !coin.IsSpent()
      modifies this
      ensures Below() == old(Below()) && unchanged(db) && hashBlock == old(hashBlock)
      ensures (|coin.script| > 0 && coin.script[0] == 0x6a) || |coin.script| > 10000 ==>
                r == Ok && cacheCoins == old(cacheCoins) && Contents() == old(Contents())
      ensures !(|coin.script| > 0 && coin.script[0] == 0x6a) && |coin.script| <= 10000 ==>
                && (r == LogicError <==> !overwrite && o in old(cacheCoins) && !old(cacheCoins)[o].coin.IsSpent())
                && (r == Ok ==> Contents() == old(Contents())[o := coin])
                && (r == Ok ==> cacheCoins == old(cacheCoins)[o := AddedEntry(old(cacheCoins), o, coin, overwrite)])
      ensures r == LogicError ==> cacheCoins == old(cacheCoins) && Contents() == old(Contents())
      ensures r == LogicError ==> cachedCoinsUsage == old(cachedCoinsUsage) - old(cacheCoins)[o].coin.Usage()
      ensures Valid() <==> || coin.IsUnspendable() || overwrite || o !in old(Contents())
                           || (o in old(cacheCoins) && old(cacheCoins)[o].coin.Usage() == 0)
    {
      hide CacheOk, UsageSum, AllUnspent;
      if coin.IsUnspendable() {
        BelowUnchanged();
        return Ok;
      }
      var entry := if o in cacheCoins then cacheCoins[o] else Entry(CLEARED, false, false);
      if o in cacheCoins {
        cachedCoinsUsage := cachedCoinsUsage - entry.coin.Usage();
      }
      var isFresh := false;
      if !overwrite {
        if !entry.coin.IsSpent() {
          BelowUnchanged();
          return LogicError;
        }
        isFresh := !entry.isDirty;
      }
      AddKeepsFlags(cacheCoins, Below(), o, coin, overwrite);
      UsageSumPut(cacheCoins, o, Entry(coin, true, entry.isFresh || isFresh));
      cacheCoins := cacheCoins[o := Entry(coin, true, entry.isFresh || isFresh)];
      cachedCoinsUsage := cachedCoinsUsage + coin.Usage();
      BelowUnchanged();
      return Ok;
    }

    /** Removes the coin from the view.  The result also says true for an outpoint whose entry
        here is already spent, in which case the moved-out coin is a spent one. */
    method SpendCoin(o: OutPoint) returns (ok: bool, moveout: Coin)
      requires Valid()
      modifies Repr
      ensures Valid() && unchanged(db) && Below() == old(Below())
      ensures Contents() == old(Contents()) - {o}
      ensures ok <==> o in old(cacheCoins) || o in Below()
      ensures ok ==> if o in old(Contents()) then moveout == old(Contents())[o] else moveout.IsSpent()
    {
      ok := FetchCoin(o);
      moveout := CLEARED;
      if !ok {
        assert old(Contents()) - {o} == old(Contents());
        return;
      }
      label Fetched:
      SpendRemoves(cacheCoins, Below(), o);
      SpendUsage(cacheCoins, o);
      cachedCoinsUsage := cachedCoinsUsage - cacheCoins[o].coin.Usage();
      moveout := cacheCoins[o].coin;
      if cacheCoins[o].isFresh {
        cacheCoins := cacheCoins - {o};
      } else {
        cacheCoins := cacheCoins[o := Entry(CLEARED, true, false)];
      }
      BelowUnchanged@Fetched();
    }

    method Uncache(o: OutPoint)
      requires Valid()
      modifies this
      ensures Valid() && unchanged(db) && Below() == old(Below())
      ensures Contents() == old(Contents())
      ensures cacheCoins == if o in old(cacheCoins) && !old(cacheCoins)[o].isDirty && !old(cacheCoins)[o].isFresh
                            then old(cacheCoins) - {o} else old(cacheCoins)
    {
      if o in cacheCoins && !cacheCoins[o].isDirty && !cacheCoins[o].isFresh {
        UncacheKeepsView(cacheCoins, Below(), o);
        cachedCoinsUsage := cachedCoinsUsage - cacheCoins[o].coin.Usage();
        cacheCoins := cacheCoins - {o};
      }
      BelowUnchanged();
    }

    method GetBestBlock() returns (block: nat)
      requires Valid()
      modifies Repr
      ensures Valid() && unchanged(db)
      ensures Contents() == old(Contents()) && Below() == old(Below())
      ensures block == BestBlock() == old(BestBlock())
      decreases Depth
    {
      WfFacts();
      if hashBlock == 0 {
        if parent == null {
          hashBlock := db.bestBlock;
          BelowUnchanged();
        } else {
          assert parent.Repr == Repr - {this};
          var below := parent.GetBestBlock();
          label Asked:
          hashBlock := below;
          BelowUnchanged@Asked();
        }
      }
      block := hashBlock;
    }

    method SetBestBlock(block: nat)
      requires Valid()
      modifies this`hashBlock
      ensures Valid() && hashBlock == block && unchanged(db)
      ensures Contents() == old(Contents()) && Below() == old(Below())
    {
      hashBlock := block;
      BelowUnchanged();
    }

    /** The body of BatchWrite's loop: absorbs one child entry. */
    method MergeOne(o: OutPoint, child: Entry) returns (r: Outcome)
      modifies this`cacheCoins, this`cachedCoinsUsage
      ensures r == LogicError <==> o in old(cacheCoins) && Misapplied(child, old(cacheCoins)[o])
      ensures r == Ok ==>
        && cacheCoins == (if !MergeKeeps(old(cacheCoins), map[o := child], o) then old(cacheCoins) - {o}
                          else old(cacheCoins)[o := MergeEntry(old(cacheCoins), map[o := child], o)])
        && cachedCoinsUsage - UsageSum(cacheCoins) == old(cachedCoinsUsage - UsageSum(cacheCoins))
    {
      if !child.isDirty {
        return Ok;
      }
      if o !in cacheCoins {
        if !(child.isFresh && child.coin.IsSpent()) {
          UsageSumPut(cacheCoins, o, Entry(child.coin, true, child.isFresh));
          cacheCoins := cacheCoins[o := Entry(child.coin, true, child.isFresh)];
          cachedCoinsUsage := cachedCoinsUsage + child.coin.Usage();
        }
      } else {
        var us := cacheCoins[o];
        if child.isFresh && !us.coin.IsSpent() {
          return LogicError;
        }
        cachedCoinsUsage := cachedCoinsUsage - us.coin.Usage();
        if us.isFresh && child.coin.IsSpent() {
          UsageSumRemove(cacheCoins, o);
          cacheCoins := cacheCoins - {o};
        } else {
          UsageSumPut(cacheCoins, o, Entry(child.coin, true, us.isFresh));
          cacheCoins := cacheCoins[o := Entry(child.coin, true, us.isFresh)];
          cachedCoinsUsage := cachedCoinsUsage + child.coin.Usage();
        }
      }
      return Ok;
    }

    /** Absorbs a child's entries, in whatever order its map yields them. */
    method BatchWrite(mapCoins: CoinsMap, block: nat) returns (r: Outcome)
      requires Wf()
      modifies this
      ensures Below() == old(Below()) && unchanged(db)
      ensures r == LogicError <==> MergeThrows(old(cacheCoins), mapCoins)
      ensures r == Ok ==>
        && cacheCoins == Merge(old(cacheCoins), mapCoins)
        && cachedCoinsUsage - UsageSum(cacheCoins) == old(cachedCoinsUsage - UsageSum(cacheCoins))
        && hashBlock == block
    {
      ghost var was, drift := cacheCoins, cachedCoinsUsage - UsageSum(cacheCoins);
      var todo := mapCoins.Keys;
      while todo != {}
        invariant todo <= mapCoins.Keys
        invariant cacheCoins == Merge(was, mapCoins - todo)
        invariant cachedCoinsUsage - UsageSum(cacheCoins) == drift
        invariant forall o | o in mapCoins && o !in todo && o in was :: !Misapplied(mapCoins[o], was[o])
      {
        var o :| o in todo;
        MergeStep(was, mapCoins, todo, o);
        r := MergeOne(o, mapCoins[o]);
        if r == LogicError {
          assert Misapplied(mapCoins[o], was[o]);
          BelowUnchanged();
          return;
        }
        todo := todo - {o};
      }
      assert mapCoins - {} == mapCoins;
      hashBlock := block;
      r := Ok;
      BelowUnchanged();
    }

    /** A level that has absorbed a truthful child is valid and shows what the child showed. */
    twostate lemma Absorbed(child: CoinsMap)
      requires Wf() && old(Valid()) && unchanged(Repr - {this})
      requires CacheOk(child, old(Contents()))
      requires cacheCoins == Merge(old(cacheCoins), child) && cachedCoinsUsage == UsageSum(cacheCoins)
      ensures Valid() && Contents() == View(child, old(Contents()))
      ensures Below() == old(Below()) && BestBlockBelow() == old(BestBlockBelow())
    {
      BelowUnchanged();
      FlushPreservesView(child, old(cacheCoins), old(Below()));
    }

    /** The writing half of Flush: the view below takes over this level's changes. */
    method WriteBack() returns (r: Outcome)
      requires Valid()
      requires parent == null ==> hashBlock != 0
      modifies Repr - {this}
      ensures r == Ok
      ensures Below() == old(Contents())
      ensures BestBlockBelow() == if hashBlock != 0 then hashBlock else old(parent.BestBlockBelow())
      ensures parent != null ==> parent.Valid() && parent.Below() == old(parent.Below()) && unchanged(db)
    {
      WfFacts();
      if parent == null {
        AppliedIsView(db.coins, cacheCoins);
        db.BatchWrite(cacheCoins, hashBlock);
        r := Ok;
      } else {
        parent.WfFacts();
        assert parent.Repr == Repr - {this};
        assert Below() == parent.Contents() == View(parent.cacheCoins, parent.Below());
        FlushPreservesView(cacheCoins, parent.cacheCoins, parent.Below());
        r := parent.BatchWrite(cacheCoins, hashBlock);
        parent.Absorbed(cacheCoins);
      }
    }

    /** Pushes this level into the view below and empties it.  No reader notices; the level two
        below is untouched.  The database refuses a null block hash, and a cache below takes
        over whatever hash this level has, null included. */
    method Flush() returns (r: Outcome)
      requires Valid()
      requires parent == null ==> hashBlock != 0
      modifies Repr
      ensures r == Ok && Valid()
      ensures Contents() == old(Contents()) == Below()
      ensures cacheCoins == map[] && cachedCoinsUsage == 0 && hashBlock == old(hashBlock)
      ensures parent != null ==> parent.Below() == old(parent.Below()) && unchanged(db)
      ensures BestBlock() == if hashBlock != 0 then hashBlock else old(parent.BestBlockBelow())
    {
      WfFacts();
      ViewUnspent(cacheCoins, Below());
      r := WriteBack();
      label Written:
      cacheCoins, cachedCoinsUsage := map[], 0;
      BelowUnchanged@Written();
    }

    /** Flush and Uncache may be called on any level while caches on top of it are alive. */
    method FlushAt(level: nat, block: nat)
      requires Valid() && level <= Depth && (level == Depth ==> block != 0)
      modifies Repr
      ensures Valid() && Contents() == old(Contents())
      decreases level
    {
      WfFacts();
      if level == 0 {
        SetBestBlock(block);
        var _ := Flush();
      } else {
        assert parent.Repr == Repr - {this};
        parent.FlushAt(level - 1, block);
      }
    }

    method UncacheAt(level: nat, o: OutPoint)
      requires Valid() && level <= Depth
      modifies Repr
      ensures Valid() && Contents() == old(Contents())
      decreases level
    {
      WfFacts();
      if level == 0 {
        Uncache(o);
      } else {
        assert parent.Repr == Repr - {this};
        parent.UncacheAt(level - 1, o);
      }
    }

    method Perform(op: Op) returns (answer: Answer)
      requires Valid() && Allowed(Contents(), Depth + 1, op)
      modifies Repr
      ensures Valid()
      ensures Contents() == FlatState(old(Contents()), op)
      ensures answer == FlatAnswer(old(Contents()), op)
    {
      WfFacts();
      answer := Nothing;
      match op
      case Add(o, coin, overwrite) =>
        var _ := AddCoin(o, coin, overwrite);
      case AddOutputs(txid, outs, isCoinBase, check) =>
        var _ := AddCoins(txid, outs, isCoinBase, check);
      case Spend(o) =>
        var ok, moved := SpendCoin(o);
        answer := if ok && !moved.IsSpent() then Unspent(moved) else Absent;
      case Get(o) =>
        var found, coin := GetCoin(o);
        answer := if found then Unspent(coin) else Absent;
      case Access(o) =>
        var coin := AccessCoin(o);
        answer := if coin.IsSpent() then Absent else Unspent(coin);
      case Have(o) =>
        var have := HaveCoin(o);
        answer := Exists(have);
      case Uncache(level, o) => UncacheAt(level, o);
      case Flush(level, block) => FlushAt(level, block);
    }

    /** Every run on a stack of any height answers exactly like one plain map. */
    method Run(ops: seq<Op>) returns (answers: seq<Answer>)
      requires Valid() && AllowedRun(Contents(), Depth + 1, ops)
      modifies Repr
      ensures Valid()
      ensures (Contents(), answers) == FlatRun(old(Contents()), ops)
    {
      WfFacts();
      answers := [];
      ghost var start := Contents();
      for i := 0 to |ops|
        invariant Valid()
        invariant (Contents(), answers) == FlatRun(start, ops[..i])
      {
        assert ops[..i + 1][..i] == ops[..i];
        var answer := Perform(ops[i]);
        answers := answers + [answer];
      }
      assert ops[..|ops|] == ops;
    }

    /** Adds all outputs of a transaction.  With `check` the promise about overwriting is made
        good by asking the view; without it, only coinbases may overwrite. */
    method AddCoins(txid: nat, outs: seq<Coin>, isCoinBase: bool, check: bool) returns (r: Outcome)
      requires Valid() && forall i | 0 <= i < |outs| :: !outs[i].IsSpent()
      requires check || isCoinBase || forall i | 0 <= i < |outs| :: OutPoint(txid, i) !in Contents()
      modifies Repr
      ensures r == Ok && Valid()
      ensures Contents() == WithOutputs(old(Contents()), txid, outs)
    {
      WfFacts();
      r := Ok;
      ghost var start := Contents();
      for i := 0 to |outs|
        invariant Valid() && r == Ok
        invariant Contents() == WithOutputs(start, txid, outs[..i])
      {
        WithOutputsStep(start, txid, outs, i);
        var overwrite := isCoinBase;
        if check {
          overwrite := HaveCoin(OutPoint(txid, i));
        }
        r := AddCoin(OutPoint(txid, i), outs[i], overwrite);
      }
      assert outs[..|outs|] == outs;
    }
  }
}
