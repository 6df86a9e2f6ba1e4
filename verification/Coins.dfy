/** The unspent-output set and its stack of write-back caches (`CCoinsViewCache`).

    Values first: one cache level over the set below it, the meaning of the DIRTY and
    FRESH flags, and what merging a child level into its parent does.  Module
    CoinsViews then gives the mutable classes, which are proved against these. */
module Coins {

  datatype OutPoint = OutPoint(hash: nat, n: nat)

  type Script = seq<bv8>

  const OP_RETURN: bv8 := 0x6a
  const MAX_SCRIPT_SIZE: nat := 10000
  /** Scripts up to this length live inside the coin and cost no heap memory. */
  const DIRECT_SCRIPT_SIZE: nat := 28

  datatype Coin = Coin(value: int, script: Script, coinBase: bool, coinStake: bool, height: nat) {
    /** A coin whose output is null. */
    predicate IsSpent() { value == -1 }

    predicate IsUnspendable() {
      (|script| > 0 && script[0] == OP_RETURN) || |script| > MAX_SCRIPT_SIZE
    }

    /** Heap bytes owned by the script, with malloc's 16-byte rounding. */
    function Usage(): nat {
      if |script| <= DIRECT_SCRIPT_SIZE then 0 else (|script| + 31) / 16 * 16
    }
  }

  /** The value left behind by `Coin::Clear`. */
  const CLEARED: Coin := Coin(-1, [], false, false, 0)

  datatype Entry = Entry(coin: Coin, isDirty: bool, isFresh: bool)

  type CoinsMap = map<OutPoint, Entry>

  /** What a view answers: exactly the unspent coins. */
  type UtxoSet = map<OutPoint, Coin>

  predicate AllUnspent(s: UtxoSet) {
    forall o | o in s :: !s[o].IsSpent()
  }

  /** What a cache level shows to its reader. */
  function View(cache: CoinsMap, below: UtxoSet): (v: UtxoSet)
    ensures forall o :: o in v <==> if o in cache then !cache[o].coin.IsSpent() else o in below
    ensures forall o | o in v :: v[o] == if o in cache then cache[o].coin else below[o]
  {
    map o | o in cache.Keys + below.Keys && (o in cache ==> !cache[o].coin.IsSpent())
      :: if o in cache then cache[o].coin else below[o]
  }

  /** The five flag combinations the header allows. */
  predicate ValidFlags(e: Entry) {
    if e.coin.IsSpent() then e.isDirty != e.isFresh else e.isFresh ==> e.isDirty
  }

  /** What the flags promise about the set below: a FRESH entry is not unspent there, and an
      entry that is not DIRTY agrees with it. */
  predicate EntryOk(o: OutPoint, e: Entry, below: UtxoSet) {
    && ValidFlags(e)
    && (e.isFresh ==> o !in below)
    && (!e.isDirty ==> if e.coin.IsSpent() then o !in below else o in below && below[o] == e.coin)
  }

  predicate CacheOk(cache: CoinsMap, below: UtxoSet) {
    forall o | o in cache :: EntryOk(o, cache[o], below)
  }

  /** Copying an unspent coin up from below changes nothing a reader can see. */
  lemma {:induction false} FillKeepsView(cache: CoinsMap, below: UtxoSet, o: OutPoint)
    requires o !in cache && o in below && AllUnspent(below) && CacheOk(cache, below)
    ensures View(cache[o := Entry(below[o], false, false)], below) == View(cache, below)
    ensures CacheOk(cache[o := Entry(below[o], false, false)], below)
  {
  }

  // ---- memory accounting ----

  ghost function UsageSum(cache: CoinsMap): nat
    decreases |cache|
  {
    if cache == map[] then 0
    else
      var o :| o in cache;
      cache[o].coin.Usage() + UsageSum(cache - {o})
  }

  lemma {:induction false} UsageSumRemove(cache: CoinsMap, o: OutPoint)
    requires o in cache
    ensures UsageSum(cache) == cache[o].coin.Usage() + UsageSum(cache - {o})
    decreases |cache|
  {
    var p :| p in cache && UsageSum(cache) == cache[p].coin.Usage() + UsageSum(cache - {p});
    if p != o {
      UsageSumRemove(cache - {p}, o);
      UsageSumRemove(cache - {o}, p);
      assert cache - {p} - {o} == cache - {o} - {p};
    }
  }

  lemma {:induction false} UsageSumPut(cache: CoinsMap, o: OutPoint, e: Entry)
    ensures UsageSum(cache[o := e])
         == UsageSum(cache) + e.coin.Usage() - if o in cache then cache[o].coin.Usage() else 0
  {
    UsageSumRemove(cache[o := e], o);
    if o in cache {
      UsageSumRemove(cache, o);
      assert cache[o := e] - {o} == cache - {o};
    } else {
      assert cache[o := e] - {o} == cache;
    }
  }

  // ---- writing a child level back ----

  /** The FRESH flag of a child entry claims the parent has no unspent coin; this is the
      situation in which the merge detects that the claim is wrong. */
  predicate Misapplied(child: Entry, parent: Entry) {
    child.isDirty && child.isFresh && !parent.coin.IsSpent()
  }

  predicate MergeThrows(parent: CoinsMap, child: CoinsMap) {
    exists o | o in child && o in parent :: Misapplied(child[o], parent[o])
  }

  /** Whether the parent still has an entry for `o` after the merge. */
  predicate MergeKeeps(parent: CoinsMap, child: CoinsMap, o: OutPoint) {
    if o !in child || !child[o].isDirty then o in parent
    else if o !in parent then !(child[o].isFresh && child[o].coin.IsSpent())
    else !(parent[o].isFresh && child[o].coin.IsSpent())
  }

  function MergeEntry(parent: CoinsMap, child: CoinsMap, o: OutPoint): Entry
    requires MergeKeeps(parent, child, o)
  {
    if o !in child || !child[o].isDirty then parent[o]
    else if o !in parent then Entry(child[o].coin, true, child[o].isFresh)
    else Entry(child[o].coin, true, parent[o].isFresh)
  }

  /** The parent level after `BatchWrite` consumed the child's entries. */
  function Merge(parent: CoinsMap, child: CoinsMap): CoinsMap {
    map o | o in parent.Keys + child.Keys && MergeKeeps(parent, child, o) :: MergeEntry(parent, child, o)
  }

  /** Flushing a child into its parent: the misapplied-FRESH error is unreachable, what the
      stack shows does not change, and the parent's flags still tell the truth about the
      grandparent, which was not touched. */
  lemma {:induction false} FlushPreservesView(child: CoinsMap, parent: CoinsMap, grand: UtxoSet)
    requires CacheOk(parent, grand)
    requires CacheOk(child, View(parent, grand))
    ensures !MergeThrows(parent, child)
    ensures View(Merge(parent, child), grand) == View(child, View(parent, grand))
    ensures CacheOk(Merge(parent, child), grand)
  {
    var top := View(parent, grand);
    var merged := Merge(parent, child);
    forall o | o in child && o in parent ensures !Misapplied(child[o], parent[o]) {
      assert EntryOk(o, child[o], top);
    }
    forall o
      ensures o in View(merged, grand) <==> o in View(child, top)
      ensures o in View(child, top) ==> View(merged, grand)[o] == View(child, top)[o]
      ensures o in merged ==> EntryOk(o, merged[o], grand)
    {
      assert o in child ==> EntryOk(o, child[o], top);
      assert o in parent ==> EntryOk(o, parent[o], grand);
    }
  }

  /** The database at the bottom applies every DIRTY entry. */
  function Applied(coins: UtxoSet, child: CoinsMap): UtxoSet {
    map o | o in coins.Keys + child.Keys
        && (if o in child && child[o].isDirty then !child[o].coin.IsSpent() else o in coins)
      :: if o in child && child[o].isDirty then child[o].coin else coins[o]
  }

  lemma {:induction false} AppliedIsView(coins: UtxoSet, child: CoinsMap)
    requires AllUnspent(coins) && CacheOk(child, coins)
    ensures Applied(coins, child) == View(child, coins)
    ensures AllUnspent(View(child, coins))
  {
    forall o ensures o in Applied(coins, child) <==> o in View(child, coins) {
      assert o in child ==> EntryOk(o, child[o], coins);
    }
    forall o | o in View(child, coins) ensures Applied(coins, child)[o] == View(child, coins)[o] {
      assert o in child ==> EntryOk(o, child[o], coins);
    }
  }

  lemma {:induction false} ViewUnspent(cache: CoinsMap, below: UtxoSet)
    requires AllUnspent(below)
    ensures AllUnspent(View(cache, below))
  {
  }

  // ---- one step of each map the loops below go through ----

  lemma {:induction false} AppliedStep(coins: UtxoSet, child: CoinsMap, todo: set<OutPoint>, o: OutPoint)
    requires o in todo && todo <= child.Keys
    ensures Applied(coins, child - (todo - {o})) ==
            var sofar := Applied(coins, child - todo);
            if !child[o].isDirty then sofar
            else if child[o].coin.IsSpent() then sofar - {o} else sofar[o := child[o].coin]
  {
  }

  lemma {:induction false} MergeStep(parent: CoinsMap, child: CoinsMap, todo: set<OutPoint>, o: OutPoint)
    requires o in todo && todo <= child.Keys
    ensures Merge(parent, child - (todo - {o})) ==
            var sofar := Merge(parent, child - todo);
            if MergeKeeps(parent, child, o) then sofar[o := MergeEntry(parent, child, o)] else sofar - {o}
    ensures o in Merge(parent, child - todo) <==> o in parent
    ensures o in parent ==> Merge(parent, child - todo)[o] == parent[o]
  {
  }

  /** The entry `AddCoin` leaves behind: FRESH is kept if it was there, and set when the caller
      vouches that nothing unspent is overwritten and no spentness awaits flushing. */
  function AddedEntry(cache: CoinsMap, o: OutPoint, coin: Coin, overwrite: bool): Entry {
    var old' := if o in cache then cache[o] else Entry(CLEARED, false, false);
    Entry(coin, true, old'.isFresh || (!overwrite && !old'.isDirty))
  }

  predicate AddThrows(cache: CoinsMap, o: OutPoint, overwrite: bool) {
    !overwrite && o in cache && !cache[o].coin.IsSpent()
  }

  /** Adding a coin keeps the flags truthful exactly when the caller's promise about
      overwriting was true of the whole stack, not just of this level. */
  lemma {:induction false} AddKeepsFlags(cache: CoinsMap, below: UtxoSet, o: OutPoint, coin: Coin, overwrite: bool)
    requires CacheOk(cache, below) && !coin.IsSpent() && !AddThrows(cache, o, overwrite)
    ensures View(cache[o := AddedEntry(cache, o, coin, overwrite)], below) == View(cache, below)[o := coin]
    ensures CacheOk(cache[o := AddedEntry(cache, o, coin, overwrite)], below)
       <==> overwrite || o !in View(cache, below)
  {
    var cache' := cache[o := AddedEntry(cache, o, coin, overwrite)];
    assert o in cache ==> EntryOk(o, cache[o], below);
    if CacheOk(cache', below) {
      assert EntryOk(o, cache'[o], below);
    }
  }

  /** If the promise is broken behind this level's back, spending the coin later brings the
      one below back to life: the reason FRESH must never be misapplied. */
  lemma {:induction false} BrokenPromiseRevivesCoin(below: UtxoSet, o: OutPoint, coin: Coin)
    requires o in below && !coin.IsSpent()
    ensures var cache := map[o := AddedEntry(map[], o, coin, false)];
            && View(cache, below)[o] == coin
            && o in View(SpentCache(cache, o), below)
  {
  }

  /** The level after `SpendCoin` found an entry: a FRESH one disappears, any other stays
      behind as a DIRTY spent marker. */
  function SpentCache(cache: CoinsMap, o: OutPoint): CoinsMap
    requires o in cache
  {
    if cache[o].isFresh then cache - {o} else cache[o := Entry(CLEARED, true, false)]
  }

  lemma {:induction false} SpendRemoves(cache: CoinsMap, below: UtxoSet, o: OutPoint)
    requires CacheOk(cache, below) && o in cache
    ensures View(SpentCache(cache, o), below) == View(cache, below) - {o}
    ensures CacheOk(SpentCache(cache, o), below)
  {
    assert EntryOk(o, cache[o], below);
  }

  lemma {:induction false} SpendUsage(cache: CoinsMap, o: OutPoint)
    requires o in cache
    ensures UsageSum(SpentCache(cache, o)) == UsageSum(cache) - cache[o].coin.Usage()
  {
    UsageSumRemove(cache, o);
    UsageSumPut(cache, o, Entry(CLEARED, true, false));
  }

  /** Evicting an entry with no flags set loses nothing. */
  lemma {:induction false} UncacheKeepsView(cache: CoinsMap, below: UtxoSet, o: OutPoint)
    requires CacheOk(cache, below) && o in cache && !cache[o].isDirty && !cache[o].isFresh
    ensures View(cache - {o}, below) == View(cache, below) && CacheOk(cache - {o}, below)
    ensures UsageSum(cache - {o}) == UsageSum(cache) - cache[o].coin.Usage()
  {
    assert EntryOk(o, cache[o], below);
    UsageSumRemove(cache, o);
  }

  /** The set with the spendable outputs of a transaction put in. */
  function WithOutputs(s: UtxoSet, txid: nat, outs: seq<Coin>): UtxoSet { s + Outputs(txid, outs) }

  function Outputs(txid: nat, outs: seq<Coin>): UtxoSet {
    map n | 0 <= n < |outs| && !outs[n].IsUnspendable() :: OutPoint(txid, n) := outs[n]
  }

  lemma {:induction false} OutputsStep(txid: nat, outs: seq<Coin>, i: nat)
    requires i < |outs|
    ensures OutPoint(txid, i) !in Outputs(txid, outs[..i])
    ensures Outputs(txid, outs[..i + 1])
            == if outs[i].IsUnspendable() then Outputs(txid, outs[..i])
               else Outputs(txid, outs[..i])[OutPoint(txid, i) := outs[i]]
  {
  }

  lemma {:induction false} WithOutputsStep(s: UtxoSet, txid: nat, outs: seq<Coin>, i: nat)
    requires i < |outs|
    ensures var sofar := WithOutputs(s, txid, outs[..i]);
            && WithOutputs(s, txid, outs[..i + 1])
               == (if outs[i].IsUnspendable() then sofar else sofar[OutPoint(txid, i) := outs[i]])
            && (OutPoint(txid, i) in sofar <==> OutPoint(txid, i) in s)
  {
    hide Outputs;
    OutputsStep(txid, outs, i);
  }

  // ---- the plain map the stack must behave like ----

  datatype Answer = Nothing | Unspent(coin: Coin) | Absent | Exists(yes: bool)

  /** Operations on the top of a stack; `level` 0 is the top itself. */
  datatype Op =
    | Add(o: OutPoint, coin: Coin, overwrite: bool)
    | AddOutputs(txid: nat, outs: seq<Coin>, isCoinBase: bool, check: bool)
    | Spend(o: OutPoint)
    | Get(o: OutPoint)
    | Access(o: OutPoint)
    | Have(o: OutPoint)
    | Uncache(level: nat, o: OutPoint)
    | Flush(level: nat, block: nat)

  function Lookup(s: UtxoSet, o: OutPoint): Answer {
    if o in s then Unspent(s[o]) else Absent
  }

  function FlatState(s: UtxoSet, op: Op): UtxoSet {
    match op
    case Add(o, coin, _) => if coin.IsUnspendable() then s else s[o := coin]
    case AddOutputs(txid, outs, _, _) => WithOutputs(s, txid, outs)
    case Spend(o) => s - {o}
    case _ => s
  }

  function FlatAnswer(s: UtxoSet, op: Op): Answer {
    match op
    case Spend(o) => Lookup(s, o)
    case Get(o) => Lookup(s, o)
    case Access(o) => Lookup(s, o)
    case Have(o) => Exists(o in s)
    case _ => Nothing
  }

  /** What the callers of a stack with `levels` caches must respect. */
  predicate Allowed(s: UtxoSet, levels: nat, op: Op) {
    match op
    case Add(o, coin, overwrite) => !coin.IsSpent() && (overwrite || o !in s || coin.IsUnspendable())
    case AddOutputs(txid, outs, isCoinBase, check) =>
      && (forall i | 0 <= i < |outs| :: !outs[i].IsSpent())
      && (check || isCoinBase || forall i | 0 <= i < |outs| :: OutPoint(txid, i) !in s)
    case Uncache(level, _) => level < levels
    case Flush(level, block) => level < levels && (level == levels - 1 ==> block != 0)
    case _ => true
  }

  function FlatRun(s: UtxoSet, ops: seq<Op>): (UtxoSet, seq<Answer>) {
    if ops == [] then (s, [])
    else
      var (s', answers) := FlatRun(s, ops[..|ops| - 1]);
      var op := ops[|ops| - 1];
      (FlatState(s', op), answers + [FlatAnswer(s', op)])
  }

  predicate AllowedRun(s: UtxoSet, levels: nat, ops: seq<Op>) {
    forall i | 0 <= i < |ops| :: Allowed(FlatRun(s, ops[..i]).0, levels, ops[i])
  }
}
