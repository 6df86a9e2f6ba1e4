/** A transaction over an ordered key-value store (`CDBTransaction`): writes and deletes are held
    back and overlaid on the parent until they are committed. */
module DbTransaction {
  import opened Wrappers

  type Key = seq<bv8>

  /** Byte-wise lexicographic order. */
  predicate Less(a: Key, b: Key) {
    b != [] && (a == [] || a[0] < b[0] || (a[0] == b[0] && Less(a[1..], b[1..])))
  }

  /** The order by the first difference: there the one is at its end or has the smaller byte. */
  ghost predicate Precedes(a: Key, b: Key) { exists k :: FirstDifference(a, b, k) }

  predicate FirstDifference(a: Key, b: Key, k: int) {
    0 <= k <= |a| && k < |b| && a[..k] == b[..k] && (k == |a| || (a[k] as int) < b[k] as int)
  }

  lemma {:induction false} LessPrecedes(a: Key, b: Key)
    ensures Less(a, b) <==> Precedes(a, b)
    decreases |a|
  {
    ByteOrder(a, b);
    if a != [] && b != [] && a[0] == b[0] {
      var a', b' := a[1..], b[1..];
      LessPrecedes(a', b');
      if Precedes(a', b') {
        var k :| FirstDifference(a', b', k);
        assert a[..k + 1] == [a[0]] + a'[..k] && b[..k + 1] == [b[0]] + b'[..k];
        assert FirstDifference(a, b, k + 1);
      }
      if Precedes(a, b) {
        var k :| FirstDifference(a, b, k);
        assert a'[..k - 1] == a[..k][1..] && b'[..k - 1] == b[..k][1..];
        assert FirstDifference(a', b', k - 1);
      }
    } else if Precedes(a, b) {
      var k :| FirstDifference(a, b, k);
      assert k == 0;
    } else if b != [] {
      assert a == [] ==> FirstDifference(a, b, 0);
      assert a != [] && a[0] < b[0] ==> FirstDifference(a, b, 0);
    }
  }

  lemma {:induction false} ByteOrder(a: Key, b: Key)
    ensures a != [] && b != [] ==> (a[0] < b[0] <==> (a[0] as int) < b[0] as int)
  {
  }

  lemma {:induction false} LessIsOrder()
    ensures forall a, b :: Less(a, b) <==> Precedes(a, b)
  {
    forall a, b ensures Less(a, b) <==> Precedes(a, b) { LessPrecedes(a, b); }
  }

  lemma {:induction false} SoughtKeys(keys: set<Key>, k: Key)
    ensures (set x | x in keys && !Less(x, k)) == set x | x in keys && !Precedes(x, k)
  {
    hide Less, Precedes;
    LessIsOrder();
  }

  lemma {:induction false} LessIrreflexive(a: Key)
    ensures !Less(a, a)
    decreases |a|
  {
    if a != [] { LessIrreflexive(a[1..]); }
  }

  lemma {:induction false} LessTransitive(a: Key, b: Key, c: Key)
    requires Less(a, b) && Less(b, c)
    ensures Less(a, c)
    decreases |a|
  {
    if a != [] && a[0] == b[0] == c[0] { LessTransitive(a[1..], b[1..], c[1..]); }
  }

  lemma {:induction false} LessTotal(a: Key, b: Key)
    ensures a == b || Less(a, b) || Less(b, a)
    decreases |a|
  {
    if a != [] && b != [] && a[0] == b[0] {
      LessTotal(a[1..], b[1..]);
      assert a == [a[0]] + a[1..] && b == [b[0]] + b[1..];
    }
  }

  /** A pending value, with the type it was written as and its accounted size. */
  datatype Holder<V> = Holder(value: V, typeId: nat, memoryUsage: nat)

  /** Reading under another type than the value was written with is an error. */
  datatype ReadResult<V> = Found(value: V) | NotFound | WrongType

  // ---- the overlay ----

  function Overlay<V>(parent: map<Key, V>, writes: map<Key, Holder<V>>, deletes: set<Key>): (v: map<Key, V>)
    ensures v.Keys == (parent.Keys - deletes) + writes.Keys
    ensures forall k | k in v :: v[k] == if k in writes then writes[k].value else parent[k]
  {
    map k | k in parent.Keys + writes.Keys && (k in writes || k !in deletes)
      :: if k in writes then writes[k].value else parent[k]
  }

  lemma {:induction false} OverlayWrite<V>(parent: map<Key, V>, writes: map<Key, Holder<V>>, deletes: set<Key>,
      k: Key, h: Holder<V>)
    requires writes.Keys !! deletes
    ensures Overlay(parent, writes[k := h], deletes - {k}) == Overlay(parent, writes, deletes)[k := h.value]
  {
  }

  lemma {:induction false} OverlayErase<V>(parent: map<Key, V>, writes: map<Key, Holder<V>>, deletes: set<Key>, k: Key)
    requires writes.Keys !! deletes
    ensures Overlay(parent, writes - {k}, deletes + {k}) == Overlay(parent, writes, deletes) - {k}
  {
  }

  // ---- memory accounting ----

  function Cost<V>(writes: map<Key, Holder<V>>, k: Key): nat {
    |k| + if k in writes then writes[k].memoryUsage else 0
  }

  ghost function TotalCost<V>(writes: map<Key, Holder<V>>, keys: set<Key>): nat {
    if keys == {} then 0
    else
      var k :| k in keys;
      Cost(writes, k) + TotalCost(writes, keys - {k})
  }

  lemma {:induction false} TotalRemove<V>(writes: map<Key, Holder<V>>, keys: set<Key>, k: Key)
    requires k in keys
    ensures TotalCost(writes, keys) == Cost(writes, k) + TotalCost(writes, keys - {k})
    decreases |keys|
  {
    var p :| p in keys && TotalCost(writes, keys) == Cost(writes, p) + TotalCost(writes, keys - {p});
    if p != k {
      TotalRemove(writes, keys - {p}, k);
      TotalRemove(writes, keys - {k}, p);
      assert keys - {p} - {k} == keys - {k} - {p};
    }
  }

  lemma {:induction false} TotalSame<V>(writes: map<Key, Holder<V>>, writes': map<Key, Holder<V>>, keys: set<Key>)
    requires forall k | k in keys :: Cost(writes, k) == Cost(writes', k)
    ensures TotalCost(writes, keys) == TotalCost(writes', keys)
    decreases |keys|
  {
    if keys != {} {
      var k :| k in keys;
      TotalRemove(writes, keys, k);
      TotalRemove(writes', keys, k);
      TotalSame(writes, writes', keys - {k});
    }
  }

  /** What everything held back costs. */
  ghost function Usage<V>(writes: map<Key, Holder<V>>, deletes: set<Key>): nat {
    TotalCost(writes, writes.Keys + deletes)
  }

  /** Replacing what is held for one key changes the total by the difference. */
  lemma {:induction false} UsageChange<V>(writes: map<Key, Holder<V>>, deletes: set<Key>,
      writes': map<Key, Holder<V>>, deletes': set<Key>, k: Key)
    requires writes' - {k} == writes - {k} && deletes' - {k} == deletes - {k}
    ensures Usage(writes', deletes') - (if k in writes' || k in deletes' then Cost(writes', k) else 0)
         == Usage(writes, deletes) - (if k in writes || k in deletes then Cost(writes, k) else 0)
  {
    var all, all' := writes.Keys + deletes, writes'.Keys + deletes';
    forall j | j != k ensures (j in writes <==> j in writes') && (j in writes ==> writes[j] == writes'[j])
                           && (j in deletes <==> j in deletes') {
      assert j in writes <==> j in writes - {k};
      assert j in writes' <==> j in writes' - {k};
      assert j in deletes <==> j in deletes - {k};
      assert j in writes ==> (writes - {k})[j] == (writes' - {k})[j];
    }
    assert all - {k} == all' - {k};
    TotalSame(writes, writes', all - {k});
    if k in all { TotalRemove(writes, all, k); } else { assert all - {k} == all; }
    if k in all' { TotalRemove(writes', all', k); } else { assert all' - {k} == all'; }
  }

  // ---- stores and transactions ----

  class Store<V> {
    var data: map<Key, V>

    constructor (data: map<Key, V>)
      ensures this.data == data
    {
      this.data := data;
    }

    method Write(k: Key, v: V)
      modifies this
      ensures data == old(data)[k := v]
    {
      data := data[k := v];
    }

    method Erase(k: Key)
      modifies this
      ensures data == old(data) - {k}
    {
      data := data - {k};
    }
  }

  /** Transactions form a stack: one reads through the one below it and commits to that; the lowest reads the store and
      commits to a batch. */
  class Transaction<V> {
    const below: Transaction?<V>
    const store: Store<V>
    const batch: Store<V>
    /** How many bytes a value takes when serialized. */
    const sizeOf: V -> nat
    /** What this transaction and those below it read. */
    ghost const Repr: set<object>
    ghost const Depth: nat
    var memoryUsage: int
    var writes: map<Key, Holder<V>>
    var deletes: set<Key>

    /** The shape of the stack, fixed at construction. */
    ghost predicate Wf()
      decreases Depth
    {
      if below == null then Depth == 0 && Repr == {this, store}
      else
        && Depth == below.Depth + 1 && below.store == store && below.batch == batch
        && this !in below.Repr && Repr == {this} + below.Repr && below.Wf()
    }

    lemma WfFacts()
      requires Wf()
      ensures this in Repr && store in Repr
      decreases Depth
    {
      if below != null { below.WfFacts(); }
    }

    ghost predicate Own()
      reads this
    {
      writes.Keys !! deletes && memoryUsage == Usage(writes, deletes)
    }

    ghost predicate Valid()
      reads Repr
      decreases Depth
    {
      Wf() && this in Repr && Own() && (below != null ==> below.Valid())
    }

    /** What lies below. */
    ghost function Parent(): map<Key, V>
      requires Wf()
      reads Repr
      decreases Depth, 0
    {
      WfFacts();
      if below == null then store.data else below.View()
    }

    /** What a reader sees. */
    ghost function View(): map<Key, V>
      requires Wf()
      reads Repr
      decreases Depth, 1
    {
      WfFacts();
      Overlay(Parent(), writes, deletes)
    }

    /** The type under which the pending value of a key was written, here or further down. */
    ghost function PendingType(k: Key): Option<nat>
      requires Wf()
      reads Repr
      decreases Depth
    {
      WfFacts();
      if k in deletes then None
      else if k in writes then Some(writes[k].typeId)
      else if below == null then None else below.PendingType(k)
    }

    /** A transaction over the store. */
    constructor OnStore(store: Store<V>, batch: Store<V>, sizeOf: V -> nat)
      ensures Valid() && View() == Parent() == store.data && below == null
      ensures this.store == store && this.batch == batch && this.sizeOf == sizeOf
    {
      below, this.store, this.batch, this.sizeOf := null, store, batch, sizeOf;
      memoryUsage, writes, deletes := 0, map[], {};
      Repr, Depth := {this, store}, 0;
    }

    /** A transaction over another one. */
    constructor OnTransaction(below: Transaction<V>)
      requires below.Valid()
      ensures Valid() && View() == Parent() == below.View() && this.below == below
    {
      this.below, store, batch, sizeOf := below, below.store, below.batch, below.sizeOf;
      memoryUsage, writes, deletes := 0, map[], {};
      Repr, Depth := {this} + below.Repr, below.Depth + 1;
    }

    /** Changing this transaction alone changes nothing below. */
    twostate lemma ParentUnchanged()
      requires Wf() && old(Valid()) && unchanged(Repr - {this})
      ensures Parent() == old(Parent()) && (below != null ==> below.Valid())
    {
      WfFacts();
    }

    method Write(k: Key, v: V, typeId: nat)
      requires Valid()
      modifies this
      ensures Valid() && View() == old(View())[k := v] && Parent() == old(Parent())
      ensures writes == old(writes)[k := Holder(v, typeId, sizeOf(v))] && deletes == old(deletes) - {k}
      ensures memoryUsage == old(memoryUsage) + |k| + sizeOf(v)
                - (if k in old(deletes) then |k| else 0)
                - (if k in old(writes) then |k| + old(writes)[k].memoryUsage else 0)
    {
      hide Usage, Overlay;
      var size := sizeOf(v);
      OverlayWrite(Parent(), writes, deletes, k, Holder(v, typeId, size));
      UsageChange(writes, deletes, writes[k := Holder(v, typeId, size)], deletes - {k}, k);
      if k in deletes {
        deletes := deletes - {k};
        memoryUsage := memoryUsage - |k|;
      }
      if k in writes {
        memoryUsage := memoryUsage - (|k| + writes[k].memoryUsage);
      }
      writes := writes[k := Holder(v, typeId, size)];
      memoryUsage := memoryUsage + |k| + size;
      assert deletes == old(deletes) - {k};
      ParentUnchanged();
    }

    method Read(k: Key, typeId: nat) returns (r: ReadResult<V>)
      requires Valid()
      ensures r == WrongType <==> PendingType(k).Some? && PendingType(k).value != typeId
      ensures r != WrongType ==> r == if k in View() then Found(View()[k]) else NotFound
      decreases Depth
    {
      if k in deletes {
        return NotFound;
      }
      if k in writes {
        return if writes[k].typeId == typeId then Found(writes[k].value) else WrongType;
      }
      if below == null {
        return if k in store.data then Found(store.data[k]) else NotFound;
      }
      r := below.Read(k, typeId);
    }

    method Exists(k: Key) returns (r: bool)
      requires Valid()
      ensures r <==> k in View()
      decreases Depth
    {
      if k in deletes {
        return false;
      }
      if k in writes {
        return true;
      }
      if below == null {
        return k in store.data;
      }
      r := below.Exists(k);
    }

    method Erase(k: Key)
      requires Valid()
      modifies this
      ensures Valid() && View() == old(View()) - {k} && Parent() == old(Parent())
      ensures writes == old(writes) - {k} && deletes == old(deletes) + {k}
      ensures memoryUsage == old(memoryUsage) + (if k in old(deletes) then 0 else |k|)
                - (if k in old(writes) then |k| + old(writes)[k].memoryUsage else 0)
    {
      hide Usage, Overlay;
      OverlayErase(Parent(), writes, deletes, k);
      UsageChange(writes, deletes, writes - {k}, deletes + {k}, k);
      if k in writes {
        memoryUsage := memoryUsage - (|k| + writes[k].memoryUsage);
        writes := writes - {k};
      }
      if k !in deletes {
        deletes := deletes + {k};
        memoryUsage := memoryUsage + |k|;
      }
      assert writes == old(writes) - {k} && deletes == old(deletes) + {k};
      ParentUnchanged();
    }

    method Clear()
      requires Wf() && (below != null ==> below.Valid())
      modifies this
      ensures Valid() && writes == map[] && deletes == {} && View() == Parent() == old(Parent())
    {
      WfFacts();
      writes, deletes, memoryUsage := map[], {}, 0;
    }

    /** Applies what was held back to the batch, whatever it holds, and starts over. */
    method CommitToBatch()
      requires Valid() && below == null && batch != store
      modifies this, batch
      ensures Valid() && writes == map[] && deletes == {} && Parent() == old(Parent())
      ensures batch.data == Overlay(old(batch.data), old(writes), old(deletes))
      ensures old(batch.data) == old(Parent()) ==> batch.data == old(View())
    {
      ghost var start := batch.data;
      var todo := deletes;
      while todo != {}
        modifies batch
        invariant todo <= deletes && batch.data == start - (deletes - todo)
      {
        var k :| k in todo;
        batch.Erase(k);
        todo := todo - {k};
      }
      var keys := writes.Keys;
      assert deletes - {} == deletes;
      while keys != {}
        modifies batch
        invariant keys <= writes.Keys
        invariant batch.data == Overlay(start, writes - keys, deletes)
      {
        var k :| k in keys;
        batch.Write(k, writes[k].value);
        keys := keys - {k};
      }
      assert writes - {} == writes;
      Clear();
    }

    /** Erases all of some keys, as a commit from above does. */
    method EraseAll(ks: set<Key>)
      requires Valid()
      modifies this
      ensures Valid() && View() == old(View()) - ks && Parent() == old(Parent())
      ensures writes == old(writes) - ks && deletes == old(deletes) + ks
    {
      hide Overlay, Usage;
      ghost var v, w, d := View(), writes, deletes;
      var todo := ks;
      NoneErased(v, w, d, ks);
      while todo != {}
        invariant todo <= ks && Valid() && Parent() == old(Parent()) && View() == v - (ks - todo)
        invariant writes == w - (ks - todo) && deletes == d + (ks - todo)
      {
        var k :| k in todo;
        OneMoreErased(v, w, d, ks, todo, k);
        Erase(k);
        todo := todo - {k};
      }
      assert ks - {} == ks;
    }

    /** Writes all of some pending values, as a commit from above does. */
    method WriteAll(ws: map<Key, Holder<V>>)
      requires Valid()
      modifies this
      ensures Valid() && View() == Overlay(old(View()), ws, {}) && Parent() == old(Parent())
      ensures deletes == old(deletes) - ws.Keys && writes.Keys == old(writes).Keys + ws.Keys
      ensures forall k | k in writes :: writes[k].typeId == if k in ws then ws[k].typeId else old(writes)[k].typeId
    {
      hide Overlay, Usage;
      ghost var v, w, d := View(), writes, deletes;
      var keys := ws.Keys;
      NothingWritten(v, ws);
      while keys != {}
        invariant keys <= ws.Keys && Valid() && Parent() == old(Parent()) && View() == Overlay(v, ws - keys, {})
        invariant deletes == d - (ws.Keys - keys) && writes.Keys == w.Keys + (ws.Keys - keys)
        invariant forall k | k in writes ::
                    writes[k].typeId == if k in ws && k !in keys then ws[k].typeId else w[k].typeId
      {
        var k :| k in keys;
        OneMoreWritten(v, ws, keys, k);
        Write(k, ws[k].value, ws[k].typeId);
        keys := keys - {k};
      }
      assert ws - {} == ws && ws.Keys - {} == ws.Keys;
    }

    /** The deletions first, then the writes. */
    method Apply(ks: set<Key>, ws: map<Key, Holder<V>>)
      requires Valid() && ks !! ws.Keys
      modifies this
      ensures Valid() && View() == Overlay(old(View()), ws, ks) && Parent() == old(Parent())
      ensures forall k | k !in ks && k !in ws :: PendingType(k) == old(PendingType(k))
      ensures forall k | k in ks :: PendingType(k) == None
      ensures forall k | k in ws :: PendingType(k) == Some(ws[k].typeId)
    {
      hide Overlay, Usage;
      WfFacts();
      EraseThenWrite(View(), ws, ks);
      EraseAll(ks);
      WriteAll(ws);
    }

    /** Hands what was held back to the transaction below: that now shows what this one showed, and so does this one,
        every value under its type. */
    method CommitDown()
      requires Valid() && below != null
      modifies this, below
      ensures Valid() && writes == map[] && deletes == {}
      ensures below.View() == old(View()) == View() && below.Parent() == old(below.Parent())
      ensures forall k :: below.PendingType(k) == old(PendingType(k)) == PendingType(k)
    {
      hide Overlay, Usage;
      WfFacts();
      below.WfFacts();
      below.Apply(deletes, writes);
      Clear();
    }
  }

  lemma {:induction false} NoneErased<V>(v: map<Key, V>, w: map<Key, Holder<V>>, d: set<Key>, ks: set<Key>)
    ensures v - (ks - ks) == v && w - (ks - ks) == w && d + (ks - ks) == d
  {
  }

  lemma {:induction false} OneMoreErased<V>(v: map<Key, V>, w: map<Key, Holder<V>>, d: set<Key>, ks: set<Key>,
      todo: set<Key>, k: Key)
    requires k in todo && todo <= ks
    ensures v - (ks - todo) - {k} == v - (ks - (todo - {k})) && w - (ks - todo) - {k} == w - (ks - (todo - {k}))
    ensures d + (ks - todo) + {k} == d + (ks - (todo - {k}))
  {
    assert ks - (todo - {k}) == (ks - todo) + {k};
  }

  lemma {:induction false} NothingWritten<V>(start: map<Key, V>, ws: map<Key, Holder<V>>)
    ensures Overlay(start, ws - ws.Keys, {}) == start
  {
  }

  lemma {:induction false} OneMoreWritten<V>(start: map<Key, V>, ws: map<Key, Holder<V>>, keys: set<Key>, k: Key)
    requires k in keys && keys <= ws.Keys
    ensures Overlay(start, ws - (keys - {k}), {}) == Overlay(start, ws - keys, {})[k := ws[k].value]
  {
  }

  lemma {:induction false} EraseThenWrite<V>(start: map<Key, V>, writes: map<Key, Holder<V>>, deletes: set<Key>)
    ensures Overlay(start - deletes, writes, {}) == Overlay(start, writes, deletes)
  {
  }

  // ---- the merging iterator ----

  predicate Increasing(keys: seq<Key>) {
    forall i, j | 0 <= i < j < |keys| :: Less(keys[i], keys[j])
  }

  ghost function Elements(keys: seq<Key>): set<Key> { set k | k in keys }

  lemma {:induction false} IncreasingUnique(keys: seq<Key>, i: nat, j: nat)
    requires Increasing(keys) && i < |keys| && j < |keys| && keys[i] == keys[j]
    ensures i == j
  {
    LessIrreflexive(keys[i]);
  }

  /** The keys of a set in order: what an ordered container iterates over. */
  method SortKeys(keys: set<Key>) returns (sorted: seq<Key>)
    ensures Increasing(sorted) && Elements(sorted) == keys
  {
    sorted := [];
    var todo := keys;
    while todo != {}
      invariant todo <= keys && Increasing(sorted) && Elements(sorted) == keys - todo
    {
      var k :| k in todo;
      var i := LowerBound(sorted, k);
      InsertKeepsOrder(sorted, i, k);
      sorted := sorted[..i] + [k] + sorted[i..];
      todo := todo - {k};
    }
  }

  /** The first position whose key is not less than `k`. */
  method LowerBound(keys: seq<Key>, k: Key) returns (i: nat)
    requires Increasing(keys)
    ensures i <= |keys|
    ensures forall j | 0 <= j < i :: Less(keys[j], k)
    ensures forall j | i <= j < |keys| :: !Less(keys[j], k)
  {
    i := 0;
    while i < |keys| && Less(keys[i], k)
      invariant 0 <= i <= |keys| && forall j | 0 <= j < i :: Less(keys[j], k)
    {
      i := i + 1;
    }
    forall j | i <= j < |keys| ensures !Less(keys[j], k) {
      if j > i && Less(keys[j], k) { LessTransitive(keys[i], keys[j], k); }
    }
  }

  lemma {:induction false} InsertKeepsOrder(keys: seq<Key>, i: nat, k: Key)
    requires Increasing(keys) && i <= |keys| && k !in keys
    requires forall j | 0 <= j < i :: Less(keys[j], k)
    requires forall j | i <= j < |keys| :: !Less(keys[j], k)
    ensures Increasing(keys[..i] + [k] + keys[i..])
    ensures Elements(keys[..i] + [k] + keys[i..]) == Elements(keys) + {k}
  {
    var r := keys[..i] + [k] + keys[i..];
    forall j | i <= j < |keys| ensures Less(k, keys[j]) {
      assert keys[j] in keys;
      LessTotal(k, keys[j]);
    }
    forall a, b | 0 <= a < b < |r| ensures Less(r[a], r[b]) {
      assert a < i ==> r[a] == keys[a];
      assert a > i ==> r[a] == keys[a - 1];
      assert b < i ==> r[b] == keys[b];
      assert b > i ==> r[b] == keys[b - 1];
    }
    forall x | x in Elements(keys) + {k} ensures x in r {
      if x != k {
        var j :| 0 <= j < |keys| && keys[j] == x;
        assert r[if j < i then j else j + 1] == x;
      } else {
        assert r[i] == k;
      }
    }
  }

  ghost predicate Least(k: Key, keys: set<Key>) {
    k in keys && forall x | x in keys && x != k :: Less(k, x)
  }

  lemma {:induction false} LeastUnique(k: Key, keys: set<Key>)
    requires Least(k, keys)
    ensures forall j | Least(j, keys) :: j == k
  {
    forall j | Least(j, keys) ensures j == k {
      if j != k {
        LessTransitive(j, k, j);
        LessIrreflexive(j);
      }
    }
  }

  ghost predicate Before(keys: seq<Key>, ahead: set<Key>) {
    forall x, y | x in keys && y in ahead :: Less(x, y)
  }

  /** Moving the least key from what lies ahead to the end of what was seen. */
  lemma {:induction false} AppendLeast(keys: seq<Key>, ahead: set<Key>, k: Key)
    requires Increasing(keys) && Before(keys, ahead) && Least(k, ahead)
    ensures Increasing(keys + [k]) && Before(keys + [k], ahead - {k})
    ensures Elements(keys + [k]) + (ahead - {k}) == Elements(keys) + ahead
  {
    hide Less;
    var r := keys + [k];
    forall i, j | 0 <= i < j < |r| ensures Less(r[i], r[j]) {
      assert r[i] == keys[i] && keys[i] in keys;
    }
    forall x | x in Elements(keys) + {k} ensures x in r {
      assert r[|keys|] == k;
    }
  }

  class TransactionIterator<V> {
    const transaction: Transaction<V>
    /** The two key orders iterated over, and the cursors into them. */
    const writeKeys: seq<Key>
    const parentKeys: seq<Key>
    var writeAt: nat
    var parentAt: nat
    var parentKey: Key
    var curIsParent: bool

    /** A parent key that the transaction neither deleted nor overwrote. */
    ghost predicate Shows(k: Key)
      reads transaction
    {
      k !in transaction.deletes && k !in transaction.writes
    }

    ghost predicate Wf()
      reads this, transaction.Repr
    {
      && transaction.Valid() && this !in transaction.Repr
      && Increasing(writeKeys) && Elements(writeKeys) == transaction.writes.Keys
      && Increasing(parentKeys) && Elements(parentKeys) == transaction.Parent().Keys
      && writeAt <= |writeKeys| && parentAt <= |parentKeys|
    }

    /** The parent cursor rests on a visible key, and the flag points at the smaller cursor. */
    ghost predicate Settled()
      requires Wf()
      reads this, transaction.Repr
    {
      && (parentAt < |parentKeys| ==> parentKey == parentKeys[parentAt] && Shows(parentKey))
      && (writeAt < |writeKeys| || parentAt < |parentKeys| ==>
            (curIsParent <==> parentAt < |parentKeys| &&
                              (writeAt == |writeKeys| || !Less(writeKeys[writeAt], parentKeys[parentAt]))))
    }

    ghost predicate Valid()
      reads this, transaction.Repr
    {
      Wf() && Settled()
    }

    /** The visible keys still ahead. */
    ghost function Ahead(): set<Key>
      requires Wf()
      reads this, transaction.Repr
    {
      Elements(writeKeys[writeAt..]) + set k | k in Elements(parentKeys[parentAt..]) && Shows(k)
    }

    /** A new iterator; like the source's it must be positioned before use. */
    constructor (transaction: Transaction<V>)
      requires transaction.Valid()
      ensures Wf() && this.transaction == transaction
      decreases transaction.Depth, 0
    {
      this.transaction := transaction;
      var w := SortKeys(transaction.writes.Keys);
      var p: seq<Key>;
      if transaction.below == null {
        p := SortKeys(transaction.store.data.Keys);
      } else {
        p := Iterate(transaction.below);
      }
      writeKeys, parentKeys := w, p;
      writeAt, parentAt, parentKey, curIsParent := |w|, |p|, [], false;
    }

    method SkipDeletedAndOverwritten()
      requires Wf()
      modifies this`parentAt, this`parentKey
      ensures Wf() && Ahead() == old(Ahead())
      ensures parentAt < |parentKeys| ==> parentKey == parentKeys[parentAt] && Shows(parentKey)
    {
      hide Increasing, Overlay, Usage;
      while parentAt < |parentKeys|
        invariant parentAt <= |parentKeys| && Ahead() == old(Ahead())
      {
        parentKey := parentKeys[parentAt];
        if parentKey !in transaction.deletes && parentKey !in transaction.writes {
          break;
        }
        HiddenFirst();
        parentAt := parentAt + 1;
      }
    }

    /** A hidden parent key at the cursor is not among those ahead. */
    lemma HiddenFirst()
      requires Wf() && parentAt < |parentKeys| && !Shows(parentKeys[parentAt])
      ensures Ahead() == Elements(writeKeys[writeAt..]) + set k | k in Elements(parentKeys[parentAt + 1..]) && Shows(k)
    {
      DropFirst(parentKeys, parentAt);
    }

    method DecideCur()
      requires Wf()
      requires parentAt < |parentKeys| ==> parentKey == parentKeys[parentAt] && Shows(parentKey)
      modifies this`curIsParent
      ensures Valid() && Ahead() == old(Ahead())
    {
      if writeAt < |writeKeys| && parentAt == |parentKeys| {
        curIsParent := false;
      } else if writeAt == |writeKeys| && parentAt < |parentKeys| {
        curIsParent := true;
      } else if writeAt < |writeKeys| && parentAt < |parentKeys| {
        curIsParent := !Less(writeKeys[writeAt], parentKey);
      }
    }

    /** Every visible key lies ahead. */
    method SeekToFirst()
      requires Wf()
      modifies this
      ensures Valid() && Ahead() == transaction.View().Keys
    {
      writeAt, parentAt := 0, 0;
      assert writeKeys[0..] == writeKeys && parentKeys[0..] == parentKeys;
      assert Ahead() == transaction.View().Keys;
      SkipDeletedAndOverwritten();
      DecideCur();
    }

    /** Exactly the visible keys not less than `k` lie ahead. */
    method Seek(k: Key)
      requires Wf()
      modifies this
      ensures Valid() && Ahead() == set x | x in transaction.View().Keys && !Precedes(x, k)
    {
      hide Less, Precedes;
      SoughtKeys(transaction.View().Keys, k);
      var w := LowerBound(writeKeys, k);
      var p := LowerBound(parentKeys, k);
      writeAt, parentAt := w, p;
      FromBound(writeKeys, w, k);
      FromBound(parentKeys, p, k);
      assert Ahead() == set x | x in transaction.View().Keys && !Less(x, k);
      SkipDeletedAndOverwritten();
      DecideCur();
    }

    method IsValid() returns (r: bool)
      requires Valid()
      ensures r <==> Ahead() != {}
    {
      r := writeAt < |writeKeys| || parentAt < |parentKeys|;
      if r { CurrentIsLeast(); }
      if !r { assert writeKeys[writeAt..] == [] && parentKeys[parentAt..] == []; }
    }

    /** The current key: the least of those ahead. */
    method GetKey() returns (k: Option<Key>)
      requires Valid()
      ensures k.None? <==> Ahead() == {}
      ensures k.Some? ==> Least(k.value, Ahead()) && forall x | x in Ahead() && x != k.value :: Precedes(k.value, x)
    {
      LessIsOrder();
      var valid := IsValid();
      if !valid {
        return None;
      }
      CurrentIsLeast();
      return Some(if curIsParent then parentKey else writeKeys[writeAt]);
    }

    lemma CurrentIsLeast()
      requires Valid() && (writeAt < |writeKeys| || parentAt < |parentKeys|)
      ensures curIsParent ==> parentAt < |parentKeys|
      ensures !curIsParent ==> writeAt < |writeKeys|
      ensures Least(if curIsParent then parentKeys[parentAt] else writeKeys[writeAt], Ahead())
    {
      var k := if curIsParent then parentKeys[parentAt] else writeKeys[writeAt];
      assert writeAt < |writeKeys| ==> writeKeys[writeAt] in writeKeys[writeAt..] && writeKeys[writeAt] in writeKeys;
      assert parentAt < |parentKeys| ==> parentKeys[parentAt] in parentKeys[parentAt..];
      if writeAt < |writeKeys| && parentAt < |parentKeys| { LessTotal(writeKeys[writeAt], parentKeys[parentAt]); }
      forall x | x in Ahead() && x != k ensures Less(k, x) {
        if x in Elements(writeKeys[writeAt..]) {
          var i :| writeAt <= i < |writeKeys| && writeKeys[i] == x;
          if curIsParent && i > writeAt { LessTransitive(k, writeKeys[writeAt], x); }
        } else {
          var i :| parentAt <= i < |parentKeys| && parentKeys[i] == x;
          if !curIsParent && i > parentAt { LessTransitive(k, parentKeys[parentAt], x); }
        }
      }
    }

    /** Leaves the current key behind and no other. */
    method Next()
      requires Valid()
      modifies this
      ensures Valid()
      ensures old(Ahead()) == {} ==> Ahead() == {}
      ensures forall k | Least(k, old(Ahead())) :: Ahead() == old(Ahead()) - {k}
    {
      if writeAt == |writeKeys| && parentAt == |parentKeys| {
        return;
      }
      CurrentIsLeast();
      ghost var k := if curIsParent then parentKeys[parentAt] else writeKeys[writeAt];
      LeastUnique(k, Ahead());
      if curIsParent {
        DropFirst(parentKeys, parentAt);
        parentAt := parentAt + 1;
        assert Ahead() == old(Ahead()) - {k};
        SkipDeletedAndOverwritten();
      } else {
        DropFirst(writeKeys, writeAt);
        assert writeKeys[writeAt] in writeKeys;
        writeAt := writeAt + 1;
        assert Ahead() == old(Ahead()) - {k};
      }
      DecideCur();
    }
  }

  lemma {:induction false} DropFirst(keys: seq<Key>, i: nat)
    requires Increasing(keys) && i < |keys|
    ensures Elements(keys[i..]) == Elements(keys[i + 1..]) + {keys[i]}
    ensures keys[i] !in keys[i + 1..]
  {
    assert keys[i..] == [keys[i]] + keys[i + 1..];
    if keys[i] in keys[i + 1..] {
      var j :| i + 1 <= j < |keys| && keys[j] == keys[i];
      IncreasingUnique(keys, i, j);
    }
  }

  lemma {:induction false} FromBound(keys: seq<Key>, i: nat, k: Key)
    requires i <= |keys|
    requires forall j | 0 <= j < i :: Less(keys[j], k)
    requires forall j | i <= j < |keys| :: !Less(keys[j], k)
    ensures forall x :: x in Elements(keys[i..]) <==> x in keys && !Less(x, k)
  {
    forall x | x in keys && !Less(x, k) ensures x in keys[i..] {
      var j :| 0 <= j < |keys| && keys[j] == x;
      assert keys[i..][j - i] == x;
    }
  }

  /** What is still ahead of an iterator, in order. */
  method Collect<V>(it: TransactionIterator<V>) returns (keys: seq<Key>)
    requires it.Valid()
    modifies it
    ensures Increasing(keys) && Elements(keys) == old(it.Ahead())
  {
    hide Less, Increasing, Before, Least, Elements, Overlay, Usage;
    hide TransactionIterator.Wf, TransactionIterator.Settled, TransactionIterator.Ahead;
    ghost var visible := it.Ahead();
    keys := [];
    EmptyBefore(it.Ahead());
    var k := it.GetKey();
    while k.Some?
      invariant it.Valid()
      invariant Increasing(keys) && Before(keys, it.Ahead())
      invariant Elements(keys) + it.Ahead() == visible
      invariant k.None? <==> it.Ahead() == {}
      invariant k.Some? ==> Least(k.value, it.Ahead())
      decreases it.Ahead()
    {
      ghost var ahead := it.Ahead();
      AppendLeast(keys, ahead, k.value);
      LeastIsMember(k.value, ahead);
      keys := keys + [k.value];
      it.Next();
      assert it.Ahead() == ahead - {k.value};
      k := it.GetKey();
    }
  }

  /** A full iteration yields every visible key exactly once, in increasing order, on a stack of any height. */
  method Iterate<V>(transaction: Transaction<V>) returns (keys: seq<Key>)
    requires transaction.Valid()
    ensures Increasing(keys) && Elements(keys) == transaction.View().Keys
    ensures forall i, j | 0 <= i < j < |keys| :: Precedes(keys[i], keys[j])
    decreases transaction.Depth, 1
  {
    hide Less, Elements, Overlay, Usage, TransactionIterator.Ahead, Precedes;
    LessIsOrder();
    var it := new TransactionIterator<V>(transaction);
    it.SeekToFirst();
    keys := Collect(it);
  }

  lemma {:induction false} LeastIsMember(k: Key, keys: set<Key>)
    requires Least(k, keys)
    ensures k in keys && keys - {k} < keys
  {
  }

  lemma {:induction false} EmptyBefore(ahead: set<Key>)
    ensures Increasing([]) && Before([], ahead) && Elements([]) == {}
  {
  }
}
