/** The slots of the cuckoo cache as values: which elements are live, where an element may sit,
    and what one move of the insertion loop does.  Module CuckooCache has the class. */
module CuckooTable {

  /** `written` are the slots some insertion has claimed; the others still hold the blank
      element the table was created with and are marked as garbage. */
  datatype Slots<!E> = Slots(table: seq<E>, garbage: seq<bool>, epoch: seq<bool>, written: set<nat>) {

    predicate Sized() { |table| == |garbage| == |epoch| }

    /** The elements a lookup may still rely on. */
    ghost function Live(): set<E>
      requires Sized()
    {
      set i | 0 <= i < |table| && !garbage[i] :: table[i]
    }

    /** Those of the current epoch, or those of the one before. */
    ghost function Of(recent: bool): set<E>
      requires Sized()
    {
      set i | 0 <= i < |table| && !garbage[i] && epoch[i] == recent :: table[i]
    }

    /** Everything ever put in a slot and not overwritten since. */
    ghost function Stored(): set<E>
      requires Sized()
    {
      set i | 0 <= i < |table| && i in written :: table[i]
    }
  }

  /** The eight places of an element, as slot numbers below `size`. */
  ghost predicate Places<E(!new)>(locs: E -> seq<nat>, size: nat) {
    forall e :: |locs(e)| == 8 && forall k | 0 <= k < 8 :: locs(e)[k] < size
  }

  ghost predicate Good<E(!new)>(s: Slots<E>, locs: E -> seq<nat>, blank: E) {
    && s.Sized()
    && (forall i | 0 <= i < |s.table| && i !in s.written :: s.garbage[i] && s.table[i] == blank)
    && (forall i | i in s.written :: i < |s.table| && i in locs(s.table[i]))
    && (forall i, j | i in s.written && j in s.written && s.table[i] == s.table[j] :: i == j)
    && (forall i | i in s.written && s.table[i] == blank :: NoUnwrittenBefore(s.written, locs(blank), i))
  }

  /** The search for `i` among `places` meets no unwritten slot first. */
  ghost predicate NoUnwrittenBefore(written: set<nat>, places: seq<nat>, i: nat) {
    exists k :: 0 <= k < |places| && places[k] == i && forall j | 0 <= j < k :: places[j] in written
  }

  function CountCurrent(garbage: seq<bool>, epoch: seq<bool>): nat
    requires |garbage| == |epoch|
  {
    if garbage == [] then 0
    else
      var last := |garbage| - 1;
      CountCurrent(garbage[..last], epoch[..last]) + if epoch[last] && !garbage[last] then 1 else 0
  }

  /** As every live element sits in one slot, the slots counted are the elements of the current epoch. */
  lemma {:induction false} CountIsSize<E(!new)>(s: Slots<E>, locs: E -> seq<nat>, blank: E)
    requires Good(s, locs, blank)
    ensures CountCurrent(s.garbage, s.epoch) == |s.Of(true)|
  {
    var n := |s.table|;
    assert forall i | 0 <= i < n && !s.garbage[i] :: i in s.written;
    CountUpTo(s, n);
    assert s.garbage[..n] == s.garbage && s.epoch[..n] == s.epoch;
    assert OfUpTo(s, n) == s.Of(true);
  }

  ghost function OfUpTo<E(!new)>(s: Slots<E>, n: nat): set<E>
    requires s.Sized() && n <= |s.table|
  {
    set i | 0 <= i < n && !s.garbage[i] && s.epoch[i] :: s.table[i]
  }

  lemma {:induction false} CountUpTo<E(!new)>(s: Slots<E>, n: nat)
    requires s.Sized() && n <= |s.table|
    requires forall i, j | 0 <= i < j < |s.table| && !s.garbage[i] && !s.garbage[j] :: s.table[i] != s.table[j]
    ensures CountCurrent(s.garbage[..n], s.epoch[..n]) == |OfUpTo(s, n)|
  {
    if n > 0 {
      CountUpTo(s, n - 1);
      var m := n - 1;
      assert s.garbage[..n][..m] == s.garbage[..m] && s.epoch[..n][..m] == s.epoch[..m];
      if s.epoch[m] && !s.garbage[m] {
        assert OfUpTo(s, n) == OfUpTo(s, m) + {s.table[m]};
        assert s.table[m] !in OfUpTo(s, m);
      } else {
        assert OfUpTo(s, n) == OfUpTo(s, m);
      }
    }
  }

  /** Slot `i` claimed for `e`, live, with the given age. */
  function Put<E>(s: Slots<E>, i: nat, e: E, recent: bool): Slots<E>
    requires s.Sized() && i < |s.table|
  {
    Slots(s.table[i := e], s.garbage[i := false], s.epoch[i := recent], s.written + {i})
  }

  /** The first place holding `e` is claimed again: nothing moves. */
  lemma {:induction false} KeepFound<E(!new)>(s: Slots<E>, locs: E -> seq<nat>, blank: E, e: E, k: nat)
    requires Good(s, locs, blank) && Places(locs, |s.table|) && k < 8
    requires s.table[locs(e)[k]] == e && forall j | 0 <= j < k :: s.table[locs(e)[j]] != e
    ensures var s' := Put(s, locs(e)[k], e, true);
            && Good(s', locs, blank) && s'.table == s.table
            && s'.Of(true) == s.Of(true) + {e} && s'.Of(false) == s.Of(false) - {e}
  {
    var i := locs(e)[k];
    var s' := Put(s, i, e, true);
    assert s'.table == s.table;
    FoundOnce(s, locs, blank, e, k);
    hide NoUnwrittenBefore;
    forall n | n in s'.written && s'.table[n] == blank ensures NoUnwrittenBefore(s'.written, locs(blank), n) {
      if n in s.written {
        MoreWritten(s.written, s'.written, locs(blank), n);
      } else {
        SearchMeets(s'.written, locs(blank), k);
      }
    }
    KeptAges(s, locs, blank, i);
  }

  /** Dating a slot anew moves its element to the current epoch, or brings it back there. */
  lemma {:induction false} KeptAges<E(!new)>(s: Slots<E>, locs: E -> seq<nat>, blank: E, i: nat)
    requires Good(s, locs, blank) && i < |s.table|
    requires forall n | n in s.written && s.table[n] == s.table[i] :: n == i
    ensures var s' := Put(s, i, s.table[i], true);
            s'.Of(true) == s.Of(true) + {s.table[i]} && s'.Of(false) == s.Of(false) - {s.table[i]}
  {
    var s' := Put(s, i, s.table[i], true);
    assert forall n | 0 <= n < |s.table| && !s.garbage[n] :: n in s.written;
    forall x | x in s.Of(true) + {s.table[i]} ensures x in s'.Of(true) {
      if x == s.table[i] {
        assert s'.table[i] == x;
      } else {
        var n :| 0 <= n < |s.table| && !s.garbage[n] && s.epoch[n] && s.table[n] == x;
        assert s'.table[n] == x && !s'.garbage[n] && s'.epoch[n];
      }
    }
    forall x | x in s.Of(false) - {s.table[i]} ensures x in s'.Of(false) {
      var n :| 0 <= n < |s.table| && !s.garbage[n] && !s.epoch[n] && s.table[n] == x;
      assert s'.table[n] == x && !s'.garbage[n] && !s'.epoch[n];
    }
  }

  /** The first place that holds an element is the only written one that does. */
  lemma {:induction false} FoundOnce<E(!new)>(s: Slots<E>, locs: E -> seq<nat>, blank: E, e: E, k: nat)
    requires Good(s, locs, blank) && Places(locs, |s.table|) && k < 8
    requires s.table[locs(e)[k]] == e && forall j | 0 <= j < k :: s.table[locs(e)[j]] != e
    ensures forall n | n in s.written && s.table[n] == e :: n == locs(e)[k]
    ensures e == blank ==> forall j | 0 <= j < k :: locs(e)[j] in s.written
  {
    var i := locs(e)[k];
    forall n | n in s.written && s.table[n] == e ensures n == i {
      assert n in locs(e);
      if e == blank {
        var m :| 0 <= m < 8 && locs(blank)[m] == n && forall j | 0 <= j < m :: locs(blank)[j] in s.written;
        assert i in s.written || m <= k;
      }
    }
  }

  lemma {:induction false} NotFoundNotStored<E(!new)>(s: Slots<E>, locs: E -> seq<nat>, blank: E, e: E)
    requires Good(s, locs, blank) && Places(locs, |s.table|)
    requires forall k | 0 <= k < 8 :: s.table[locs(e)[k]] != e
    ensures e !in s.Stored() && e !in s.Of(true) && e !in s.Of(false)
  {
    assert forall i | 0 <= i < |s.table| && !s.garbage[i] :: i in s.written;
    forall i | i in s.written ensures s.table[i] != e {
      assert i in locs(s.table[i]);
    }
  }

  /** One of the places is marked as garbage. */
  predicate AnyFree<E>(s: Slots<E>, places: seq<nat>)
    requires s.Sized() && |places| == 8 && forall j | 0 <= j < 8 :: places[j] < |s.table|
  {
    exists k :: 0 <= k < 8 && s.garbage[places[k]]
  }

  /** A new element claims one of its places: the first one marked as garbage, or any of them
      when none is. */
  predicate MayClaim<E>(s: Slots<E>, places: seq<nat>, k: nat)
    requires s.Sized() && |places| == 8 && forall j | 0 <= j < 8 :: places[j] < |s.table|
  {
    && k < 8
    && (s.garbage[places[k]] ==> forall j | 0 <= j < k :: !s.garbage[places[j]])
    && (!s.garbage[places[k]] ==> forall j | 0 <= j < 8 :: !s.garbage[places[j]])
  }

  /** The claim keeps every stored element at one of its own places and unique; the element that
      lived there, if any, is out of the table. */
  lemma {:induction false} Claim<E(!new)>(s: Slots<E>, locs: E -> seq<nat>, blank: E, e: E, k: nat, recent: bool)
    requires Good(s, locs, blank) && Places(locs, |s.table|) && e !in s.Stored()
    requires MayClaim(s, locs(e), k)
    ensures var i, s' := locs(e)[k], Put(s, locs(e)[k], e, recent);
            && Good(s', locs, blank) && s'.Of(recent) == s.Of(recent) - Holder(s, i) + {e}
            && s'.Of(!recent) == s.Of(!recent) - Holder(s, i)
            && (!s.garbage[i] ==>
                  s.table[i] in s.Of(s.epoch[i]) && s.table[i] !in s.Of(!s.epoch[i]) && s.table[i] !in s'.Stored())
  {
    ClaimGood(s, locs, blank, e, k, recent);
    hide Good;
    ClaimAges(s, locs, blank, e, locs(e)[k], recent);
  }

  /** The live element of a slot. */
  ghost function Holder<E(!new)>(s: Slots<E>, i: nat): set<E>
    requires s.Sized() && i < |s.table|
  {
    if s.garbage[i] then {} else {s.table[i]}
  }

  lemma {:induction false} ClaimGood<E(!new)>(s: Slots<E>, locs: E -> seq<nat>, blank: E, e: E, k: nat, recent: bool)
    requires Good(s, locs, blank) && Places(locs, |s.table|) && e !in s.Stored()
    requires MayClaim(s, locs(e), k)
    ensures Good(Put(s, locs(e)[k], e, recent), locs, blank)
  {
    hide NoUnwrittenBefore;
    var i := locs(e)[k];
    var s' := Put(s, i, e, recent);
    forall n | n in s.written ensures s.table[n] != e {
      assert s.table[n] in s.Stored();
    }
    assert forall j | 0 <= j < k :: locs(e)[j] in s.written;
    if e == blank { SearchMeets(s'.written, locs(blank), k); }
    forall n | n in s'.written && s'.table[n] == blank ensures NoUnwrittenBefore(s'.written, locs(blank), n) {
      if n != i { MoreWritten(s.written, s'.written, locs(blank), n); }
    }
  }

  lemma {:induction false} SearchMeets(written: set<nat>, places: seq<nat>, k: nat)
    requires k < |places| && forall j | 0 <= j < k :: places[j] in written
    ensures NoUnwrittenBefore(written, places, places[k])
  {
  }

  lemma {:induction false} MoreWritten(written: set<nat>, now: set<nat>, places: seq<nat>, i: nat)
    requires written <= now && NoUnwrittenBefore(written, places, i)
    ensures NoUnwrittenBefore(now, places, i)
  {
  }

  lemma {:induction false} ClaimAges<E(!new)>(s: Slots<E>, locs: E -> seq<nat>, blank: E, e: E, i: nat, recent: bool)
    requires Good(s, locs, blank) && i < |s.table| && e !in s.Stored()
    ensures var s' := Put(s, i, e, recent);
            && s'.Of(recent) == s.Of(recent) - Holder(s, i) + {e} && s'.Of(!recent) == s.Of(!recent) - Holder(s, i)
            && (!s.garbage[i] ==>
                  s.table[i] in s.Of(s.epoch[i]) && s.table[i] !in s.Of(!s.epoch[i]) && s.table[i] !in s'.Stored())
  {
    hide Good;
    ClaimAge(s, locs, blank, e, i, recent, recent);
    ClaimAge(s, locs, blank, e, i, recent, !recent);
    ClaimedFrom(s, locs, blank, e, i, recent);
  }

  lemma {:induction false} ClaimAge<E(!new)>(s: Slots<E>, locs: E -> seq<nat>, blank: E, e: E, i: nat, recent: bool,
      age: bool)
    requires Good(s, locs, blank) && i < |s.table| && e !in s.Stored()
    ensures Put(s, i, e, recent).Of(age) == s.Of(age) - Holder(s, i) + if age == recent then {e} else {}
  {
    var s' := Put(s, i, e, recent);
    assert forall n | 0 <= n < |s.table| && !s.garbage[n] :: n in s.written;
    if i in s.written { assert s.table[i] in s.Stored(); }
    forall x | x in s.Of(age) - Holder(s, i) ensures x in s'.Of(age) {
      var n :| 0 <= n < |s.table| && !s.garbage[n] && s.epoch[n] == age && s.table[n] == x;
      assert s'.table[n] == x && !s'.garbage[n] && s'.epoch[n] == age;
    }
    if age == recent { assert s'.table[i] == e && !s'.garbage[i] && s'.epoch[i] == age; }
    forall x | x in s'.Of(age) ensures (x == e && age == recent) || x in s.Of(age) - Holder(s, i) {
      var n :| 0 <= n < |s.table| && !s'.garbage[n] && s'.epoch[n] == age && s'.table[n] == x;
      if n != i { assert s.table[n] == x && !s.garbage[n] && s.epoch[n] == age; }
    }
  }

  lemma {:induction false} ClaimedFrom<E(!new)>(s: Slots<E>, locs: E -> seq<nat>, blank: E, e: E, i: nat, recent: bool)
    requires Good(s, locs, blank) && i < |s.table| && e !in s.Stored()
    ensures !s.garbage[i] ==>
              && s.table[i] in s.Of(s.epoch[i]) && s.table[i] !in s.Of(!s.epoch[i])
              && s.table[i] !in Put(s, i, e, recent).Stored()
  {
    assert forall n | 0 <= n < |s.table| && !s.garbage[n] :: n in s.written;
    if !s.garbage[i] { assert s.table[i] in s.Stored(); }
  }

  /** The old epoch becomes garbage and the current one old. */
  function Aged<E>(s: Slots<E>): Slots<E>
    requires s.Sized()
  {
    Slots(s.table, seq(|s.table|, i requires 0 <= i < |s.table| => s.garbage[i] || !s.epoch[i]),
          seq(|s.table|, _ => false), s.written)
  }

  /** Ageing makes the current epoch the old one, and nothing else stays live. */
  lemma {:induction false} AgedAges<E(!new)>(s: Slots<E>)
    requires s.Sized()
    ensures Aged(s).Of(true) == {} && Aged(s).Of(false) == s.Of(true)
  {
    var t := Aged(s);
    forall x | x in s.Of(true) ensures x in t.Of(false) {
      var i :| 0 <= i < |s.table| && !s.garbage[i] && s.epoch[i] && s.table[i] == x;
      assert !t.garbage[i] && !t.epoch[i] && t.table[i] == x;
    }
  }

  lemma {:induction false} NoneCurrent(garbage: seq<bool>, epoch: seq<bool>)
    requires |garbage| == |epoch| && forall i | 0 <= i < |epoch| :: !epoch[i]
    ensures CountCurrent(garbage, epoch) == 0
    decreases |garbage|
  {
    if garbage != [] { NoneCurrent(garbage[..|garbage| - 1], epoch[..|garbage| - 1]); }
  }

  /** A table that was never written to. */
  lemma {:induction false} AllBlank<E(!new)>(s: Slots<E>, locs: E -> seq<nat>, blank: E)
    requires s.Sized() && s.written == {} && forall i | 0 <= i < |s.table| :: s.garbage[i] && s.table[i] == blank
    ensures Good(s, locs, blank) && s.Live() == {}
  {
  }

  /** Slot `i` marked as garbage; its element stays where it is. */
  function Discard<E>(s: Slots<E>, i: nat): Slots<E>
    requires s.Sized() && i < |s.table|
  {
    s.(garbage := s.garbage[i := true])
  }

  lemma {:induction false} DiscardIs<E(!new)>(s: Slots<E>, i: nat)
    requires s.Sized() && i < |s.table|
    ensures Discard(s, i) == Slots(s.table, s.garbage[i := true], s.epoch, s.written)
    ensures Discard(s, i).Stored() == s.Stored()
  {
  }

  lemma {:induction false} DiscardLive<E(!new)>(s: Slots<E>, locs: E -> seq<nat>, blank: E, k: nat, e: E)
    requires Good(s, locs, blank) && Places(locs, |s.table|) && k < 8
    requires s.table[locs(e)[k]] == e && forall j | 0 <= j < k :: s.table[locs(e)[j]] != e
    ensures var s' := Discard(s, locs(e)[k]);
            && Good(s', locs, blank)
            && s'.Of(true) == s.Of(true) - {e} && s'.Of(false) == s.Of(false) - {e}
  {
    var i := locs(e)[k];
    var s' := Discard(s, i);
    FoundOnce(s, locs, blank, e, k);
    assert forall n | 0 <= n < |s.table| && !s.garbage[n] :: n in s.written;
    forall age, x | x in s.Of(age) - {e} ensures x in s'.Of(age) {
      var n :| 0 <= n < |s.table| && !s.garbage[n] && s.epoch[n] == age && s.table[n] == x;
      assert !s'.garbage[n] && s'.epoch[n] == age && s'.table[n] == x;
    }
  }

  /** Half-way through an insertion: the table plus the element in hand, with its age, make up
      the live elements of either age. */
  ghost predicate Carrying<E(!new)>(s: Slots<E>, locs: E -> seq<nat>, blank: E, hand: E, recent: bool,
      young: set<E>, old_: set<E>)
  {
    && Good(s, locs, blank) && Places(locs, |s.table|)
    && hand !in s.Stored() && hand !in s.Of(true) && hand !in s.Of(false)
    && young == (if recent then s.Of(true) + {hand} else s.Of(true))
    && old_ == (if recent then s.Of(false) else s.Of(false) + {hand})
  }

  lemma {:induction false} CarryingFacts<E(!new)>(s: Slots<E>, locs: E -> seq<nat>, blank: E,
      hand: E, recent: bool, young: set<E>, old_: set<E>)
    requires Carrying(s, locs, blank, hand, recent, young, old_)
    ensures Good(s, locs, blank) && s.Of(true) == young - {hand} && s.Of(false) == old_ - {hand} && hand in young + old_
  {
  }

  lemma {:induction false} StartCarrying<E(!new)>(s: Slots<E>, locs: E -> seq<nat>, blank: E, e: E)
    requires Good(s, locs, blank) && Places(locs, |s.table|)
    requires forall k | 0 <= k < 8 :: s.table[locs(e)[k]] != e
    ensures Carrying(s, locs, blank, e, true, s.Of(true) + {e}, s.Of(false))
  {
    NotFoundNotStored(s, locs, blank, e);
    assert forall i | 0 <= i < |s.table| && !s.garbage[i] :: i in s.written && s.table[i] in s.Stored();
  }

  /** Setting the element down on garbage ends the insertion. */
  lemma {:induction false} SetDown<E(!new)>(s: Slots<E>, locs: E -> seq<nat>, blank: E,
      hand: E, recent: bool, young: set<E>, old_: set<E>, k: nat)
    requires Carrying(s, locs, blank, hand, recent, young, old_)
    requires MayClaim(s, locs(hand), k) && s.garbage[locs(hand)[k]]
    ensures var s' := Put(s, locs(hand)[k], hand, recent);
            Good(s', locs, blank) && s'.Of(true) == young && s'.Of(false) == old_
  {
    Claim(s, locs, blank, hand, k, recent);
  }

  /** Swapping with a live element continues it. */
  lemma {:induction false} Swap<E(!new)>(s: Slots<E>, locs: E -> seq<nat>, blank: E,
      hand: E, recent: bool, young: set<E>, old_: set<E>, k: nat)
    requires Carrying(s, locs, blank, hand, recent, young, old_)
    requires MayClaim(s, locs(hand), k) && !s.garbage[locs(hand)[k]]
    ensures var i, s' := locs(hand)[k], Put(s, locs(hand)[k], hand, recent);
            Carrying(s', locs, blank, s.table[i], s.epoch[i], young, old_) && s'.garbage == s.garbage
  {
    Claim(s, locs, blank, hand, k, recent);
  }
}
