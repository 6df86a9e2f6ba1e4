/** The cuckoo cache (`CuckooCache::cache`): insertion by displacement, erasure by marking, and
    ageing by epochs. */
module CuckooCache {
  import opened CuckooTable
  import Nonlinear

  const TWO32: nat := 0x1_0000_0000

  type uint32 = x: nat | x < TWO32

  /** One bit of a byte: `1 << k`. */
  function Mask(k: nat): bv8
    requires k < 8
  {
    if k == 0 then 1 else if k == 1 then 2 else if k == 2 then 4 else if k == 3 then 8
    else if k == 4 then 16 else if k == 5 then 32 else if k == 6 then 64 else 128
  }

  lemma {:induction false} MaskBits(m: bv8, j: nat, k: nat)
    requires j < 8 && k < 8
    ensures (m | Mask(k)) & Mask(k) != 0
    ensures m & !Mask(k) & Mask(k) == 0
    ensures j != k ==> (m | Mask(k)) & Mask(j) == m & Mask(j)
    ensures j != k ==> m & !Mask(k) & Mask(j) == m & Mask(j)
    ensures 0xff & Mask(k) != 0
  {
  }

  predicate BitAt(mem: seq<bv8>, s: nat)
    requires s / 8 < |mem|
  {
    ByteBit(mem[s / 8], s % 8)
  }

  predicate ByteBit(m: bv8, k: nat)
    requires k < 8
  {
    m & Mask(k) != 0
  }

  function ByteSet(m: bv8, k: nat, on: bool): bv8
    requires k < 8
  {
    if on then m | Mask(k) else m & !Mask(k)
  }

  function Unpack(mem: seq<bv8>, size: nat): seq<bool>
    requires size <= 8 * |mem|
  {
    seq(size, s requires 0 <= s < size => BitAt(mem, s))
  }

  lemma {:induction false} ByteUpdate(m: bv8, j: nat, k: nat, on: bool)
    requires j < 8 && k < 8
    ensures ByteBit(ByteSet(m, k, on), j) == if j == k then on else ByteBit(m, j)
  {
    MaskBits(m, j, k);
  }

  lemma {:induction false} BitAtUpdate(mem: seq<bv8>, s: nat, n: nat, on: bool)
    requires s / 8 < |mem| && n / 8 < |mem|
    ensures BitAt(Packed(mem, s, on), n) == if n == s then on else BitAt(mem, n)
  {
    hide ByteBit, ByteSet;
    SamePlace(s, n);
    ByteUpdate(mem[s / 8], n % 8, s % 8, on);
  }

  lemma {:induction false} SamePlace(s: nat, n: nat)
    ensures s == n <==> s / 8 == n / 8 && s % 8 == n % 8
    ensures s % 8 < 8 && n % 8 < 8
  {
  }

  /** The memory with the bit of entry `s` set or cleared. */
  function Packed(mem: seq<bv8>, s: nat, on: bool): (mem': seq<bv8>)
    requires s / 8 < |mem|
    ensures |mem'| == |mem|
  {
    mem[s / 8 := ByteSet(mem[s / 8], s % 8, on)]
  }

  lemma {:induction false} UnpackUpdate(mem: seq<bv8>, size: nat, s: nat, on: bool)
    requires size <= 8 * |mem| && s < size
    ensures Unpack(Packed(mem, s, on), size) == Unpack(mem, size)[s := on]
  {
    forall n | 0 <= n < size ensures Unpack(Packed(mem, s, on), size)[n] == Unpack(mem, size)[s := on][n] {
      BitAtUpdate(mem, s, n, on);
    }
  }

  /** The garbage flags, eight to a byte. */
  class BitFlags {
    const size: nat
    const mem: array<bv8>

    ghost predicate Valid() { mem.Length == (size + 7) / 8 }

    ghost function Bits(): seq<bool>
      requires Valid()
      reads mem
    {
      Unpack(mem[..], size)
    }

    /** All entries start out discardable. Padding the size to whole bytes wraps around in 32 bits, so the last
        seven sizes get no memory. */
    constructor (size: uint32)
      ensures this.size == size && fresh(mem)
      ensures Valid() <==> size + 7 < TWO32
      ensures Valid() ==> Bits() == seq(size, _ => true)
    {
      this.size := size;
      mem := new bv8[(size + 7) % TWO32 / 8](_ => 0xff);
      new;
      if size + 7 < TWO32 {
        forall s | 0 <= s < size ensures BitAt(mem[..], s) { MaskBits(0, 0, s % 8); }
      }
    }

    method BitSet(s: nat)
      requires Valid() && s < size
      modifies mem
      ensures Bits() == old(Bits())[s := true]
    {
      UnpackUpdate(mem[..], size, s, true);
      mem[s / 8] := mem[s / 8] | Mask(s % 8);
      assert mem[..] == Packed(old(mem[..]), s, true);
    }

    method BitUnset(s: nat)
      requires Valid() && s < size
      modifies mem
      ensures Bits() == old(Bits())[s := false]
    {
      UnpackUpdate(mem[..], size, s, false);
      mem[s / 8] := mem[s / 8] & !Mask(s % 8);
      assert mem[..] == Packed(old(mem[..]), s, false);
    }

    method BitIsSet(s: nat) returns (b: bool)
      requires Valid() && s < size
      ensures b == Bits()[s]
    {
      b := mem[s / 8] & Mask(s % 8) != 0;
    }
  }

  /** The cheap heuristic's budget above one epoch. */
  function Slack(epochSize: nat): nat {
    if epochSize / 16 > 1 then epochSize / 16 else 1
  }

  lemma {:induction false} SlackPositive(epochSize: nat)
    ensures Slack(epochSize) >= 1
  {
  }

  class Cache<E(==, !new)> {
    const size: nat
    const table: array<E>
    const collectionFlags: BitFlags
    const epochFlags: array<bool>
    var epochHeuristicCounter: nat
    const epochSize: nat
    const depthLimit: nat
    /** The eight 32-bit hash functions, numbered 0 to 7. */
    const hash: (E, nat) -> uint32
    /** The default element every slot starts with. */
    ghost const blank: E
    ghost var written: set<nat>

    /** Scales a 32-bit hash to a slot number by multiply and shift. */
    function Location(e: E, k: nat): (loc: nat)
      requires size > 0
      ensures loc < size
    {
      ScaledBelow(hash(e, k), size);
      hash(e, k) * size / TWO32
    }

    /** The slot is the same fraction of the table as the hash is of 2^32, rounded down. */
    lemma LocationScales(e: E, k: nat)
      requires size > 0
      ensures Location(e, k) * TWO32 <= hash(e, k) * size < (Location(e, k) + 1) * TWO32
    {
    }

    function Locations(e: E): (locs: seq<nat>)
      ensures |locs| == 8 && (size > 0 ==> forall k | 0 <= k < 8 :: locs[k] == Location(e, k))
    {
      seq(8, k requires 0 <= k < 8 => if size > 0 then Location(e, k) else 0)
    }

    ghost predicate Wf() {
      && 2 <= size < TWO32 && table.Length == epochFlags.Length == collectionFlags.size == size
      && collectionFlags.Valid()
      && table as object != epochFlags && table as object != collectionFlags.mem
      && 1 <= depthLimit
      && 1 <= epochSize <= size
    }

    ghost function State(): (s: Slots<E>)
      requires Wf()
      ensures s.Sized() && |s.table| == size
      reads this`written, table, collectionFlags.mem, epochFlags
    {
      Slots(table[..], collectionFlags.Bits(), epochFlags[..], written)
    }

    ghost function Current(): nat
      requires Wf()
      reads this`written, table, collectionFlags.mem, epochFlags
    {
      CountCurrent(collectionFlags.Bits(), epochFlags[..])
    }

    /** Every stored element sits at one of its own places and nowhere else, and the live
        elements of the current epoch stay within one epoch plus the heuristic's slack. */
    ghost predicate Valid()
      reads this, table, collectionFlags.mem, epochFlags
    {
      && Wf()
      && Good(State(), Locations, blank)
      && Current() + epochHeuristicCounter <= epochSize + Slack(epochSize)
    }

    /** The constructor and `setup` in one.  `depthLimit` is the base-2 logarithm of the size,
        which the source takes in floating point. */
    constructor (newSize: uint32, depthLimit: nat, hash: (E, nat) -> uint32, blank: E)
      requires 1 <= depthLimit
      ensures fresh(table) && fresh(epochFlags) && fresh(collectionFlags.mem)
      ensures size == (if newSize < 2 then 2 else newSize) && this.depthLimit == depthLimit && this.hash == hash
      ensures epochHeuristicCounter == epochSize == if size == 2 then 1 else Max(1, 45 * size % TWO32 / 100)
      ensures if size + 7 < TWO32 then Valid() && State().Live() == {} && Current() == 0 else !Valid()
    {
      var n := if newSize < 2 then 2 else newSize;
      this.depthLimit, this.hash, this.blank := depthLimit, hash, blank;
      size := n;
      table := new E[n](_ => blank);
      collectionFlags := new BitFlags(n);
      epochFlags := new bool[n](_ => false);
      // 45% of the size; the product is taken in 32 bits
      var share := 45 * n % TWO32 / 100;
      epochSize := if share < 1 then 1 else share;
      epochHeuristicCounter := if share < 1 then 1 else share;
      written := {};
      new;
      hide Unpack, CountCurrent, Good, Slack;
      SlackPositive(epochSize);
      if size + 7 < TWO32 {
        assert Wf();
        ghost var s := State();
        assert s == Slots(table[..], collectionFlags.Bits(), epochFlags[..], {});
        NoneCurrent(s.garbage, s.epoch);
        AllBlank(s, Locations, blank);
      }
    }

    /** Whether the next insertion ages the epochs: the counter has run out and the current epoch is full. */
    ghost predicate Ages()
      requires Wf()
      reads this, table, collectionFlags.mem, epochFlags
    {
      epochHeuristicCounter == 0 && |State().Of(true)| >= epochSize
    }

    /** The live elements of either age once the epoch check is over: ageing makes the current epoch the old one. */
    ghost function Checked(recent: bool): set<E>
      requires Wf()
      reads this, table, collectionFlags.mem, epochFlags
    {
      if !Ages() then State().Of(recent) else if recent then {} else State().Of(true)
    }

    /** A place of the element can be written over once the epoch check is over. */
    ghost predicate HasRoom(e: E)
      requires Wf()
      reads this, table, collectionFlags.mem, epochFlags
    {
      exists k | 0 <= k < 8 ::
        State().garbage[Locations(e)[k]] || (Ages() && !State().epoch[Locations(e)[k]])
    }

    /** Ages the epochs when the current one is full; the heuristic counter says when it is worth
        looking.  Afterwards there is room for one more element under the bound. */
    method EpochCheck()
      requires Valid()
      modifies this`epochHeuristicCounter, collectionFlags.mem, epochFlags
      ensures Wf() && Good(State(), Locations, blank)
      ensures State().table == old(State()).table && State().written == old(State()).written
      ensures State().Of(true) == old(Checked(true)) && State().Of(false) == old(Checked(false))
      ensures !old(Ages()) ==> State() == old(State())
      ensures forall e {:trigger Locations(e)} :: AnyFree(State(), Locations(e)) <==> old(HasRoom(e))
      ensures epochHeuristicCounter ==
                if old(epochHeuristicCounter) > 0 then old(epochHeuristicCounter) - 1
                else if old(Ages()) then epochSize
                else Max(1, Max(epochSize / 16, epochSize - |old(State()).Of(true)|))
      ensures Current() + epochHeuristicCounter + 1 <= epochSize + Slack(epochSize)
    {
      hide Unpack, Places, Good, CountCurrent, Aged;
      CountIsSize(State(), Locations, blank);
      LocationsArePlaces();
      if epochHeuristicCounter != 0 {
        epochHeuristicCounter := epochHeuristicCounter - 1;
        return;
      }
      var unused := CountUnused();
      if unused >= epochSize {
        Age();
        epochHeuristicCounter := epochSize;
      } else {
        var most := if epochSize / 16 > epochSize - unused then epochSize / 16 else epochSize - unused;
        epochHeuristicCounter := if most > 1 then most else 1;
      }
    }

    method CountUnused() returns (n: nat)
      requires Wf()
      ensures n == Current()
    {
      n := 0;
      for i := 0 to size
        invariant n == CountCurrent(collectionFlags.Bits()[..i], epochFlags[..i])
      {
        var discardable := collectionFlags.BitIsSet(i);
        if epochFlags[i] && !discardable {
          n := n + 1;
        }
        assert collectionFlags.Bits()[..i + 1][..i] == collectionFlags.Bits()[..i];
        assert epochFlags[..i + 1][..i] == epochFlags[..i];
      }
      assert collectionFlags.Bits()[..size] == collectionFlags.Bits();
      assert epochFlags[..size] == epochFlags[..];
    }

    method Age()
      requires Wf() && Good(State(), Locations, blank)
      modifies collectionFlags.mem, epochFlags
      ensures State().table == old(State()).table && State().written == old(State()).written
      ensures State().Of(true) == {} && State().Of(false) == old(State()).Of(true)
      ensures forall i | 0 <= i < size :: State().garbage[i] == (old(State()).garbage[i] || !old(State()).epoch[i])
      ensures Good(State(), Locations, blank) && Current() == 0
    {
      ghost var was := State();
      AgedAges(was);
      for i := 0 to size
        invariant forall j | 0 <= j < size ::
          epochFlags[j] == (if j < i then false else was.epoch[j])
        invariant forall j | 0 <= j < size ::
          collectionFlags.Bits()[j] == (was.garbage[j] || (j < i && !was.epoch[j]))
      {
        if epochFlags[i] {
          epochFlags[i] := false;
        } else {
          collectionFlags.BitSet(i);
        }
      }
      assert State().table == was.table;
      assert State().garbage == Aged(was).garbage;
      assert State().epoch == Aged(was).epoch;
      NoneCurrent(collectionFlags.Bits(), epochFlags[..]);
    }

    lemma LocationsArePlaces()
      requires size > 0
      ensures Places(Locations, size)
    {
    }

    /** Claims a slot: writes the element, keeps it from being discarded and dates it. */
    method Store(loc: nat, e: E, recent: bool)
      requires Wf() && loc < size
      modifies this`written, table, collectionFlags.mem, epochFlags
      ensures State() == Put(old(State()), loc, e, recent)
      ensures epochHeuristicCounter == old(epochHeuristicCounter)
    {
      table[loc] := e;
      collectionFlags.BitUnset(loc);
      epochFlags[loc] := recent;
      written := written + {loc};
      assert table[..] == old(table[..])[loc := e];
      assert epochFlags[..] == old(epochFlags[..])[loc := recent];
    }

    /** Where `x` first occurs in `locs`, or 8. */
    static method FindIndex(locs: seq<nat>, x: nat) returns (k: nat)
      requires |locs| == 8
      ensures FirstAt(locs, x, k)
    {
      k := 0;
      while k < 8 && locs[k] != x
        invariant k <= 8 && forall j | 0 <= j < k :: locs[j] != x
      {
        k := k + 1;
      }
    }

    /** The first place of `e` whose slot is marked as garbage, or 8. */
    method FindDiscardable(e: E) returns (k: nat)
      requires Wf()
      ensures k <= 8 && (k < 8 ==> State().garbage[Locations(e)[k]])
      ensures forall j | 0 <= j < k :: !State().garbage[Locations(e)[j]]
    {
      k := 0;
      while k < 8
        invariant k <= 8 && forall j | 0 <= j < k :: !State().garbage[Locations(e)[j]]
      {
        var discardable := collectionFlags.BitIsSet(Locations(e)[k]);
        if discardable {
          return;
        }
        k := k + 1;
      }
    }

    /** The first place of `e` that holds it, or 8. */
    method FindElement(e: E) returns (k: nat)
      requires Wf()
      ensures k <= 8 && (k < 8 ==> table[Locations(e)[k]] == e)
      ensures forall j | 0 <= j < k :: table[Locations(e)[j]] != e
    {
      k := 0;
      while k < 8 && table[Locations(e)[k]] != e
        invariant k <= 8 && forall j | 0 <= j < k :: table[Locations(e)[j]] != e
      {
        k := k + 1;
      }
    }

    /** After the epoch check the element joins the current epoch, and at most one element, possibly
        the new one itself, drops out; none does when the element is stored already or a place of it has room. */
    method Insert(e: E) returns (ghost lost: set<E>)
      requires Valid()
      modifies this`written, this`epochHeuristicCounter, table, collectionFlags.mem, epochFlags
      ensures Valid()
      ensures State().Of(true) == old(Checked(true)) + {e} - lost
      ensures State().Of(false) == old(Checked(false)) - {e} - lost
      ensures lost == {} || exists x :: lost == {x} && x in old(Checked(true)) + old(Checked(false)) + {e}
      ensures e in old(State()).Stored() || old(HasRoom(e)) ==> lost == {}
    {
      hide HasRoom, Checked, AnyFree, CountCurrent, Unpack, Places, Good, Slack;
      EpochCheck();
      ghost var s := State();
      CountIsSize(s, Locations, blank);
      lost := Place(e);
      CountIsSize(State(), Locations, blank);
      AtMostOneMore(s.Of(true), State().Of(true), e);
    }

    /** The rest of the insertion: the element is kept where it is, or takes a place by displacement. */
    method Place(e: E) returns (ghost lost: set<E>)
      requires Wf() && Good(State(), Locations, blank)
      modifies this`written, table, collectionFlags.mem, epochFlags
      ensures Good(State(), Locations, blank)
      ensures State().Of(true) == old(State()).Of(true) + {e} - lost
      ensures State().Of(false) == old(State()).Of(false) - {e} - lost
      ensures lost == {} || exists x :: lost == {x} && x in old(State()).Of(true) + old(State()).Of(false) + {e}
      ensures e in old(State()).Stored() || AnyFree(old(State()), Locations(e)) ==> lost == {}
    {
      hide AnyFree, CountCurrent, Unpack, Places, Good, Put;
      LocationsArePlaces();
      var found := FindElement(e);
      if found < 8 {
        KeepFound(State(), Locations, blank, e, found);
        Store(Locations(e)[found], e, true);
        lost := {};
      } else {
        NotFoundNotStored(State(), Locations, blank, e);
        ghost var hands;
        lost, hands := Displace(e);
      }
    }

    /** One turn of the displacement loop: puts the element in hand down on its first discardable
        place, or swaps it with the live element next to the last place looked at. */
    method Turn(hand: E, lastLoc: nat, lastEpoch: bool, ghost young: set<E>, ghost old_: set<E>)
      returns (done: bool, hand': E, lastLoc': nat, lastEpoch': bool, ghost at: nat)
      requires Wf() && Carrying(State(), Locations, blank, hand, lastEpoch, young, old_)
      modifies this`written, table, collectionFlags.mem, epochFlags
      ensures done <==> AnyFree(old(State()), Locations(hand))
      ensures done ==> Good(State(), Locations, blank) && State().Of(true) == young && State().Of(false) == old_
      ensures !done ==> Carrying(State(), Locations, blank, hand', lastEpoch', young, old_)
      ensures !done ==> State().garbage == old(State()).garbage
      ensures !done ==> FirstAt(Locations(hand), lastLoc, at) && lastLoc' == Locations(hand)[(1 + at) % 8]
      ensures !done ==> hand' == old(State()).table[lastLoc'] && lastEpoch' == old(State()).epoch[lastLoc']
    {
      var locs := Locations(hand);
      var free := FindDiscardable(hand);
      done, hand', lastLoc', lastEpoch', at := free < 8, hand, lastLoc, lastEpoch, 8;
      if done {
        SetDown(State(), Locations, blank, hand, lastEpoch, young, old_, free);
        Store(locs[free], hand, lastEpoch);
      } else {
        var found := FindIndex(locs, lastLoc);
        at := found;
        var k := (1 + found) % 8;
        lastLoc' := locs[k];
        Swap(State(), Locations, blank, hand, lastEpoch, young, old_, k);
        hand', lastEpoch' := table[lastLoc'], epochFlags[lastLoc'];
        Store(lastLoc', hand, lastEpoch);
      }
    }

    /** The displacement loop.  `hands` are the elements carried, the first being the new one; one is dropped only
        after as many displacements as the depth limit says, none of the displaced elements finding a free place. */
    method Displace(e: E) returns (ghost lost: set<E>, ghost hands: seq<E>)
      requires Wf() && Good(State(), Locations, blank)
      requires forall k | 0 <= k < 8 :: table[Locations(e)[k]] != e
      modifies this`written, table, collectionFlags.mem, epochFlags
      ensures Good(State(), Locations, blank)
      ensures State().Of(true) == old(State()).Of(true) + {e} - lost
      ensures State().Of(false) == old(State()).Of(false) - lost
      ensures 0 < |hands| <= depthLimit + 1 && hands[0] == e
      ensures forall n | 0 <= n < |hands| - 1 :: !AnyFree(old(State()), Locations(hands[n]))
      ensures lost == {} ==> AnyFree(old(State()), Locations(hands[|hands| - 1]))
      ensures lost != {} ==>
                && |hands| == depthLimit + 1 && lost == {hands[depthLimit]}
                && hands[depthLimit] in old(State()).Of(true) + old(State()).Of(false) + {e}
    {
      hide Good, Carrying, AnyFree, Unpack, CountCurrent, Places;
      LocationsArePlaces();
      ghost var s := State();
      ghost var young, old_ := s.Of(true) + {e}, s.Of(false);
      StartCarrying(s, Locations, blank, e);
      CarryingFacts(s, Locations, blank, e, true, young, old_);
      var hand, lastEpoch := e, true;
      var lastLoc: nat := TWO32 - 1;
      var depth := 0;
      hands := [e];
      while depth < depthLimit
        invariant Carrying(State(), Locations, blank, hand, lastEpoch, young, old_)
        invariant 0 <= depth <= depthLimit && |hands| == depth + 1 && hands[0] == e && hands[depth] == hand
        invariant State().garbage == s.garbage
        invariant forall n | 0 <= n < depth :: !AnyFree(s, Locations(hands[n]))
      {
        var done;
        SameFree(State(), s, Locations(hand));
        ghost var at;
        done, hand, lastLoc, lastEpoch, at := Turn(hand, lastLoc, lastEpoch, young, old_);
        if done {
          lost := {};
          return;
        }
        depth := depth + 1;
        hands := hands + [hand];
      }
      CarryingFacts(State(), Locations, blank, hand, lastEpoch, young, old_);
      lost := {hand};
    }

    /** Finds a stored element, live or not, and on request marks it for discarding. */
    method Contains(e: E, erase: bool) returns (found: bool)
      requires Valid()
      modifies collectionFlags.mem
      ensures Valid()
      ensures found <==> exists k :: 0 <= k < 8 && table[Locations(e)[k]] == e
      ensures e in old(State()).Stored() ==> found
      ensures found && e != blank ==> e in State().Stored()
      ensures State().Stored() == old(State()).Stored()
      ensures State().Of(true) == old(State()).Of(true) - if found && erase then {e} else {}
      ensures State().Of(false) == old(State()).Of(false) - if found && erase then {e} else {}
    {
      LocationsArePlaces();
      var k := FindElement(e);
      found := k < 8;
      if !found {
        NotFoundNotStored(State(), Locations, blank, e);
      } else if erase {
        AllowErase(e, k);
      }
    }

    method AllowErase(e: E, k: nat)
      requires Valid() && k < 8 && table[Locations(e)[k]] == e && forall j | 0 <= j < k :: table[Locations(e)[j]] != e
      modifies collectionFlags.mem
      ensures Valid() && State().table == old(State()).table && State().Stored() == old(State()).Stored()
      ensures State().Of(true) == old(State()).Of(true) - {e} && State().Of(false) == old(State()).Of(false) - {e}
    {
      hide Good, CountCurrent, Unpack, Places, Slack, Discard;
      ghost var s := State();
      LocationsArePlaces();
      CountIsSize(s, Locations, blank);
      var loc := Locations(e)[k];
      DiscardLive(s, Locations, blank, k, e);
      DiscardIs(s, loc);
      collectionFlags.BitSet(loc);
      assert State() == Discard(s, loc);
      CountIsSize(State(), Locations, blank);
      Fewer(s.Of(true), State().Of(true));
    }
  }

  /** Where `x` first occurs among the eight, or 8. */
  predicate FirstAt(locs: seq<nat>, x: nat, k: nat)
    requires |locs| == 8
  {
    k <= 8 && (k < 8 ==> locs[k] == x) && forall j | 0 <= j < k :: locs[j] != x
  }

  function Max(a: int, b: int): int { if a < b then b else a }

  lemma {:induction false} Fewer<E(!new)>(before: set<E>, after: set<E>)
    requires after <= before
    ensures |after| <= |before|
  {
    assert before == after + (before - after);
  }

  lemma {:induction false} AtMostOneMore<E(!new)>(before: set<E>, after: set<E>, e: E)
    requires after <= before + {e}
    ensures |after| <= |before| + 1
  {
    Fewer(before + {e}, after);
  }

  lemma {:induction false} SameFree<E(!new)>(s: Slots<E>, t: Slots<E>, places: seq<nat>)
    requires s.Sized() && t.Sized() && |places| == 8 && (forall j | 0 <= j < 8 :: places[j] < |s.table|)
    requires s.garbage == t.garbage
    ensures AnyFree(s, places) == AnyFree(t, places)
  {
  }

  lemma {:induction false} ScaledBelow(h: uint32, n: nat)
    requires n > 0
    ensures h * n / TWO32 < n
  {
    Nonlinear.MulStrict(h, TWO32, n);
    Nonlinear.DivBelow(h * n, n, TWO32);
  }
}
