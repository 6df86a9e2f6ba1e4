/** Published texts (BIP 173, "Test vectors") and what they stand for. */
module Bech32Examples {
  import opened Wrappers
  import opened Gf32
  import opened Bech32Words
  import opened Bech32

  function Steps(c: bv32, v: seq<Sym>): bv32
    decreases |v|
  {
    if v == [] then c else Steps(Step(c, v[0]), v[1..])
  }

  lemma {:induction false} StepsRemainder(c: bv32, v: seq<Sym>)
    ensures Unpack(Steps(c, v)) == Remainder(Unpack(c), v)
    decreases |v|
  {
    hide Unpack, Step, Feed;
    if v != [] {
      StepIsFeed(c, v[0]);
      StepsRemainder(Step(c, v[0]), v[1..]);
      RemainderConcat(Unpack(c), [v[0]], v[1..]);
      RemainderAppend(Unpack(c), [], v[0]);
      assert v == [v[0]] + v[1..];
    }
  }

  /** A text whose characters are those of `h`, a separator and the symbols `values + cs`. */
  lemma {:induction false} Spelled(h: string, e: seq<Sym>, values: seq<Sym>, cs: seq<Sym>)
    requires |cs| == 6 && e == ExpandHrp(h) && Steps(1, e + values + cs) == 1
    ensures Encoded(h, values) == h + "1" + Chars(values + cs)
  {
    hide Remainder, Unpack, ExpandHrp, Steps, Checksum, Chars;
    StepsRemainder(1, e + values + cs);
    UnpackUnit(1);
    assert e + values + cs == e + (values + cs);
    ChecksumUnique(h, values, cs);
  }

  const CHECK_A: seq<Sym> := [10, 28, 25, 31, 20, 31]

  lemma {:induction false} ExpandA()
    ensures ExpandHrp("a") == [3, 0, 1]
    ensures Steps(1, [3, 0, 1, 10, 28, 25, 31, 20, 31]) == 1
  {
    assert ExpandHrp("a") == [SymOf(3), 0, SymOf(1)];
  }

  lemma {:induction false} CharsA()
    ensures Chars(CHECK_A) == "2uel5l"
  {
    forall i | 0 <= i < 6 ensures CharOf(CHECK_A[i]) == "2uel5l"[i] {}
  }

  lemma {:induction false} ShortText()
    ensures Decoded("a12uel5l") == Some(("a", []))
  {
    hide Decoded, Encoded, Steps, ExpandHrp, Chars;
    ExpandA();
    assert [3, 0, 1] + [] + CHECK_A == [3, 0, 1, 10, 28, 25, 31, 20, 31];
    Spelled("a", [3, 0, 1], [], CHECK_A);
    CharsA();
    assert [] + CHECK_A == CHECK_A;
    assert "a" + "1" + "2uel5l" == "a12uel5l";
    RoundTrip("a", []);
  }

  /** The same in upper case. */
  lemma {:induction false} UpperText()
    ensures Decoded("A12UEL5L") == Some(("a", []))
  {
    hide Decoded, Encoded;
    ShortText();
    DecodesExactly("a12uel5l", "a", []);
    assert LowerAll("A12UEL5L") == "a12uel5l" == LowerAll("a12uel5l");
    assert !HasLower("A12UEL5L");
    DecodesExactly("A12UEL5L", "a", []);
  }

  lemma {:induction false} StepsConcat(c: bv32, v: seq<Sym>, w: seq<Sym>)
    ensures Steps(c, v + w) == Steps(Steps(c, v), w)
    decreases |v|
  {
    hide Step;
    if v == [] {
      assert v + w == w;
    } else {
      StepsConcat(Step(c, v[0]), v[1..], w);
      assert (v + w)[1..] == v[1..] + w;
    }
  }

  lemma {:induction false} CharsConcat(v: seq<Sym>, w: seq<Sym>)
    ensures Chars(v + w) == Chars(v) + Chars(w)
  {
    hide CharOf;
  }

  /** The prefix "abcdef", every symbol once in order, and the checksum, piece by piece. */
  const PREFIX: seq<Sym> := [3, 3, 3, 3, 3, 3, 0, 1, 2, 3, 4, 5, 6]
  const FIRST: seq<Sym> := [0, 1, 2, 3, 4, 5, 6, 7]
  const SECOND: seq<Sym> := [8, 9, 10, 11, 12, 13, 14, 15]
  const THIRD: seq<Sym> := [16, 17, 18, 19, 20, 21, 22, 23]
  const FOURTH: seq<Sym> := [24, 25, 26, 27, 28, 29, 30, 31]
  const CHECK_ALL: seq<Sym> := [27, 0, 0, 0, 6, 14]

  lemma {:induction false} ExpandAll()
    ensures ExpandHrp("abcdef") == PREFIX && Steps(1, PREFIX) == 0x3be80e6a
  {
    hide SymOf, Steps;
    assert ExpandHrp("abcdef") == [SymOf(3), SymOf(3), SymOf(3), SymOf(3), SymOf(3), SymOf(3), 0,
                                   SymOf(1), SymOf(2), SymOf(3), SymOf(4), SymOf(5), SymOf(6)];
    SmallSymbols();
    StepsPrefix();
  }

  lemma {:induction false} StepsPrefix()
    ensures Steps(1, PREFIX) == 0x3be80e6a
  {
  }

  lemma {:induction false} SmallSymbols()
    ensures SymOf(1) == 1 && SymOf(2) == 2 && SymOf(3) == 3 && SymOf(4) == 4 && SymOf(5) == 5 && SymOf(6) == 6
  {
  }

  lemma {:induction false} First()
    ensures Steps(0x3be80e6a, FIRST) == 0x11e88668
  {
  }

  lemma {:induction false} FirstChars()
    ensures Chars(FIRST) == "qpzry9x8"
  {
    forall i | 0 <= i < 8 ensures CharOf(FIRST[i]) == "qpzry9x8"[i] {}
  }

  lemma {:induction false} Second()
    ensures Steps(0x11e88668, SECOND) == 0x31223f8a
  {
  }

  lemma {:induction false} SecondChars()
    ensures Chars(SECOND) == "gf2tvdw0"
  {
    forall i | 0 <= i < 8 ensures CharOf(SECOND[i]) == "gf2tvdw0"[i] {}
  }

  lemma {:induction false} Third()
    ensures Steps(0x31223f8a, THIRD) == 0x297c48e0
  {
  }

  lemma {:induction false} ThirdChars()
    ensures Chars(THIRD) == "s3jn54kh"
  {
    forall i | 0 <= i < 8 ensures CharOf(THIRD[i]) == "s3jn54kh"[i] {}
  }

  lemma {:induction false} Fourth()
    ensures Steps(0x297c48e0, FOURTH) == 0x1a0d3656
  {
  }

  lemma {:induction false} FourthChars()
    ensures Chars(FOURTH) == "ce6mua7l"
  {
    forall i | 0 <= i < 8 ensures CharOf(FOURTH[i]) == "ce6mua7l"[i] {}
  }

  lemma {:induction false} CheckAll()
    ensures Steps(0x1a0d3656, CHECK_ALL) == 1 && Chars(CHECK_ALL) == "mqqqxw"
  {
    forall i | 0 <= i < 6 ensures CharOf(CHECK_ALL[i]) == "mqqqxw"[i] {}
  }

  lemma {:induction false} StepsAll()
    ensures Steps(1, PREFIX + (FIRST + SECOND + THIRD + FOURTH) + CHECK_ALL) == 1
  {
    hide Steps, Chars;
    ExpandAll();
    First();
    Second();
    Third();
    Fourth();
    CheckAll();
    var w := THIRD + FOURTH + CHECK_ALL;
    assert PREFIX + (FIRST + SECOND + THIRD + FOURTH) + CHECK_ALL == PREFIX + (FIRST + (SECOND + w));
    StepsConcat(1, PREFIX, FIRST + (SECOND + w));
    StepsConcat(0x3be80e6a, FIRST, SECOND + w);
    StepsConcat(0x11e88668, SECOND, w);
    assert w == THIRD + (FOURTH + CHECK_ALL);
    StepsConcat(0x31223f8a, THIRD, FOURTH + CHECK_ALL);
    StepsConcat(0x297c48e0, FOURTH, CHECK_ALL);
  }

  lemma {:induction false} CharsAll()
    ensures Chars(FIRST + SECOND + THIRD + FOURTH + CHECK_ALL) == "qpzry9x8gf2tvdw0s3jn54khce6mua7lmqqqxw"
  {
    hide Steps, Chars;
    FirstChars();
    SecondChars();
    ThirdChars();
    FourthChars();
    CheckAll();
    CharsConcat(FIRST, SECOND);
    CharsConcat(FIRST + SECOND, THIRD);
    CharsConcat(FIRST + SECOND + THIRD, FOURTH);
    CharsConcat(FIRST + SECOND + THIRD + FOURTH, CHECK_ALL);
  }

  lemma {:induction false} LongText()
    ensures Decoded("abcdef" + "1" + "qpzry9x8gf2tvdw0s3jn54khce6mua7lmqqqxw")
            == Some(("abcdef", FIRST + SECOND + THIRD + FOURTH))
  {
    hide Decoded, Encoded, Steps, ExpandHrp, Chars;
    var all := FIRST + SECOND + THIRD + FOURTH;
    ExpandAll();
    StepsAll();
    Spelled("abcdef", PREFIX, all, CHECK_ALL);
    CharsAll();
    RoundTrip("abcdef", all);
  }
}
