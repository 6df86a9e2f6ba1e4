/** The Bech32 checksum on packed words, and its agreement with arithmetic over GF(32). */
module Bech32Words {
  import opened Gf32

  /** A residue packed into a word, the coefficient of x^5 in bits 29 to 25. */
  function Unpack(c: bv32): Residue {
    Residue(((c >> 25) & 31) as bv5, ((c >> 20) & 31) as bv5, ((c >> 15) & 31) as bv5,
            ((c >> 10) & 31) as bv5, ((c >> 5) & 31) as bv5, (c & 31) as bv5)
  }

  function Xor(c: bv32, d: bv32): bv32 { c ^ d }

  function Low(c: bv32): bv32 { (c & 0x1ffffff) << 5 }

  function Pick(c0: Sym, m: Sym, g: bv32): bv32 { if Has(c0, m) then g else 0 }

  /** The multiple of the generator that the leading coefficient calls for. */
  function Feedback(c0: Sym): bv32 {
    Xor(Xor(Xor(Xor(Pick(c0, 1, 0x3b6a57b2), Pick(c0, 2, 0x26508e6d)), Pick(c0, 4, 0x1ea119fa)),
            Pick(c0, 8, 0x3d4233dd)), Pick(c0, 16, 0x2a1462b3))
  }

  lemma {:induction false} UnpackXor(c: bv32, d: bv32)
    ensures Unpack(Xor(c, d)) == Sum(Unpack(c), Unpack(d))
  {
  }

  lemma {:induction false} UnpackLow(c: bv32)
    ensures Unpack(Low(c)) == Shifted(Unpack(c))
  {
  }

  /** The word constants are the generator times 1, a, a^2, a^3 and a^4. */
  lemma {:induction false} UnpackConstants()
    ensures Unpack(0) == NIL && Unpack(1) == UNIT && Unpack(0x3b6a57b2) == GENERATOR
    ensures Unpack(0x26508e6d) == Multiple(2, GENERATOR) && Unpack(0x1ea119fa) == Multiple(4, GENERATOR)
    ensures Unpack(0x3d4233dd) == Multiple(8, GENERATOR) && Unpack(0x2a1462b3) == Multiple(16, GENERATOR)
  {
  }

  lemma {:induction false} UnpackFeedback(c0: Sym)
    ensures Unpack(Feedback(c0)) == Multiple(c0, GENERATOR)
  {
  }

  lemma {:induction false} UnpackSymbol(v: Sym)
    ensures Unpack(v as bv32) == Const(v)
  {
  }

  lemma {:induction false} UnpackUnit(c: bv32)
    requires c < 0x40000000
    ensures Unpack(c) == UNIT <==> c == 1
  {
  }

  function Top(c: bv32): Sym { ((c >> 25) & 31) as bv5 }

  function Step(c: bv32, v: Sym): bv32 { Xor(Xor(Low(c), v as bv32), Feedback(Top(c))) }

  lemma {:induction false} StepFits(c: bv32, v: Sym)
    ensures Step(c, v) < 0x40000000
  {
  }

  /** A step on words multiplies by x and adds. */
  lemma {:induction false} StepIsFeed(c: bv32, v: Sym)
    ensures Unpack(Step(c, v)) == Feed(Unpack(c), v)
  {
    var c0 := Top(c);
    assert c0 == Unpack(c).c0;
    hide Unpack, Xor, Low, Feedback, Sum, Shifted, Multiple, Const;
    UnpackXor(Low(c), v as bv32);
    UnpackXor(Xor(Low(c), v as bv32), Feedback(c0));
    UnpackLow(c);
    UnpackSymbol(v);
    UnpackFeedback(c0);
    SumLast(Shifted(Unpack(c)), Const(v), Multiple(c0, GENERATOR));
  }

  lemma {:induction false} SumLast(a: Residue, v: Residue, p: Residue)
    ensures Sum(Sum(a, v), p) == Sum(Sum(a, p), v)
  {
  }

  lemma {:induction false} XorFacts(c: bv32, d: bv32, e: bv32)
    ensures Xor(c, 0) == c && Xor(Xor(c, d), e) == Xor(c, Xor(d, e))
  {
  }

  lemma {:induction false} TopBits(c: bv32)
    ensures ((c >> 25) & 1 != 0 <==> Has(Top(c), 1)) && ((c >> 25) & 2 != 0 <==> Has(Top(c), 2))
    ensures ((c >> 25) & 4 != 0 <==> Has(Top(c), 4)) && ((c >> 25) & 8 != 0 <==> Has(Top(c), 8))
    ensures (c >> 25) & 16 != 0 <==> Has(Top(c), 16)
  {
  }

  method StepWord(state: bv32, v: Sym) returns (c: bv32)
    ensures c == Step(state, v)
  {
    hide Xor, Has, Top, Low;
    TopBits(state);
    var c0 := state >> 25;
    c := Xor(Low(state), v as bv32);
    ghost var g1, g2 := Pick(Top(state), 1, 0x3b6a57b2), Pick(Top(state), 2, 0x26508e6d);
    ghost var g3, g4 := Pick(Top(state), 4, 0x1ea119fa), Pick(Top(state), 8, 0x3d4233dd);
    XorFacts(c, g1, g2);
    XorFacts(c, Xor(g1, g2), g3);
    XorFacts(c, Xor(Xor(g1, g2), g3), g4);
    XorFacts(c, Xor(Xor(Xor(g1, g2), g3), g4), Pick(Top(state), 16, 0x2a1462b3));
    if c0 & 1 != 0 { c := Xor(c, 0x3b6a57b2); } else { XorFacts(c, 0, 0); }
    if c0 & 2 != 0 { c := Xor(c, 0x26508e6d); } else { XorFacts(c, 0, 0); }
    if c0 & 4 != 0 { c := Xor(c, 0x1ea119fa); } else { XorFacts(c, 0, 0); }
    if c0 & 8 != 0 { c := Xor(c, 0x3d4233dd); } else { XorFacts(c, 0, 0); }
    if c0 & 16 != 0 { c := Xor(c, 0x2a1462b3); } else { XorFacts(c, 0, 0); }
  }

  /** The remainder of the polynomial whose coefficients are 1 and the symbols, as a packed word. */
  method PolyMod(v: seq<Sym>) returns (c: bv32)
    ensures c < 0x40000000 && Unpack(c) == Remainder(UNIT, v)
  {
    hide Feed, Unpack, Step;
    c := 1;
    UnpackUnit(1);
    var i := 0;
    while i < |v|
      invariant 0 <= i <= |v| && c < 0x40000000 && Unpack(c) == Remainder(UNIT, v[..i])
    {
      var next := StepWord(c, v[i]);
      StepFits(c, v[i]);
      StepIsFeed(c, v[i]);
      assert v[..i + 1] == v[..i] + [v[i]];
      RemainderAppend(UNIT, v[..i], v[i]);
      c := next;
      i := i + 1;
    }
    assert v[..i] == v;
  }
}
