/** Bech32 text (BIP 173): a readable prefix, a separator and 5-bit symbols ending in a 6-symbol checksum. */
module Bech32 {
  import opened Wrappers
  import opened Gf32
  import opened Bech32Errors
  import opened Bech32Words

  // ---- characters ----

  const CHARSET := "qpzry9x8" + "gf2tvdw0" + "s3jn54kh" + "ce6mua7l"

  function Lower(c: char): char {
    if 'A' <= c <= 'Z' then (c as int - 'A' as int + 'a' as int) as char else c
  }

  /** The position of a character in the character set, in either case; -1 if it is not there. */
  function Position(c: char): int { LowerPosition(Lower(c)) }

  function LowerPosition(c: char): int {
    if c == 'q' then 0 else if c == 'p' then 1 else if c == 'z' then 2 else if c == 'r' then 3
    else if c == 'y' then 4 else if c == '9' then 5 else if c == 'x' then 6 else if c == '8' then 7
    else if c == 'g' then 8 else if c == 'f' then 9 else if c == '2' then 10 else if c == 't' then 11
    else if c == 'v' then 12 else if c == 'd' then 13 else if c == 'w' then 14 else if c == '0' then 15
    else if c == 's' then 16 else if c == '3' then 17 else if c == 'j' then 18 else if c == 'n' then 19
    else if c == '5' then 20 else if c == '4' then 21 else if c == 'k' then 22 else if c == 'h' then 23
    else if c == 'c' then 24 else if c == 'e' then 25 else if c == '6' then 26 else if c == 'm' then 27
    else if c == 'u' then 28 else if c == 'a' then 29 else if c == '7' then 30 else if c == 'l' then 31
    else -1
  }

  function Index(v: Sym): (n: nat)
    ensures n < 32
  {
    (if Has(v, 16) then 16 else 0) + (if Has(v, 8) then 8 else 0) + (if Has(v, 4) then 4 else 0)
    + (if Has(v, 2) then 2 else 0) + (if Has(v, 1) then 1 else 0)
  }

  /** The low five bits of a number. */
  function SymOf(n: nat): Sym {
    Five(If(n % 2 == 1, 1), If(n / 2 % 2 == 1, 2), If(n / 4 % 2 == 1, 4), If(n / 8 % 2 == 1, 8),
         If(n / 16 % 2 == 1, 16))
  }

  function CharOf(v: Sym): char { CHARSET[Index(v)] }

  lemma {:induction false} IndexIs(v: Sym)
    ensures Index(v) == v as int
  {
  }

  lemma {:induction false} SymOfIndex(v: Sym)
    ensures SymOf(Index(v)) == v
  {
  }

  lemma {:induction false} IndexOfSym(n: nat)
    requires n < 32
    ensures Index(SymOf(n)) == n
  {
  }

  lemma {:induction false} SymOfIs(n: nat)
    requires n < 32
    ensures SymOf(n) as int == n
  {
    hide SymOf, Index;
    IndexOfSym(n);
    IndexIs(SymOf(n));
  }

  lemma {:induction false} CharsetPosition(n: nat)
    requires n < 32
    ensures LowerPosition(CHARSET[n]) == n && Lower(CHARSET[n]) == CHARSET[n] && CHARSET[n] != '1'
    ensures !('A' <= CHARSET[n] <= 'Z') && 33 <= CHARSET[n] as int <= 126
  {
  }

  lemma {:induction false} PositionCharset(c: char)
    ensures -1 <= LowerPosition(c) < 32 && (LowerPosition(c) >= 0 ==> CHARSET[LowerPosition(c)] == c)
  {
  }

  function LowerAll(s: string): string { seq(|s|, i requires 0 <= i < |s| => Lower(s[i])) }

  predicate Printable(s: string) { forall i | 0 <= i < |s| :: 33 <= s[i] as int <= 126 }

  predicate HasUpper(s: string) { exists i | 0 <= i < |s| :: 'A' <= s[i] <= 'Z' }

  predicate HasLower(s: string) { exists i | 0 <= i < |s| :: 'a' <= s[i] <= 'z' }

  function Chars(v: seq<Sym>): string { seq(|v|, i requires 0 <= i < |v| => CharOf(v[i])) }

  predicate InCharset(s: string) { forall i | 0 <= i < |s| :: Position(s[i]) >= 0 }

  function Values(s: string): seq<Sym>
    requires InCharset(s)
  {
    seq(|s|, i requires 0 <= i < |s| => SymOf(Position(s[i])))
  }

  lemma {:induction false} ValuesChars(s: string)
    requires InCharset(s)
    ensures Chars(Values(s)) == LowerAll(s)
  {
    hide LowerPosition, SymOf, Index, Lower;
    forall i | 0 <= i < |s| ensures CharOf(Values(s)[i]) == Lower(s[i]) {
      PositionCharset(Lower(s[i]));
      IndexOfSym(Position(s[i]));
    }
  }

  lemma {:induction false} CharsValues(v: seq<Sym>, s: string)
    requires LowerAll(s) == Chars(v)
    ensures InCharset(s) && Values(s) == v
    ensures forall i | 0 <= i < |s| :: s[i] != '1' && 33 <= s[i] as int <= 126
  {
    hide LowerPosition, SymOf, Index;
    assert |s| == |LowerAll(s)|;
    forall i | 0 <= i < |s|
      ensures Position(s[i]) == Index(v[i]) && SymOf(Index(v[i])) == v[i]
      ensures s[i] != '1' && 33 <= s[i] as int <= 126
    {
      assert Lower(s[i]) == LowerAll(s)[i] == CharOf(v[i]);
      CharsetPosition(Index(v[i]));
      SymOfIndex(v[i]);
    }
  }

  lemma {:induction false} CharsLower(v: seq<Sym>)
    ensures LowerAll(Chars(v)) == Chars(v) && Printable(Chars(v)) && !HasUpper(Chars(v))
  {
    hide Index, Lower;
    forall i | 0 <= i < |v|
      ensures Lower(Chars(v)[i]) == Chars(v)[i] && 33 <= Chars(v)[i] as int <= 126 && !('A' <= Chars(v)[i] <= 'Z')
    {
      CharsetPosition(Index(v[i]));
    }
  }

  // ---- the checksum ----

  /** The prefix as symbols: the high bits of its characters, a zero, the low bits. */
  function ExpandHrp(h: string): seq<Sym> {
    seq(|h|, i requires 0 <= i < |h| => SymOf(h[i] as int / 32)) + [ZERO]
    + seq(|h|, i requires 0 <= i < |h| => SymOf(h[i] as int % 32))
  }

  predicate IsBytes(h: string) { forall i | 0 <= i < |h| :: h[i] as int < 256 }

  lemma {:induction false} SymOfInjective(m: nat, n: nat)
    requires m < 32 && n < 32 && SymOf(m) == SymOf(n)
    ensures m == n
  {
    hide SymOf, Index;
    IndexOfSym(m);
    IndexOfSym(n);
  }

  /** Different prefixes enter the checksum as different symbols. */
  lemma {:induction false} ExpandInjective(g: string, h: string)
    requires IsBytes(g) && IsBytes(h) && ExpandHrp(g) == ExpandHrp(h)
    ensures g == h
  {
    hide SymOf;
    assert |ExpandHrp(g)| == 2 * |g| + 1 && |ExpandHrp(h)| == 2 * |h| + 1;
    forall i | 0 <= i < |g| ensures g[i] == h[i] {
      assert ExpandHrp(g)[i] == SymOf(g[i] as int / 32) && ExpandHrp(h)[i] == SymOf(h[i] as int / 32);
      assert ExpandHrp(g)[|g| + 1 + i] == SymOf(g[i] as int % 32);
      assert ExpandHrp(h)[|h| + 1 + i] == SymOf(h[i] as int % 32);
      SymOfInjective(g[i] as int / 32, h[i] as int / 32);
      SymOfInjective(g[i] as int % 32, h[i] as int % 32);
    }
  }

  predicate Verifies(h: string, values: seq<Sym>) {
    Remainder(UNIT, ExpandHrp(h) + values) == UNIT
  }

  function Checksum(h: string, values: seq<Sym>): seq<Sym> {
    Groups(Sum(Remainder(UNIT, ExpandHrp(h) + values + SIX_ZEROS), UNIT))
  }

  /** The checksum is the one and only group of six symbols that makes the values verify. */
  lemma {:induction false} ChecksumUnique(h: string, values: seq<Sym>, cs: seq<Sym>)
    requires |cs| == 6
    ensures Verifies(h, values + cs) <==> cs == Checksum(h, values)
  {
    hide Remainder, Sum, ExpandHrp;
    var e := ExpandHrp(h) + values;
    assert ExpandHrp(h) + (values + cs) == e + cs;
    RemainderConcat(UNIT, e, cs);
    RemainderConcat(UNIT, e, SIX_ZEROS);
    TailUnique(Remainder(UNIT, e), cs, UNIT);
    assert cs == Groups(ResidueOf(cs));
  }

  /** Up to three substituted symbols within a window of 1023 never verify. */
  lemma {:induction false} SubstitutionsDetected(h: string, v: seq<Sym>, w: seq<Sym>)
    requires |v| == |w| && Verifies(h, v) && 1 <= Distance(v, w) <= 3 && Together(v, w)
    ensures !Verifies(h, w)
  {
    hide Remainder, ExpandHrp, Distance, Together;
    RemainderConcat(UNIT, ExpandHrp(h), v);
    RemainderConcat(UNIT, ExpandHrp(h), w);
    ErrorsDetected(Remainder(UNIT, ExpandHrp(h)), v, w);
  }

  // ---- texts ----

  function Encoded(h: string, values: seq<Sym>): string {
    h + "1" + Chars(values + Checksum(h, values))
  }

  /** The position of the last '1', or -1. */
  function LastOne(s: string): (p: int)
    ensures -1 <= p < |s| && (p >= 0 ==> s[p] == '1') && forall k | p < k < |s| :: s[k] != '1'
  {
    if s == [] then -1 else if s[|s| - 1] == '1' then |s| - 1 else LastOne(s[..|s| - 1])
  }

  function Decoded(s: string): Option<(string, seq<Sym>)> {
    var p := LastOne(s);
    if !Printable(s) || (HasLower(s) && HasUpper(s)) then None
    else if |s| > 90 || p == -1 || p == 0 || p + 7 > |s| then None
    else if !InCharset(s[p + 1..]) then None
    else
      var h, values := LowerAll(s[..p]), Values(s[p + 1..]);
      if !Verifies(h, values) then None else Some((h, values[..|values| - 6]))
  }

  /** A prefix that can be written: not empty, printable, no upper case. */
  predicate Sayable(h: string) { h != [] && Printable(h) && !HasUpper(h) }

  /** The texts that may stand for (h, values): the encoding, in one case, at most 90 characters long. */
  predicate Spells(s: string, h: string, values: seq<Sym>) {
    && Sayable(h) && |s| <= 90 && !(HasLower(s) && HasUpper(s))
    && LowerAll(s) == Encoded(h, values)
  }

  lemma {:induction false} LowerFacts(c: char)
    ensures Lower(c) == '1' <==> c == '1'
    ensures 33 <= Lower(c) as int <= 126 <==> 33 <= c as int <= 126
    ensures !('A' <= Lower(c) <= 'Z') && (!('A' <= c <= 'Z') ==> Lower(c) == c)
  {
  }

  lemma {:induction false} LowerAllFacts(s: string)
    ensures |LowerAll(s)| == |s| && !HasUpper(LowerAll(s)) && (Printable(LowerAll(s)) <==> Printable(s))
    ensures !HasUpper(s) ==> LowerAll(s) == s
  {
    hide Lower;
    forall i | 0 <= i < |s|
      ensures 33 <= Lower(s[i]) as int <= 126 <==> 33 <= s[i] as int <= 126
      ensures !('A' <= Lower(s[i]) <= 'Z') && (!('A' <= s[i] <= 'Z') ==> Lower(s[i]) == s[i])
    {
      LowerFacts(s[i]);
    }
    if Printable(LowerAll(s)) {
      forall i | 0 <= i < |s| ensures 33 <= s[i] as int <= 126 { assert LowerAll(s)[i] == Lower(s[i]); }
    }
  }

  lemma {:induction false} LowerAllSplit(s: string, p: nat)
    requires p <= |s|
    ensures LowerAll(s) == LowerAll(s[..p]) + LowerAll(s[p..])
  {
  }

  /** What decodes spells what it decodes to. */
  lemma {:induction false} DecodedSpells(s: string)
    requires Decoded(s).Some?
    ensures Spells(s, Decoded(s).value.0, Decoded(s).value.1)
  {
    hide Verifies, Checksum, HasUpper, HasLower, Printable, LowerAll, Values, Chars, InCharset, LastOne, Lower;
    var p := LastOne(s);
    var h, values := LowerAll(s[..p]), Values(s[p + 1..]);
    ValuesLength(s[p + 1..]);
    var v, cs := values[..|values| - 6], values[|values| - 6..];
    assert values == v + cs;
    ChecksumUnique(h, v, cs);
    ValuesChars(s[p + 1..]);
    LowerAllSplit(s, p);
    LowerAllSplit(s[p..], 1);
    assert s[p..][1..] == s[p + 1..] && s[p..][..1] == "1";
    LowerOne();
    LowerAllFacts(s[..p]);
    PrintablePrefix(s, p);
  }

  lemma {:induction false} PrintablePrefix(s: string, p: nat)
    requires p <= |s| && Printable(s)
    ensures Printable(s[..p])
  {
  }

  lemma {:induction false} ValuesLength(s: string)
    requires InCharset(s)
    ensures |Values(s)| == |s|
  {
  }

  lemma {:induction false} LowerOne()
    ensures LowerAll("1") == "1"
  {
  }

  /** What spells (h, values) decodes to it. */
  lemma {:induction false} SpellsDecodes(s: string, h: string, values: seq<Sym>)
    requires Spells(s, h, values)
    ensures Decoded(s) == Some((h, values))
  {
    hide Verifies, Checksum, HasUpper, HasLower, Printable, Values, Chars, InCharset, Lower;
    var cs := Checksum(h, values);
    ChecksumLength(h, values);
    CharsLength(values + cs);
    LowerAllFacts(s);
    var p := |h|;
    var tail := s[p + 1..];
    assert LowerAll(s)[p] == '1' == Lower(s[p]);
    LowerFacts(s[p]);
    LowerAllSplit(s, p);
    LowerAllSplit(s, p + 1);
    assert |LowerAll(s[..p])| == p && |LowerAll(s[..p + 1])| == p + 1;
    assert Encoded(h, values)[..p] == h && Encoded(h, values)[p + 1..] == Chars(values + cs);
    assert LowerAll(tail) == Chars(values + cs);
    CharsValues(values + cs, tail);
    forall k | p < k < |s| ensures s[k] != '1' { assert s[k] == tail[k - p - 1]; }
    assert LastOne(s) == p;
    assert LowerAll(s[..p]) == h;
    EncodedPrintable(h, values);
    ChecksumUnique(h, values, cs);
    assert (values + cs)[..|values + cs| - 6] == values;
  }

  lemma {:induction false} ChecksumLength(h: string, values: seq<Sym>)
    ensures |Checksum(h, values)| == 6
  {
  }

  lemma {:induction false} CharsLength(v: seq<Sym>)
    ensures |Chars(v)| == |v|
  {
  }

  lemma {:induction false} EncodedPrintable(h: string, values: seq<Sym>)
    requires Printable(h)
    ensures Printable(Encoded(h, values))
  {
    hide Checksum, Chars;
    CharsLower(values + Checksum(h, values));
  }

  lemma {:induction false} EncodedLower(h: string, values: seq<Sym>)
    requires !HasUpper(h)
    ensures !HasUpper(Encoded(h, values)) && LowerAll(Encoded(h, values)) == Encoded(h, values)
  {
    hide Checksum, Chars, LowerAll;
    CharsLower(values + Checksum(h, values));
    LowerAllFacts(Encoded(h, values));
  }

  /** Decoding accepts exactly the spellings. */
  lemma {:induction false} DecodesExactly(s: string, h: string, values: seq<Sym>)
    ensures Decoded(s) == Some((h, values)) <==> Spells(s, h, values)
  {
    hide Decoded, Spells;
    if Decoded(s) == Some((h, values)) { DecodedSpells(s); }
    if Spells(s, h, values) { SpellsDecodes(s, h, values); }
  }

  /** Up to three wrong characters after the separator of a text that decodes leave a text that does not. */
  lemma {:induction false} TypingErrors(s: string, t: string, p: nat)
    requires Decoded(s).Some? && p == LastOne(s) && |t| == |s| && t[..p + 1] == s[..p + 1]
    requires InCharset(t[p + 1..])
    requires 1 <= Distance(Values(s[p + 1..]), Values(t[p + 1..])) <= 3
    ensures Decoded(t).None?
  {
    hide Verifies, HasUpper, HasLower, Printable, Lower, LowerPosition, SymOf, Distance;
    var v, w := Values(s[p + 1..]), Values(t[p + 1..]);
    assert t[p] == t[..p + 1][p] == s[..p + 1][p] == s[p];
    forall k | p < k < |t| ensures t[k] != '1' {
      assert t[k] == t[p + 1..][k - p - 1];
      OneOutside();
    }
    assert LastOne(t) == p;
    assert t[..p] == t[..p + 1][..p] == s[..p];
    if Decoded(t).Some? { SubstitutionsDetected(LowerAll(s[..p]), v, w); }
  }

  lemma {:induction false} OneOutside()
    ensures Position('1') == -1
  {
  }

  /** An encoding decodes to what was encoded, unless the prefix or the length is beyond what may be written. */
  lemma {:induction false} RoundTrip(h: string, values: seq<Sym>)
    requires !HasUpper(h)
    ensures Decoded(Encoded(h, values)) == Some((h, values))
            <==> h != [] && Printable(h) && |h| + |values| + 7 <= 90
  {
    hide Decoded, HasUpper, Printable, LowerAll, Checksum, Chars;
    EncodedLower(h, values);
    ChecksumLength(h, values);
    CharsLength(values + Checksum(h, values));
    DecodesExactly(Encoded(h, values), h, values);
  }

  // ---- the operations ----

  method Expand(hrp: string) returns (ret: seq<Sym>)
    ensures ret == ExpandHrp(hrp) && |ret| == 2 * |hrp| + 1 && ret[|hrp|] == 0
    ensures forall i | 0 <= i < |hrp| && hrp[i] as int < 256 ::
              ret[i] as int == hrp[i] as int / 32 && ret[|hrp| + 1 + i] as int == hrp[i] as int % 32
  {
    hide SymOf;
    var n := |hrp|;
    ret := seq(2 * n + 1, _ => ZERO);
    var i := 0;
    while i < n
      invariant 0 <= i <= n && |ret| == 2 * n + 1 && ret[n] == ZERO
      invariant forall k | 0 <= k < i :: ret[k] == SymOf(hrp[k] as int / 32)
      invariant forall k | 0 <= k < i :: ret[k + n + 1] == SymOf(hrp[k] as int % 32)
    {
      ret := ret[i := SymOf(hrp[i] as int / 32)];
      ret := ret[i + n + 1 := SymOf(hrp[i] as int % 32)];
      i := i + 1;
    }
    forall k | 0 <= k < n && hrp[k] as int < 256
      ensures ret[k] as int == hrp[k] as int / 32 && ret[n + 1 + k] as int == hrp[k] as int % 32
    {
      SymOfIs(hrp[k] as int / 32);
      SymOfIs(hrp[k] as int % 32);
      assert ret[k + n + 1] == SymOf(hrp[k] as int % 32);
    }
  }

  method VerifyChecksum(hrp: string, values: seq<Sym>) returns (ok: bool)
    ensures ok <==> Verifies(hrp, values)
  {
    hide Unpack, Remainder, ExpandHrp;
    var e := Expand(hrp);
    var c := PolyMod(e + values);
    UnpackUnit(c);
    ok := c == 1;
  }

  /** Group i of a word: bits 5 * (5 - i) and the four above. */
  function Group(c: bv32, i: nat): (v: Sym)
    requires i < 6
    ensures v == Groups(Unpack(c))[i]
  {
    ((c >> (5 * (5 - i))) & 31) as bv5
  }

  method CreateChecksum(hrp: string, values: seq<Sym>) returns (ret: seq<Sym>)
    ensures ret == Checksum(hrp, values)
  {
    hide Unpack, Remainder, ExpandHrp, Sum, Xor, Group;
    var e := Expand(hrp);
    var enc := e + values + SIX_ZEROS;
    var c := PolyMod(enc);
    var mod := Xor(c, 1);
    UnpackXor(c, 1);
    UnpackUnit(1);
    ret := SIX_ZEROS;
    var i := 0;
    while i < 6
      invariant 0 <= i <= 6 && |ret| == 6 && forall k | 0 <= k < i :: ret[k] == Groups(Unpack(mod))[k]
    {
      ret := ret[i := Group(mod, i)];
      i := i + 1;
    }
    assert ret == Groups(Unpack(mod));
  }

  /** The caller must not pass an upper-case prefix. */
  method Encode(hrp: string, values: seq<Sym>) returns (ret: string)
    requires !HasUpper(hrp)
    ensures ret == Encoded(hrp, values)
  {
    hide Checksum, CharOf;
    var checksum := CreateChecksum(hrp, values);
    var combined := values + checksum;
    ret := hrp + "1";
    var i := 0;
    while i < |combined|
      invariant 0 <= i <= |combined| && ret == hrp + "1" + Chars(combined[..i])
    {
      ret := ret + [CharOf(combined[i])];
      assert Chars(combined[..i + 1]) == Chars(combined[..i]) + [CharOf(combined[i])];
      i := i + 1;
    }
    assert combined[..i] == combined;
  }

  method CaseCheck(s: string) returns (ok: bool)
    ensures ok <==> Printable(s) && !(HasLower(s) && HasUpper(s))
  {
    var lower, upper, i := false, false, 0;
    while i < |s|
      invariant 0 <= i <= |s| && Printable(s[..i])
      invariant lower <==> HasLower(s[..i])
      invariant upper <==> HasUpper(s[..i])
    {
      var c := s[i];
      assert s[..i + 1] == s[..i] + [c];
      assert s[..i + 1][i] == c;
      if 'a' <= c <= 'z' {
        lower := true;
      } else if 'A' <= c <= 'Z' {
        upper := true;
      } else if c as int < 33 || c as int > 126 {
        return false;
      }
      i := i + 1;
    }
    assert s[..i] == s;
    ok := !(lower && upper);
  }

  method Decode(s: string) returns (r: Option<(string, seq<Sym>)>)
    ensures r == Decoded(s)
  {
    hide Printable, HasLower, HasUpper, LastOne, Verifies, Lower, SymOf, LowerPosition;
    var ok := CaseCheck(s);
    if !ok {
      return None;
    }
    var p := LastOne(s);
    if |s| > 90 || p == -1 || p == 0 || p + 7 > |s| {
      return None;
    }
    var tail := s[p + 1..];
    var values: seq<Sym> := [];
    var i := 0;
    while i < |tail|
      invariant 0 <= i <= |tail| && InCharset(tail[..i]) && values == Values(tail[..i])
    {
      var rev := Position(tail[i]);
      assert tail[..i + 1] == tail[..i] + [tail[i]];
      PositionCharset(Lower(tail[i]));
      if rev == -1 {
        return None;
      }
      values := values + [SymOf(rev)];
      i := i + 1;
    }
    assert tail[..i] == tail;
    var hrp := "";
    i := 0;
    while i < p
      invariant 0 <= i <= p && hrp == LowerAll(s[..i])
    {
      hrp := hrp + [Lower(s[i])];
      assert s[..i + 1] == s[..i] + [s[i]];
      i := i + 1;
    }
    var verified := VerifyChecksum(hrp, values);
    if !verified {
      return None;
    }
    r := Some((hrp, values[..|values| - 6]));
  }
}
