/** Base 58 text for byte strings, plain and with a 4-byte checksum. */
module Base58 {
  import opened Wrappers
  import Nonlinear
  import opened Positional

  type Byte = b: nat | b < 256

  // ---- the alphabet ----

  const ALPHABET := "123456789" + "ABCDEFGH" + "JKLMN" + "PQRSTUVWXYZ" + "abcdefghijk" + "mnopqrstuvwxyz"

  /** The alphabet by runs of consecutive characters. */
  function DigitChar(d: nat): char
    requires d < 58
  {
    if d < 9 then '1' + d as char
    else if d < 17 then 'A' + (d - 9) as char
    else if d < 22 then 'J' + (d - 17) as char
    else if d < 33 then 'P' + (d - 22) as char
    else if d < 44 then 'a' + (d - 33) as char
    else 'm' + (d - 44) as char
  }

  /** The digit of a character, -1 for a character outside the alphabet. */
  function DigitOf(c: char): int {
    if '1' <= c <= '9' then c as int - '1' as int
    else if 'A' <= c <= 'H' then c as int - 'A' as int + 9
    else if 'J' <= c <= 'N' then c as int - 'J' as int + 17
    else if 'P' <= c <= 'Z' then c as int - 'P' as int + 22
    else if 'a' <= c <= 'k' then c as int - 'a' as int + 33
    else if 'm' <= c <= 'z' then c as int - 'm' as int + 44
    else -1
  }

  lemma {:induction false} AlphabetByRuns(d: nat)
    requires d < 58
    ensures |ALPHABET| == 58 && DigitChar(d) == ALPHABET[d]
  {
  }

  /** The two tables are inverse to each other. */
  lemma {:induction false} DigitRoundTrip(d: nat, c: char)
    ensures d < 58 ==> DigitOf(DigitChar(d)) == d
    ensures -1 <= DigitOf(c) < 58 && (DigitOf(c) >= 0 ==> DigitChar(DigitOf(c)) == c)
    ensures DigitOf(c) == 0 <==> c == '1'
  {
  }

  predicate IsSpace(c: char) {
    c == ' ' || c == '\U{0C}' || c == '\n' || c == '\r' || c == '\t' || c == '\U{0B}'
  }

  lemma {:induction false} SpaceIff(c: char)
    ensures IsSpace(c) <==> c as int == 32 || 9 <= c as int <= 13
  {
  }

  // ---- the specification ----

  function Chars(digits: seq<nat>): string
    requires IsDigits(58, digits)
  {
    seq(|digits|, i requires 0 <= i < |digits| => DigitChar(digits[i]))
  }

  predicate InAlphabet(s: string) {
    forall i | 0 <= i < |s| :: DigitOf(s[i]) >= 0
  }

  function Values(s: string): seq<nat>
    requires InAlphabet(s)
  {
    seq(|s|, i requires 0 <= i < |s| => DigitOf(s[i]))
  }

  /** The text of a byte string: a '1' per leading zero byte, then the number in base 58. */
  function Encoded(bytes: seq<Byte>): string {
    ConvertBack(256, 58, bytes);
    Chars(Convert(256, 58, bytes))
  }

  function TrimLeft(s: string): string {
    if s != [] && IsSpace(s[0]) then TrimLeft(s[1..]) else s
  }

  function TrimRight(s: string): string {
    if s != [] && IsSpace(s[|s| - 1]) then TrimRight(s[..|s| - 1]) else s
  }

  function Trim(s: string): string { TrimRight(TrimLeft(s)) }

  /** The bytes that a text of alphabet characters stands for. */
  function Meaning(s: string): seq<Byte>
    requires InAlphabet(s)
  {
    ValuesBelow(s);
    ConvertBack(58, 256, Values(s));
    Convert(58, 256, Values(s))
  }

  lemma {:induction false} ValuesBelow(s: string)
    requires InAlphabet(s)
    ensures IsDigits(58, Values(s)) && Chars(Values(s)) == s
  {
    forall i | 0 <= i < |s| ensures Values(s)[i] < 58 && DigitChar(Values(s)[i]) == s[i] {
      DigitRoundTrip(0, s[i]);
    }
  }

  lemma {:induction false} CharsInAlphabet(digits: seq<nat>)
    requires IsDigits(58, digits)
    ensures InAlphabet(Chars(digits)) && Values(Chars(digits)) == digits
  {
    forall i | 0 <= i < |digits| ensures DigitOf(Chars(digits)[i]) == digits[i] {
      DigitRoundTrip(digits[i], '1');
    }
  }

  /** A text decodes when, blanks around it apart, all its characters are in the alphabet and its bytes fit. */
  function Decoded(s: string, maxLen: int): Option<seq<Byte>> {
    Fitting(Trim(s), maxLen)
  }

  function Fitting(t: string, maxLen: int): Option<seq<Byte>> {
    if !InAlphabet(t) then None
    else if Meaning(t) != [] && |Meaning(t)| > maxLen then None
    else Some(Meaning(t))
  }

  function NumFrom(b: nat, acc: nat, s: seq<nat>): nat
    decreases |s|
  {
    if s == [] then acc else NumFrom(b, acc * b + s[0], s[1..])
  }

  lemma {:induction false} NumFromIs(b: nat, s: seq<nat>, t: seq<nat>)
    ensures NumFrom(b, Num(b, s), t) == Num(b, s + t)
    decreases |t|
  {
    if t == [] {
      assert s + t == s;
    } else {
      assert (s + [t[0]])[..|s|] == s;
      NumFromIs(b, s + [t[0]], t[1..]);
      assert s + [t[0]] + t[1..] == s + t;
    }
  }

  /** A number without leading zero byte is written in base 58. */
  lemma {:induction false} Written(bytes: seq<Byte>, digits: seq<nat>)
    requires bytes != [] && bytes[0] != 0 && Canonical(58, digits)
    requires NumFrom(256, 0, bytes) == NumFrom(58, 0, digits)
    ensures Encoded(bytes) == Chars(digits)
  {
    hide Digits, Chars, DigitChar, NumFrom;
    NumFromIs(256, [], bytes);
    NumFromIs(58, [], digits);
    assert [] + bytes == bytes && [] + digits == digits;
    DigitsUnique(58, digits);
    assert Lead(bytes) == 0 && bytes[0..] == bytes && Zeros(0) + digits == digits;
  }

  lemma {:induction false} PublishedNumbers()
    ensures NumFrom(256, 0, [0x61]) == NumFrom(58, 0, [1, 39])
    ensures NumFrom(256, 0, [0x51, 0x6b, 0x6f, 0xcd, 0x0f]) == NumFrom(58, 0, [9, 10, 45, 19, 26, 44, 39])
  {
  }

  /** Published pairs of bytes and text. */
  lemma {:induction false} Published()
    ensures Encoded([0x61]) == "2g" && Encoded([0x51, 0x6b, 0x6f, 0xcd, 0x0f]) == "ABnLTmg"
  {
    hide Encoded, NumFrom;
    PublishedNumbers();
    Written([0x61], [1, 39]);
    Written([0x51, 0x6b, 0x6f, 0xcd, 0x0f], [9, 10, 45, 19, 26, 44, 39]);
  }

  // ---- round trips ----

  lemma {:induction false} NoBlanks(s: string)
    requires InAlphabet(s)
    ensures Trim(s) == s
  {
  }

  /** Decoding an encoded byte string restores it, exactly when the length limit admits it. */
  lemma {:induction false} DecodeEncoded(bytes: seq<Byte>, maxLen: int)
    ensures Decoded(Encoded(bytes), maxLen) == if bytes != [] && |bytes| > maxLen then None else Some(bytes)
  {
    hide Convert, Chars, Values, Trim;
    ConvertBack(256, 58, bytes);
    CharsInAlphabet(Convert(256, 58, bytes));
    NoBlanks(Encoded(bytes));
  }

  /** A text that decodes is, blanks around it apart, the encoding of what it decodes to. */
  lemma {:induction false} EncodeDecoded(s: string, maxLen: int)
    requires Decoded(s, maxLen).Some?
    ensures Encoded(Decoded(s, maxLen).value) == Trim(s)
  {
    hide Convert, Chars, Values, Trim;
    var t := Trim(s);
    ValuesBelow(t);
    ConvertBack(58, 256, Values(t));
  }

  // ---- the buffers are large enough ----

  /** n bytes fit in n * 138 / 100 + 1 digits. */
  lemma {:induction false} EncodeFits(n: nat)
    ensures Pow(256, n) <= Pow(58, n * 138 / 100 + 1)
  {
    hide Pow;
    var q, r := n / 8, n % 8;
    EightBytes();
    PowScale(256, 8, 58, 11, q);
    PowAdd(256, q * 8, r);
    EncodeFitsSmall(r);
    PowAdd(58, q * 11, r * 138 / 100 + 1);
    MulBoth(Pow(256, q * 8), Pow(58, q * 11), Pow(256, r), Pow(58, r * 138 / 100 + 1));
    PowMono(58, q * 11 + (r * 138 / 100 + 1), n * 138 / 100 + 1);
  }

  lemma {:induction false} EightBytes()
    ensures Pow(256, 8) <= Pow(58, 11)
  {
  }

  lemma {:induction false} EncodeFitsSmall(r: nat)
    requires r < 8
    ensures Pow(256, r) <= Pow(58, r * 138 / 100 + 1)
  {
    assert Pow(256, 0) <= Pow(58, 1);
    assert Pow(256, 1) <= Pow(58, 2);
    assert Pow(256, 2) <= Pow(58, 3);
    assert Pow(256, 3) <= Pow(58, 5);
    assert Pow(256, 4) <= Pow(58, 6);
    assert Pow(256, 5) <= Pow(58, 7);
    assert Pow(256, 6) <= Pow(58, 9);
    assert Pow(256, 7) <= Pow(58, 10);
  }

  /** n digits fit in n * 733 / 1000 + 1 bytes. */
  lemma {:induction false} DecodeFits(n: nat)
    ensures Pow(58, n) <= Pow(256, n * 733 / 1000 + 1)
  {
    hide Pow, BytesFor;
    var q, r := n / 71, n % 71;
    var a, b := r / 15, r % 15;
    FifteenDigits();
    SeventyOneDigits();
    PowScale(58, 71, 256, 52, q);
    PowScale(58, 15, 256, 11, a);
    DecodeFitsSmall(b);
    PowAdd(58, q * 71, r);
    PowAdd(58, a * 15, b);
    PowAdd(256, q * 52, a * 11 + BytesFor(b));
    PowAdd(256, a * 11, BytesFor(b));
    MulBoth(Pow(58, a * 15), Pow(256, a * 11), Pow(58, b), Pow(256, BytesFor(b)));
    MulBoth(Pow(58, q * 71), Pow(256, q * 52), Pow(58, r), Pow(256, a * 11 + BytesFor(b)));
    BytesEnough(q, a, b);
    PowMono(256, q * 52 + (a * 11 + BytesFor(b)), n * 733 / 1000 + 1);
  }

  lemma {:induction false} BytesEnough(q: nat, a: nat, b: nat)
    requires a < 5 && b < 15
    ensures q * 52 + (a * 11 + BytesFor(b)) <= (q * 71 + a * 15 + b) * 733 / 1000 + 1
  {
  }

  lemma {:induction false} FifteenDigits()
    ensures Pow(58, 15) <= Pow(256, 11)
  {
    assert Pow(58, 8) == 128063081718016 && Pow(58, 7) == 2207984167552;
    assert Pow(256, 11) == 309485009821345068724781056;
    hide Pow;
    PowAdd(58, 8, 7);
  }

  /** The tight case: 58^71 is about 0.94 times 256^52. */
  lemma {:induction false} SeventyOneDigits()
    ensures Pow(58, 71) <= Pow(256, 52)
  {
    assert Pow(58, 8) == 128063081718016 && Pow(58, 7) == 2207984167552;
    assert Pow(256, 13) == 20282409603651670423947251286016;
    hide Pow;
    PowAdd(58, 8, 8);
    PowAdd(58, 16, 16);
    PowAdd(58, 32, 32);
    PowAdd(58, 64, 7);
    PowAdd(256, 13, 13);
    PowAdd(256, 26, 26);
  }

  /** The bytes that `b` digits take. */
  function BytesFor(b: nat): nat { (b * 733 + 999) / 1000 }

  lemma {:induction false} DecodeFitsSmall(b: nat)
    requires b < 15
    ensures Pow(58, b) <= Pow(256, BytesFor(b))
  {
    if b < 8 {
      assert Pow(58, 0) <= Pow(256, 0);
      assert Pow(58, 1) <= Pow(256, 1);
      assert Pow(58, 2) <= Pow(256, 2);
      assert Pow(58, 3) <= Pow(256, 3);
      assert Pow(58, 4) <= Pow(256, 3);
      assert Pow(58, 5) <= Pow(256, 4);
      assert Pow(58, 6) <= Pow(256, 5);
      assert Pow(58, 7) <= Pow(256, 6);
    } else {
      hide Pow;
      EightDigits();
      PowAdd(58, 8, b - 8);
      DecodeFitsSmall(b - 8);
      PowAdd(256, 6, BytesFor(b - 8));
      MulBoth(Pow(58, 8), Pow(256, 6), Pow(58, b - 8), Pow(256, BytesFor(b - 8)));
    }
  }

  lemma {:induction false} EightDigits()
    ensures Pow(58, 8) <= Pow(256, 6)
  {
  }

  // ---- encoding ----

  /** The next accumulation stays within a buffer that holds all of `digits`. */
  lemma {:induction false} NextFits(p: nat, digits: seq<nat>, k: nat, q: nat, size: nat)
    requires p > 0 && IsDigits(p, digits) && k < |digits| && Pow(p, |digits|) <= Pow(q, size)
    ensures Num(p, digits[..k + 1]) == Num(p, digits[..k]) * p + digits[k]
    ensures Num(p, digits[..k]) * p + digits[k] < Pow(q, size)
  {
    assert digits[..k + 1] == digits[..k] + [digits[k]];
    NumAppend(p, digits[..k], digits[k]);
    NumBelow(p, digits[..k + 1]);
    PowMono(p, k + 1, |digits|);
  }

  lemma {:induction false} EmptyBuffer(base: nat, buf: seq<nat>)
    requires forall i | 0 <= i < |buf| :: buf[i] == 0
    ensures Holds(base, buf, 0) && Num(base, buf) == 0
  {
    NumZeros(base, buf);
  }

  lemma {:induction false} LeadIs(s: seq<nat>, k: nat)
    requires k <= |s| && (forall i | 0 <= i < k :: s[i] == 0) && (k < |s| ==> s[k] != 0)
    ensures Lead(s) == k
  {
  }

  method Encode(bytes: seq<Byte>) returns (s: string)
    ensures s == Encoded(bytes)
  {
    hide Num, Pow, Digits, Lead, Holds, IsDigits, Chars;
    var zeroes: nat := 0;
    while zeroes < |bytes| && bytes[zeroes] == 0
      invariant zeroes <= |bytes| && forall i | 0 <= i < zeroes :: bytes[i] == 0
    {
      zeroes := zeroes + 1;
    }
    LeadIs(bytes, zeroes);
    var rest: seq<nat> := bytes[zeroes..];
    ByteDigits(bytes[zeroes..]);
    var size := |rest| * 138 / 100 + 1;
    EncodeFits(|rest|);
    var buf := new nat[size](_ => 0);
    EmptyBuffer(58, buf[..]);
    var length: nat, k: nat := 0, 0;
    assert Num(58, buf[..]) == Num(256, rest[..0]) by { NumZeros(256, rest[..0]); }
    while k < |rest|
      invariant k <= |rest| && length <= size && Holds(58, buf[..], length)
      invariant Num(58, buf[..]) == Num(256, rest[..k])
    {
      NextFits(256, rest, k, 58, size);
      length := Accumulate(buf, length, 58, 256, rest[k]);
      k := k + 1;
    }
    assert rest[..k] == rest;
    var it := size - length;
    while it < size && buf[it] == 0
      invariant size - length <= it <= size && forall j | size - length <= j < it :: buf[j] == 0
    {
      it := it + 1;
    }
    HoldsValue(58, buf[..], length);
    HoldsShape(58, buf[..], length);
    // There was nothing to skip.
    assert it == size - length;
    ByteDigits(bytes);
    ConvertBack(256, 58, bytes);
    var digits: seq<nat> := Zeros(zeroes) + buf[it..];
    assert buf[it..] == buf[..][size - length..];
    s := Chars(digits);
  }

  lemma {:induction false} ByteDigits(bytes: seq<Byte>)
    ensures IsDigits(256, bytes)
  {
  }

  lemma {:induction false} HoldsShape(base: nat, buf: seq<nat>, length: nat)
    requires Holds(base, buf, length)
    ensures length <= |buf| && (length > 0 ==> buf[|buf| - length] != 0)
  {
    if length > 0 { assert buf[|buf| - length] == buf[|buf| - length..][0]; }
  }

  // ---- decoding ----

  lemma {:induction false} TrimLeftSkips(s: string, a: nat)
    requires a <= |s| && (forall i | 0 <= i < a :: IsSpace(s[i])) && (a < |s| ==> !IsSpace(s[a]))
    ensures TrimLeft(s) == s[a..]
  {
    if a > 0 { TrimLeftSkips(s[1..], a - 1); }
  }

  lemma {:induction false} TrimRightPrefix(s: string)
    ensures TrimRight(s) <= s
    ensures forall i | |TrimRight(s)| <= i < |s| :: IsSpace(s[i])
    ensures TrimRight(s) != [] ==> !IsSpace(TrimRight(s)[|TrimRight(s)| - 1])
  {
    if s != [] && IsSpace(s[|s| - 1]) { TrimRightPrefix(s[..|s| - 1]); }
  }

  /** Values read so far: those of a prefix of the text. */
  ghost predicate ReadSoFar(u: string, k: nat, digits: seq<nat>) {
    && k <= |u| && |digits| == k
    && forall i | 0 <= i < k :: !IsSpace(u[i]) && DigitOf(u[i]) == digits[i]
  }

  lemma {:induction false} ReadNext(u: string, k: nat, digits: seq<nat>)
    requires ReadSoFar(u, k, digits) && k < |u| && !IsSpace(u[k]) && DigitOf(u[k]) >= 0
    ensures ReadSoFar(u, k + 1, digits + [DigitOf(u[k])])
  {
  }

  lemma {:induction false} ReadIsPrefix(u: string, k: nat, digits: seq<nat>)
    requires ReadSoFar(u, k, digits)
    ensures IsDigits(58, digits) && k <= |TrimRight(u)|
    ensures InAlphabet(TrimRight(u)) ==> digits <= Values(TrimRight(u))
  {
    TrimRightPrefix(u);
    assert |TrimRight(u)| < |u| ==> IsSpace(u[|TrimRight(u)|]);
    forall i | 0 <= i < k ensures digits[i] < 58 { DigitRoundTrip(0, u[i]); }
  }

  lemma {:induction false} ReadOne(u: string, k: nat, digits: seq<nat>)
    requires ReadSoFar(u, k, digits) && k < |u| && u[k] == '1'
    ensures ReadSoFar(u, k + 1, digits + [0])
  {
  }

  /** A character outside the alphabet where a digit is due spoils the text. */
  lemma {:induction false} BadCharacter(u: string, j: nat)
    requires j < |u| && !IsSpace(u[j]) && (DigitOf(u[j]) < 0 || exists i | 0 <= i < j :: IsSpace(u[i]))
    ensures !InAlphabet(TrimRight(u))
  {
    TrimRightPrefix(u);
    if DigitOf(u[j]) < 0 {
      assert TrimRight(u)[j] == u[j];
    } else {
      var i :| 0 <= i < j && IsSpace(u[i]);
      assert TrimRight(u)[i] == u[i];
    }
  }

  lemma {:induction false} AllRead(u: string, k: nat, digits: seq<nat>)
    requires ReadSoFar(u, k, digits) && forall i | k <= i < |u| :: IsSpace(u[i])
    ensures InAlphabet(TrimRight(u)) && Values(TrimRight(u)) == digits
  {
    TrimRightPrefix(u);
    ReadIsPrefix(u, k, digits);
    var t := TrimRight(u);
    assert |t| <= k;
  }

  lemma {:induction false} NumOfPrefix(b: nat, s: seq<nat>, k: nat)
    requires b > 0 && k <= |s|
    ensures Num(b, s[..k]) <= Num(b, s)
    decreases |s|
  {
    if k < |s| {
      NumOfPrefix(b, s[..|s| - 1], k);
      assert s[..|s| - 1][..k] == s[..k];
      Nonlinear.MulAtLeast(Num(b, s[..|s| - 1]), b);
    } else {
      assert s[..k] == s;
    }
  }

  /** Reading on never shortens the result. */
  lemma {:induction false} ConvertGrows(digits: seq<nat>, all: seq<nat>)
    requires digits <= all
    ensures |Convert(58, 256, digits)| <= |Convert(58, 256, all)|
  {
    var k := Lead(digits);
    assert forall i | 0 <= i < k :: all[i] == digits[i] == 0;
    if k < |digits| {
      assert all[k] == digits[k];
      LeadIs(all, k);
      assert digits[k..] == all[k..][..|digits| - k];
      NumOfPrefix(58, all[k..], |digits| - k);
      DigitsGrow(256, Num(58, digits[k..]), Num(58, all[k..]));
    } else {
      assert Lead(all) >= k;
      assert digits[k..] == [];
    }
  }

  /** A prefix that is already too long settles the outcome. */
  lemma {:induction false} TooLong(u: string, k: nat, digits: seq<nat>, maxLen: int)
    requires ReadSoFar(u, k, digits) && k > 0 && |Convert(58, 256, digits)| > maxLen
    ensures Fitting(TrimRight(u), maxLen) == None
  {
    hide Convert, Lead, Digits, Num;
    ReadIsPrefix(u, k, digits);
    var t := TrimRight(u);
    if InAlphabet(t) {
      ConvertGrows(digits, Values(t));
      NonEmpty(Values(t));
    }
  }

  lemma {:induction false} NonEmpty(digits: seq<nat>)
    requires digits != [] && IsDigits(58, digits)
    ensures Convert(58, 256, digits) != []
  {
    hide Num, Digits;
    var k := Lead(digits);
    if k == 0 {
      assert digits[0..] == digits;
      NumPositive(58, digits);
      DigitsDenote(256, Num(58, digits));
      NumZeros(256, []);
    }
  }

  lemma {:induction false} ConvertIs(digits: seq<nat>, zeroes: nat)
    requires zeroes <= |digits| && (forall i | 0 <= i < zeroes :: digits[i] == 0)
    requires zeroes < |digits| ==> digits[zeroes] != 0
    ensures Convert(58, 256, digits) == Zeros(zeroes) + Digits(256, Num(58, digits[zeroes..]))
  {
    LeadIs(digits, zeroes);
  }

  lemma {:induction false} NextDigitFits(digits: seq<nat>, zeroes: nat, v: nat, n: nat, size: nat)
    requires IsDigits(58, digits) && zeroes <= |digits| && |digits| - zeroes < n && v < 58
    requires Pow(58, n) <= Pow(256, size)
    ensures Num(58, digits[zeroes..] + [v]) == Num(58, digits[zeroes..]) * 58 + v < Pow(256, size)
  {
    var d := digits[zeroes..] + [v];
    NumAppend(58, digits[zeroes..], v);
    NumBelow(58, d);
    PowMono(58, |d|, n);
  }

  /** Reads the digits up to the end or a blank; `zeroes` leading ones have been read before. */
  method ReadDigits(u: string, zeroes: nat, maxLen: int)
      returns (ok: bool, k: nat, bytes: seq<Byte>, ghost digits: seq<nat>)
    requires ReadSoFar(u, zeroes, Zeros(zeroes)) && (zeroes < |u| ==> u[zeroes] != '1')
    requires zeroes > 0 ==> zeroes <= maxLen
    ensures !ok ==> Fitting(TrimRight(u), maxLen) == None
    ensures ok ==> ReadSoFar(u, k, digits) && (k < |u| ==> IsSpace(u[k]))
    ensures ok ==> bytes == Convert(58, 256, digits) && (k > 0 ==> |bytes| <= maxLen)
  {
    hide Num, Pow, Digits, Lead, Holds, IsDigits, Convert, Values, TrimRight, DigitOf, IsSpace, ReadSoFar, Fitting;
    ReadLength(u, zeroes, Zeros(zeroes));
    var size := (|u| - zeroes) * 733 / 1000 + 1;
    DecodeFits(|u| - zeroes);
    var buf := new nat[size](_ => 0);
    EmptyBuffer(256, buf[..]);
    var length: nat := 0;
    k, bytes, digits := zeroes, [], Zeros(zeroes);
    assert Num(256, buf[..]) == Num(58, digits[zeroes..]) by { NumZeros(58, digits[zeroes..]); }
    while k < |u| && !IsSpace(u[k])
      invariant zeroes <= k <= |u| && |digits| == k && ReadSoFar(u, k, digits) && Holds(256, buf[..], length)
      invariant digits[..zeroes] == Zeros(zeroes) && (k > zeroes ==> digits[zeroes] != 0)
      invariant Num(256, buf[..]) == Num(58, digits[zeroes..])
      invariant k > 0 ==> length + zeroes <= maxLen
    {
      var carry := DigitOf(u[k]);
      DigitRoundTrip(0, u[k]);
      if carry == -1 {
        SpoiledAt(u, k, maxLen);
        return false, k, [], [];
      }
      ReadNext(u, k, digits);
      ReadIsPrefix(u, k, digits);
      assert (digits + [carry])[zeroes..] == digits[zeroes..] + [carry];
      NextDigitFits(digits, zeroes, carry, |u| - zeroes, size);
      digits := digits + [carry];
      length := Accumulate(buf, length, 256, 58, carry);
      k := k + 1;
      BufferedIs(digits, zeroes, buf[..], length);
      if length + zeroes > maxLen {
        TooLong(u, k, digits, maxLen);
        return false, k, [], [];
      }
    }
    BufferedIs(digits, zeroes, buf[..], length);
    bytes := CopyOut(buf, length, zeroes);
    ok := true;
  }

  method CopyOut(buf: array<nat>, length: nat, zeroes: nat) returns (bytes: seq<Byte>)
    requires length <= buf.Length && IsDigits(256, buf[..])
    ensures bytes == Zeros(zeroes) + buf[..][buf.Length - length..]
  {
    bytes := seq(zeroes, _ => 0);
    var it := buf.Length - length;
    while it < buf.Length
      invariant buf.Length - length <= it <= buf.Length
      invariant bytes == Zeros(zeroes) + buf[buf.Length - length..it]
    {
      assert buf[it] == buf[..][it];
      bytes := bytes + [buf[it]];
      it := it + 1;
    }
    assert buf[buf.Length - length..it] == buf[..][buf.Length - length..];
  }

  lemma {:induction false} ReadLength(u: string, k: nat, digits: seq<nat>)
    requires ReadSoFar(u, k, digits)
    ensures k <= |u| && |digits| == k
  {
  }

  lemma {:induction false} SpoiledAt(u: string, j: nat, maxLen: int)
    requires j < |u| && !IsSpace(u[j]) && (DigitOf(u[j]) < 0 || exists i | 0 <= i < j :: IsSpace(u[i]))
    ensures Fitting(TrimRight(u), maxLen) == None
  {
    hide TrimRight;
    BadCharacter(u, j);
  }

  /** What the buffer and the count of leading ones stand for. */
  lemma {:induction false} BufferedIs(digits: seq<nat>, zeroes: nat, buf: seq<nat>, length: nat)
    requires zeroes <= |digits| && digits[..zeroes] == Zeros(zeroes) && (zeroes < |digits| ==> digits[zeroes] != 0)
    requires Holds(256, buf, length) && Num(256, buf) == Num(58, digits[zeroes..])
    ensures length <= |buf| && IsDigits(256, buf)
    ensures Convert(58, 256, digits) == Zeros(zeroes) + buf[|buf| - length..]
  {
    hide Num, Digits;
    HoldsValue(256, buf, length);
    forall i | 0 <= i < zeroes ensures digits[i] == 0 { assert digits[i] == digits[..zeroes][i]; }
    ConvertIs(digits, zeroes);
  }

  method Decode(s: string, maxLen: int) returns (r: Option<seq<Byte>>)
    ensures r == Decoded(s, maxLen)
  {
    hide Num, Digits, Lead, Convert, Values, TrimLeft, TrimRight, DigitOf, IsSpace, ReadSoFar;
    var a := 0;
    while a < |s| && IsSpace(s[a])
      invariant a <= |s| && forall i | 0 <= i < a :: IsSpace(s[i])
    {
      a := a + 1;
    }
    TrimLeftSkips(s, a);
    var u := s[a..];
    var zeroes: nat := 0;
    ReadNothing(u);
    while zeroes < |u| && u[zeroes] == '1'
      invariant zeroes <= |u| && ReadSoFar(u, zeroes, Zeros(zeroes))
      invariant zeroes > 0 ==> zeroes <= maxLen
    {
      ReadOne(u, zeroes, Zeros(zeroes));
      assert Zeros(zeroes) + [0] == Zeros(zeroes + 1);
      zeroes := zeroes + 1;
      if zeroes > maxLen {
        ConvertIs(Zeros(zeroes), zeroes);
        TooLong(u, zeroes, Zeros(zeroes), maxLen);
        return None;
      }
    }
    var ok, k, bytes, digits := ReadDigits(u, zeroes, maxLen);
    if !ok {
      return None;
    }
    ReadLength(u, k, digits);
    var e := k;
    while e < |u| && IsSpace(u[e])
      invariant k <= e <= |u| && forall i | k <= i < e :: IsSpace(u[i])
    {
      e := e + 1;
    }
    if e < |u| {
      assert e > k && IsSpace(u[k]);
      SpoiledAt(u, e, maxLen);
      return None;
    }
    AllRead(u, k, digits);
    if k == 0 { ConvertIs(digits, 0); NothingRead(); }
    r := Some(bytes);
  }

  lemma {:induction false} ReadNothing(u: string)
    ensures ReadSoFar(u, 0, Zeros(0))
  {
  }

  lemma {:induction false} NothingRead()
    ensures Convert(58, 256, []) == []
  {
  }

  // ---- with a checksum ----

  const MAX_INT := 0x7fff_ffff

  /** A hash function of at least four bytes, of which the first four make the checksum. */
  ghost predicate Hashes(hash: seq<Byte> -> seq<Byte>) {
    forall b :: |hash(b)| >= 4
  }

  function Checked(bytes: seq<Byte>, hash: seq<Byte> -> seq<Byte>): seq<Byte>
    requires |hash(bytes)| >= 4
  {
    bytes + hash(bytes)[..4]
  }

  method EncodeCheck(bytes: seq<Byte>, hash: seq<Byte> -> seq<Byte>) returns (s: string)
    requires Hashes(hash)
    ensures s == Encoded(Checked(bytes, hash))
  {
    s := Encode(bytes + hash(bytes)[..4]);
  }

  /** Yields exactly those bytes whose checked form the text encodes, if they fit. */
  method DecodeCheck(s: string, maxLen: int, hash: seq<Byte> -> seq<Byte>) returns (r: Option<seq<Byte>>)
    requires Hashes(hash) && maxLen <= MAX_INT
    ensures forall b :: r == Some(b) <==> Trim(s) == Encoded(Checked(b, hash)) && |b| + 4 <= Limit(maxLen)
  {
    hide Decoded, Encoded, Trim, Checked, Limit;
    var d := Decode(s, Limit(maxLen));
    CheckedMeaning(s, maxLen, hash);
    if d.Some? { CheckedSplit(d.value, hash); }
    if d.None? || |d.value| < 4 {
      return None;
    }
    var n := |d.value| - 4;
    if hash(d.value[..n])[..4] != d.value[n..] {
      return None;
    }
    return Some(d.value[..n]);
  }

  lemma {:induction false} CheckedSplit(d: seq<Byte>, hash: seq<Byte> -> seq<Byte>)
    requires Hashes(hash)
    ensures forall b :: d == Checked(b, hash)
                        <==> |d| >= 4 && b == d[..|d| - 4] && hash(d[..|d| - 4])[..4] == d[|d| - 4..]
  {
    forall b | d == Checked(b, hash) ensures |d| >= 4 && b == d[..|d| - 4] && hash(b)[..4] == d[|d| - 4..] {
      assert d[..|d| - 4] == b && d[|d| - 4..] == hash(b)[..4];
    }
    if |d| >= 4 { assert d == d[..|d| - 4] + d[|d| - 4..]; }
  }

  function Limit(maxLen: int): int {
    if maxLen > MAX_INT - 4 then MAX_INT else maxLen + 4
  }

  /** A text means the checked form of some bytes exactly when it is, blanks apart, its encoding. */
  lemma {:induction false} CheckedMeaning(s: string, maxLen: int, hash: seq<Byte> -> seq<Byte>)
    requires Hashes(hash)
    ensures forall b :: Decoded(s, Limit(maxLen)) == Some(Checked(b, hash))
                        <==> Trim(s) == Encoded(Checked(b, hash)) && |b| + 4 <= Limit(maxLen)
  {
    hide Encoded, Trim;
    forall b
      ensures Decoded(s, Limit(maxLen)) == Some(Checked(b, hash))
              <==> Trim(s) == Encoded(Checked(b, hash)) && |b| + 4 <= Limit(maxLen)
    {
      var c := Checked(b, hash);
      DecodeEncoded(c, Limit(maxLen));
      if Decoded(s, Limit(maxLen)) == Some(c) { EncodeDecoded(s, Limit(maxLen)); }
      if Trim(s) == Encoded(c) { TrimEncoded(c); }
    }
  }

  lemma {:induction false} TrimEncoded(bytes: seq<Byte>)
    ensures Trim(Encoded(bytes)) == Encoded(bytes)
  {
    hide Convert, Chars, Trim;
    ConvertBack(256, 58, bytes);
    CharsInAlphabet(Convert(256, 58, bytes));
    NoBlanks(Encoded(bytes));
  }
}
