/** Conversions of src/Utility.cpp: bit strings to bytes and back, and 128-bit numbers to decimal text
    and back. */
module Utility {
  import opened Bits

  type Byte = b: nat | b < 256

  datatype Option<+T> = None | Some(value: T)

  function Min(a: int, b: int): int { if a < b then a else b }

  /** `s.find(t) != npos` */
  predicate Contains(s: string, t: string) {
    exists i :: 0 <= i <= |s| && OccursAt(s, t, i)
  }

  predicate OccursAt(s: string, t: string, i: nat) {
    i + |t| <= |s| && s[i..i + |t|] == t
  }

  lemma {:induction false} ContainsIff(s: string, t: string)
    ensures Contains(s, t) <==> exists x: string, y: string :: s == x + t + y
  {
    if i :| 0 <= i <= |s| && OccursAt(s, t, i) { assert s == s[..i] + t + s[i + |t|..]; }
    if x: string, y: string :| s == x + t + y {
      assert s[|x|..|x| + |t|] == t;
      assert OccursAt(s, t, |x|);
    }
  }

  lemma {:induction false} ByteIsEightBits(s: BitString)
    requires |s| <= 8
    ensures FromBits(s) < 256
  {
    ToFromBits(s);
    forall i: nat | i >= 8 ensures !Bit(FromBits(s), i) { BitOfFromBits(s, i); }
    FitsIffNoHighBits(FromBits(s), 8);
    assert Pow2(8) == 256;
  }

  // ----- Bits to bytes -----

  /** Eight bits at a time from position `pos` on; the last group may be shorter. */
  function BytesFrom(s: BitString, pos: nat): seq<Byte>
    decreases |s| - pos
  {
    if pos >= |s| then []
    else
      ByteIsEightBits(s[pos..Min(pos + 8, |s|)]);
      [FromBits(s[pos..Min(pos + 8, |s|)])] + BytesFrom(s, pos + 8)
  }

  function StringToBytes(s: BitString): seq<Byte> { BytesFrom(s, 0) }

  method StringToByteVector(bitstr: BitString) returns (vec: seq<Byte>)
    ensures vec == StringToBytes(bitstr)
  {
    vec := [];
    var pos := 0;
    while pos < |bitstr|
      invariant 0 <= pos
      invariant vec + BytesFrom(bitstr, pos) == StringToBytes(bitstr)
      decreases |bitstr| - pos
    {
      var group := bitstr[pos..Min(pos + 8, |bitstr|)];
      ByteIsEightBits(group);
      assert vec + ([FromBits(group)] + BytesFrom(bitstr, pos + 8))
        == vec + [FromBits(group)] + BytesFrom(bitstr, pos + 8);
      vec := vec + [FromBits(group)];
      pos := pos + 8;
    }
  }

  /** Every byte written with exactly eight digits. */
  function VectorToBits(vec: seq<Byte>): (s: BitString)
    ensures |s| == 8 * |vec|
  {
    if vec == [] then [] else ToBits(vec[0], 8) + VectorToBits(vec[1..])
  }

  /** What a trip through bytes does to a bit string: a last incomplete group is padded on its left. */
  function PaddedToBytes(s: BitString): (p: BitString)
    ensures |p| == if |s| % 8 == 0 then |s| else |s| + 8 - |s| % 8
  {
    var r := |s| % 8;
    if r == 0 then s else s[..|s| - r] + (Zeros(8 - r) + s[|s| - r..])
  }

  lemma {:induction false} BitsBytesBitsFrom(s: BitString, pos: nat)
    requires pos % 8 == 0 && pos <= |PaddedToBytes(s)|
    ensures VectorToBits(BytesFrom(s, pos)) == PaddedToBytes(s)[pos..]
    decreases |s| - pos
  {
    if pos < |s| {
      hide PaddedToBytes, ToBits, FromBits, Pow2;
      var p, group := PaddedToBytes(s), s[pos..Min(pos + 8, |s|)];
      GroupIsPadded(s, pos);
      BitsBytesBitsFrom(s, pos + 8);
      ByteIsEightBits(group);
      FirstByte(FromBits(group), BytesFrom(s, pos + 8));
      assert p[pos..] == p[pos..pos + 8] + p[pos + 8..];
    } else {
      NoGroupLeft(s, pos);
    }
  }

  lemma {:induction false} FirstByte(byte: Byte, vec: seq<Byte>)
    ensures VectorToBits([byte] + vec) == ToBits(byte, 8) + VectorToBits(vec)
  {
  }

  lemma {:induction false} NoGroupLeft(s: BitString, pos: nat)
    requires pos % 8 == 0 && |s| <= pos <= |PaddedToBytes(s)|
    ensures pos == |PaddedToBytes(s)|
  {
  }

  lemma {:induction false} GroupIsPadded(s: BitString, pos: nat)
    requires pos % 8 == 0 && pos < |s|
    ensures pos + 8 <= |PaddedToBytes(s)|
    ensures ToBits(FromBits(s[pos..Min(pos + 8, |s|)]), 8) == PaddedToBytes(s)[pos..pos + 8]
  {
    GroupStart(|s|, pos);
    var r := |s| % 8;
    if pos + 8 <= |s| {
      ToFromBits(s[pos..pos + 8]);
    } else {
      PaddedByte(s[pos..]);
      assert s[pos..Min(pos + 8, |s|)] == s[pos..];
      assert PaddedToBytes(s)[pos..pos + 8] == Zeros(8 - r) + s[pos..];
    }
  }

  lemma {:induction false} GroupStart(n: nat, pos: nat)
    requires pos % 8 == 0 && pos < n
    ensures pos + 8 <= n ==> pos + 8 <= n - n % 8
    ensures pos + 8 > n ==> pos == n - n % 8
  {
  }

  lemma {:induction false} PaddedByte(g: BitString)
    requires |g| <= 8
    ensures ToBits(FromBits(g), 8) == Zeros(8 - |g|) + g
  {
    forall k | 0 <= k < 8 ensures ToBits(FromBits(g), 8)[k] == (Zeros(8 - |g|) + g)[k] {
      BitOfFromBits(g, 7 - k);
    }
  }

  lemma {:induction false} BitsBytesBits(s: BitString)
    ensures VectorToBits(StringToBytes(s)) == PaddedToBytes(s)
  {
    BitsBytesBitsFrom(s, 0);
  }

  /** Bytes give the bit string back exactly when its length is a multiple of eight. */
  lemma {:induction false} BitsSurviveBytes(s: BitString)
    ensures VectorToBits(StringToBytes(s)) == s <==> |s| % 8 == 0
  {
    BitsBytesBits(s);
  }

  /** Every byte string comes back from its bits. */
  lemma {:induction false} BytesSurviveBits(vec: seq<Byte>)
    ensures StringToBytes(VectorToBits(vec)) == vec
  {
    BytesSurviveBitsFrom(vec, 0);
  }

  lemma {:induction false} BytesSurviveBitsFrom(vec: seq<Byte>, i: nat)
    requires i <= |vec|
    ensures BytesFrom(VectorToBits(vec), 8 * i) == vec[i..]
    decreases |vec| - i
  {
    if i < |vec| {
      ByteAt(vec, i);
      ByteFromToBits(vec[i]);
      BytesSurviveBitsFrom(vec, i + 1);
      assert BytesFrom(VectorToBits(vec), 8 * i) == [vec[i]] + vec[i + 1..];
    }
  }

  lemma {:induction false} ByteFromToBits(b: Byte)
    ensures FromBits(ToBits(b, 8)) == b
  {
    assert Pow2(8) == 256;
    FromToBits(b, 8);
  }

  lemma {:induction false} ByteAt(vec: seq<Byte>, i: nat)
    requires i < |vec|
    ensures VectorToBits(vec)[8 * i..8 * i + 8] == ToBits(vec[i], 8)
  {
    if i > 0 {
      ByteAt(vec[1..], i - 1);
    }
  }

  /** Digit `j` of byte `k` is its bit `7 - j`. */
  lemma {:induction false} BitOfBits(vec: seq<Byte>, k: nat, j: nat)
    requires k < |vec| && j < 8
    ensures VectorToBits(vec)[8 * k + j] == Bit(vec[k], 7 - j)
  {
    ByteAt(vec, k);
    assert VectorToBits(vec)[8 * k..8 * k + 8][j] == VectorToBits(vec)[8 * k + j];
    ToBitsAt(vec[k], 8, j);
  }

  lemma {:induction false} NumberOfBytes(s: BitString, pos: nat)
    requires pos <= |s|
    ensures |BytesFrom(s, pos)| == (|s| - pos + 7) / 8
    decreases |s| - pos
  {
    if pos + 8 <= |s| { NumberOfBytes(s, pos + 8); }
  }

  lemma {:induction false} ByteFrom(s: BitString, pos: nat, k: nat)
    requires pos + 8 * k < |s|
    ensures k < |BytesFrom(s, pos)|
    ensures BytesFrom(s, pos)[k] == FromBits(s[pos + 8 * k..Min(pos + 8 * k + 8, |s|)])
    decreases k
  {
    hide FromBits;
    if k > 0 {
      ByteFrom(s, pos + 8, k - 1);
      assert pos + 8 + 8 * (k - 1) == pos + 8 * k;
      assert BytesFrom(s, pos)[1..] == BytesFrom(s, pos + 8);
    }
  }

  /** Byte `k` holds the digits from `8 * k` on, most significant first; the digits of a short last group stand at its
      low end. */
  lemma {:induction false} BitOfByte(s: BitString, k: nat, j: nat)
    requires 8 * k < |s| && j < 8
    ensures |StringToBytes(s)| == (|s| + 7) / 8 > k
    ensures
      Bit(StringToBytes(s)[k], j)
      == if 8 * k + 8 <= |s| then s[8 * k + 7 - j] else 8 * k + j < |s| && s[|s| - 1 - j]
  {
    hide FromBits, Bit;
    NumberOfBytes(s, 0);
    ByteFrom(s, 0, k);
    BitOfFromBits(s[8 * k..Min(8 * k + 8, |s|)], j);
  }

  // ----- Decimal text of 128-bit numbers -----

  const TWO_64: nat := 0x1_0000_0000_0000_0000
  const TWO_128: nat := 0x1_0000_0000_0000_0000_0000_0000_0000_0000

  function Wrap128(n: nat): (r: nat)
    ensures r < TWO_128
    ensures n < TWO_128 ==> r == n
  {
    n % TWO_128
  }

  predicate IsDigit(c: char) { '0' <= c <= '9' }

  function DigitChar(d: nat): (c: char)
    requires d < 10
    ensures IsDigit(c)
  {
    (d + '0' as int) as char
  }

  function DigitValue(c: char): (d: nat)
    requires IsDigit(c)
    ensures d < 10 && DigitChar(d) == c
  {
    c as int - '0' as int
  }

  /** Decimal digits of a number, as the standard library prints one. */
  function Decimal(x: nat): string {
    if x < 10 then [DigitChar(x)] else Decimal(x / 10) + [DigitChar(x % 10)]
  }

  /** Numbers that do not fit in 64 bits are peeled digit by digit until the rest does. */
  function PutValue(x: nat): string
    requires x < TWO_128
  {
    if x >= TWO_64 then PutValue(x / 10) + Decimal(x % 10) else Decimal(x)
  }

  /** The stream operator: everything printed so far, then the number. */
  function StreamOut(out: string, x: nat): string
    requires x < TWO_128
    decreases x
  {
    if x >= TWO_64 then StreamOut(out, x / 10) + Decimal(x % 10) else out + Decimal(x)
  }

  predicate Numeric(s: string) { forall k | 0 <= k < |s| :: IsDigit(s[k]) }

  /** The unbounded number a digit string denotes; the empty string denotes zero. */
  function NumeralValue(s: string): nat
    requires Numeric(s)
  {
    if s == [] then 0 else 10 * NumeralValue(s[..|s| - 1]) + DigitValue(s[|s| - 1])
  }

  /** The parser throws (None) on a character that is no digit; its 128-bit accumulator wraps. */
  method GetValue(str: string) returns (r: Option<nat>)
    ensures r.Some? <==> Numeric(str)
    ensures r.Some? ==> r.value == Wrap128(NumeralValue(str))
  {
    var res := 0;
    var i := 0;
    while i < |str|
      invariant 0 <= i <= |str| && Numeric(str[..i])
      invariant res == Wrap128(NumeralValue(str[..i]))
    {
      var c := str[i];
      if !IsDigit(c) { return None; }
      assert str[..i + 1][..i] == str[..i];
      WrapStep(NumeralValue(str[..i]), DigitValue(c));
      res := Wrap128(res * 10);
      res := Wrap128(res + DigitValue(c));
      i := i + 1;
    }
    assert str[..i] == str;
    return Some(res);
  }

  /** Wrapping after every multiplication and addition is the same as wrapping once. */
  lemma {:induction false} WrapStep(n: nat, d: nat)
    ensures Wrap128(Wrap128(Wrap128(n) * 10) + d) == Wrap128(10 * n + d)
  {
    hide Wrap128;
    var q := WholeWraps(n);
    Unwrap(10 * Wrap128(n), 10 * q);
    var p := WholeWraps(Wrap128(n) * 10);
    Unwrap(Wrap128(Wrap128(n) * 10) + d, p);
    Unwrap(Wrap128(Wrap128(n) * 10) + d, p + 10 * q);
  }

  lemma {:induction false} WholeWraps(n: nat) returns (q: nat)
    ensures n == q * TWO_128 + Wrap128(n)
  {
    q := n / TWO_128;
  }

  lemma {:induction false} Unwrap(n: nat, q: nat)
    ensures Wrap128(n + q * TWO_128) == Wrap128(n)
  {
    if q > 0 {
      Unwrap(n, q - 1);
      OneWrap(n + (q - 1) * TWO_128);
    }
  }

  lemma {:induction false} OneWrap(n: nat)
    ensures Wrap128(n + TWO_128) == Wrap128(n)
  {
  }

  /** Printing is plain decimal: the 64-bit shortcut changes no digit. */
  lemma {:induction false} PutValueIsDecimal(x: nat)
    requires x < TWO_128
    ensures PutValue(x) == Decimal(x)
  {
    if x >= TWO_64 { PutValueIsDecimal(x / 10); }
  }

  lemma {:induction false} StreamOutPrintsPutValue(out: string, x: nat)
    requires x < TWO_128
    ensures StreamOut(out, x) == out + PutValue(x)
  {
    if x >= TWO_64 { StreamOutPrintsPutValue(out, x / 10); }
  }

  lemma {:induction false} DecimalDenotes(x: nat)
    ensures Numeric(Decimal(x)) && NumeralValue(Decimal(x)) == x
  {
    if x >= 10 {
      DecimalDenotes(x / 10);
      assert Decimal(x)[..|Decimal(x)| - 1] == Decimal(x / 10);
    } else {
      assert Decimal(x)[..0] == [];
    }
  }

  /** No leading zero, at least one digit. */
  predicate Canonical(s: string) {
    Numeric(s) && s != [] && (s[0] == '0' ==> |s| == 1)
  }

  lemma {:induction false} DecimalOfNumeral(s: string)
    requires Canonical(s)
    ensures Decimal(NumeralValue(s)) == s
    ensures s[0] != '0' ==> NumeralValue(s) > 0
  {
    var init := s[..|s| - 1];
    if |s| == 1 {
      assert init == [];
    } else {
      DecimalOfNumeral(init);
      assert init[0] == s[0];
      assert init + [s[|s| - 1]] == s;
    }
  }

  /** Parsing what was printed returns every 128-bit number; nothing wraps on the way. */
  lemma {:induction false} ParsePrinted(x: nat)
    requires x < TWO_128
    ensures Numeric(PutValue(x)) && Wrap128(NumeralValue(PutValue(x))) == x
  {
    PutValueIsDecimal(x);
    DecimalDenotes(x);
  }

  /** Printing what was parsed returns the text exactly for the canonical numerals in range. */
  lemma {:induction false} PrintParsed(s: string)
    requires Numeric(s)
    ensures PutValue(Wrap128(NumeralValue(s))) == s <==> Canonical(s) && NumeralValue(s) < TWO_128
  {
    var x := Wrap128(NumeralValue(s));
    OnlyCanonicalPrinted(s, x);
    if Canonical(s) && NumeralValue(s) < TWO_128 {
      DecimalOfNumeral(s);
      PutValueIsDecimal(x);
    }
  }

  lemma {:induction false} OnlyCanonicalPrinted(s: string, x: nat)
    requires Numeric(s) && x < TWO_128
    ensures PutValue(x) == s ==> Canonical(s) && NumeralValue(s) == x
  {
    PutValueIsDecimal(x);
    DecimalIsCanonical(x);
    DecimalDenotes(x);
  }

  lemma {:induction false} DecimalIsCanonical(x: nat)
    ensures Canonical(Decimal(x))
    ensures x > 0 ==> Decimal(x)[0] != '0'
  {
    if x >= 10 { DecimalIsCanonical(x / 10); }
  }
}
