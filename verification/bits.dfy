/** Machine words as natural numbers and bit strings as sequences of booleans.

    The C++ code shifts, masks and adds unsigned words, and it writes the same words out as strings
    of '0' and '1', most significant bit first. A word is a `nat` here, a bit string is a `seq<bool>`,
    and every operation is characterised by what it does to each single bit (`Bit`), so that equality of
    words is proved bit by bit (`SameBits`). */
module Bits {
  type BitString = seq<bool>

  function Pow2(n: nat): (p: nat)
    ensures p > 0
  {
    if n == 0 then 1 else 2 * Pow2(n - 1)
  }

  /** Bit number `i` of `a`, counted from the least significant bit. */
  predicate Bit(a: nat, i: nat) {
    if i == 0 then a % 2 == 1 else Bit(a / 2, i - 1)
  }

  function And(a: nat, b: nat): nat {
    if a == 0 then 0 else 2 * And(a / 2, b / 2) + (if a % 2 == 1 && b % 2 == 1 then 1 else 0)
  }

  function Or(a: nat, b: nat): nat
    decreases a + b
  {
    if a == 0 && b == 0 then 0 else 2 * Or(a / 2, b / 2) + (if a % 2 == 1 || b % 2 == 1 then 1 else 0)
  }

  function Shl(a: nat, n: nat): nat
    decreases n
  {
    if n == 0 then a else Shl(2 * a, n - 1)
  }

  function Shr(a: nat, n: nat): nat {
    if n == 0 then a else Shr(a / 2, n - 1)
  }

  /** The low `w` bits of `a`. */
  function Truncate(w: nat, a: nat): nat {
    if w == 0 then 0 else 2 * Truncate(w - 1, a / 2) + a % 2
  }

  /** `~a` on a word of `w` bits. */
  function Complement(w: nat, a: nat): nat {
    if w == 0 then 0 else 2 * Complement(w - 1, a / 2) + (1 - a % 2)
  }

  /** Number of trailing zeros; like the builtin, only defined for a non-zero word. */
  function Ctz(a: nat): nat
    requires a > 0
  {
    if a % 2 == 1 then 0 else 1 + Ctz(a / 2)
  }

  function Popcount(a: nat): nat {
    if a == 0 then 0 else Popcount(a / 2) + a % 2
  }

  // ----- Bits of the results -----

  lemma {:induction false} SameBits(a: nat, b: nat)
    requires forall i: nat :: Bit(a, i) == Bit(b, i)
    ensures a == b
    decreases a + b
  {
    assert Bit(a, 0) == Bit(b, 0);
    if a + b > 0 {
      forall i: nat ensures Bit(a / 2, i) == Bit(b / 2, i) {
        assert Bit(a, i + 1) == Bit(b, i + 1);
      }
      SameBits(a / 2, b / 2);
    }
  }

  lemma {:induction false} BitOfZero(i: nat)
    ensures !Bit(0, i)
  {
    if i > 0 { BitOfZero(i - 1); }
  }

  lemma {:induction false} BitOfAnd(a: nat, b: nat, i: nat)
    ensures Bit(And(a, b), i) == (Bit(a, i) && Bit(b, i))
  {
    if a == 0 {
      BitOfZero(i);
    } else if i > 0 {
      BitOfAnd(a / 2, b / 2, i - 1);
      assert And(a, b) / 2 == And(a / 2, b / 2);
    }
  }

  /** Doubling a number and adding a bit moves its bits one up. */
  lemma {:induction false} BitOfDouble(half: nat, low: bool, i: nat)
    ensures
      Bit(2 * half + (if low then 1 else 0), i) == if i == 0 then low else Bit(half, i - 1)
  {
  }

  lemma {:induction false} BitOfOr(a: nat, b: nat, i: nat)
    ensures Bit(Or(a, b), i) == (Bit(a, i) || Bit(b, i))
    decreases i
  {
    if a == 0 && b == 0 {
      BitOfZero(i);
    } else {
      BitOfDouble(Or(a / 2, b / 2), a % 2 == 1 || b % 2 == 1, i);
      if i > 0 { BitOfOr(a / 2, b / 2, i - 1); }
    }
  }

  lemma {:induction false} BitOfShl(a: nat, n: nat, i: nat)
    ensures Bit(Shl(a, n), i) == (i >= n && Bit(a, i - n))
    decreases n
  {
    if n > 0 {
      BitOfShl(2 * a, n - 1, i);
      if i >= n {
        assert (2 * a) / 2 == a;
        assert Bit(2 * a, i - n + 1) == Bit(a, i - n);
      }
    }
  }

  lemma {:induction false} BitOfShr(a: nat, n: nat, i: nat)
    ensures Bit(Shr(a, n), i) == Bit(a, i + n)
  {
    if n > 0 { BitOfShr(a / 2, n - 1, i); }
  }

  lemma {:induction false} BitOfTruncate(w: nat, a: nat, i: nat)
    ensures Bit(Truncate(w, a), i) == (i < w && Bit(a, i))
  {
    if w == 0 {
      BitOfZero(i);
    } else if i > 0 {
      BitOfTruncate(w - 1, a / 2, i - 1);
      assert Truncate(w, a) / 2 == Truncate(w - 1, a / 2);
    }
  }

  lemma {:induction false} BitOfComplement(w: nat, a: nat, i: nat)
    ensures Bit(Complement(w, a), i) == (i < w && !Bit(a, i))
  {
    if w == 0 {
      BitOfZero(i);
    } else {
      BitOfDouble(Complement(w - 1, a / 2), a % 2 == 0, i);
      if i > 0 { BitOfComplement(w - 1, a / 2, i - 1); }
    }
  }

  lemma {:induction false} CtzIsLowestBit(a: nat)
    requires a > 0
    ensures Bit(a, Ctz(a))
    ensures forall i: nat | i < Ctz(a) :: !Bit(a, i)
  {
    if a % 2 == 0 {
      CtzIsLowestBit(a / 2);
      forall i: nat | i < Ctz(a) ensures !Bit(a, i) {
        if i > 0 { assert !Bit(a / 2, i - 1); }
      }
    }
  }

  lemma {:induction false} CtzUnique(a: nat, n: nat)
    requires a > 0 && Bit(a, n)
    requires forall i: nat | i < n :: !Bit(a, i)
    ensures Ctz(a) == n
  {
    CtzIsLowestBit(a);
  }

  lemma {:induction false} ShlOfZero(n: nat)
    ensures Shl(0, n) == 0
    decreases n
  {
    if n > 0 { ShlOfZero(n - 1); }
  }

  /** A single bit. */
  lemma {:induction false} SingleBit(n: nat)
    ensures Shl(1, n) > 0 && Ctz(Shl(1, n)) == n
    ensures forall b: nat :: Bit(Shl(1, n), b) == (b == n)
  {
    forall b: nat ensures Bit(Shl(1, n), b) == (b == n) {
      BitOfShl(1, n, b);
      if b > n { BitOfZero(b - n - 1); }
    }
    assert Bit(Shl(1, n), n);
    BitOfZero(n);
    CtzUnique(Shl(1, n), n);
  }

  /** A word fits in `w` bits exactly when it has no bit from `w` on. */
  lemma {:induction false} FitsIffNoHighBits(a: nat, w: nat)
    ensures a < Pow2(w) <==> forall i: nat | i >= w :: !Bit(a, i)
  {
    if w == 0 {
      if a == 0 {
        forall i: nat ensures !Bit(a, i) { BitOfZero(i); }
      } else {
        CtzIsLowestBit(a);
        var i := Ctz(a);
        assert Bit(a, i);
        assert exists k: nat :: k >= w && Bit(a, k);
      }
    } else {
      FitsIffNoHighBits(a / 2, w - 1);
      if a < Pow2(w) {
        forall i: nat | i >= w ensures !Bit(a, i) {
          assert !Bit(a / 2, i - 1);
        }
      } else {
        var j: nat :| j >= w - 1 && Bit(a / 2, j);
        var i := j + 1;
        assert Bit(a, i) == Bit(a / 2, i - 1);
        assert exists k: nat :: k >= w && Bit(a, k);
      }
    }
  }

  /** A set bit from `w` on makes a word too large for `w` bits. */
  lemma {:induction false} HighBitOverflows(a: nat, w: nat, n: nat)
    requires n >= w && Bit(a, n)
    ensures a >= Pow2(w)
  {
    FitsIffNoHighBits(a, w);
    assert exists i: nat :: i >= w && Bit(a, i);
  }

  lemma {:induction false} TruncateFits(w: nat, a: nat)
    ensures Truncate(w, a) < Pow2(w)
    ensures a < Pow2(w) ==> Truncate(w, a) == a
  {
    forall i: nat | i >= w ensures !Bit(Truncate(w, a), i) { BitOfTruncate(w, a, i); }
    FitsIffNoHighBits(Truncate(w, a), w);
    if a < Pow2(w) {
      FitsIffNoHighBits(a, w);
      forall i: nat ensures Bit(Truncate(w, a), i) == Bit(a, i) { BitOfTruncate(w, a, i); }
      SameBits(Truncate(w, a), a);
    }
  }

  lemma {:induction false} Pow2Monotone(m: nat, n: nat)
    requires m <= n
    ensures Pow2(m) <= Pow2(n)
  {
    if m < n { Pow2Monotone(m, n - 1); }
  }

  lemma {:induction false} Pow2Of32()
    ensures Pow2(32) == 0x1_0000_0000
  {
    assert Pow2(8) == 256;
    assert Pow2(16) == 256 * Pow2(8);
    assert Pow2(24) == 256 * Pow2(16);
    assert Pow2(32) == 256 * Pow2(24);
  }

  /** The word of `w` ones. */
  lemma {:induction false} BitOfOnes(w: nat, i: nat)
    ensures Bit(Pow2(w) - 1, i) == (i < w)
  {
    if w == 0 {
      BitOfZero(i);
    } else if i > 0 {
      assert (Pow2(w) - 1) / 2 == Pow2(w - 1) - 1;
      BitOfOnes(w - 1, i - 1);
    }
  }

  /** Two words share no set bit. */
  ghost predicate Disjoint(a: nat, b: nat) {
    forall i: nat :: !(Bit(a, i) && Bit(b, i))
  }

  /** Every set bit of `a` is set in `b`. */
  ghost predicate Within(a: nat, b: nat) {
    forall i: nat | Bit(a, i) :: Bit(b, i)
  }

  lemma {:induction false} OrAndAnd(a: nat, b: nat)
    ensures a + b == Or(a, b) + And(a, b)
    decreases a + b
  {
    if a > 0 { OrAndAnd(a / 2, b / 2); } else if b > 0 { OrAndAnd(0, b / 2); }
  }

  /** Adding is the same as or-ing exactly for words with no common bit; otherwise carries make the sum larger. */
  lemma {:induction false} AddIsOr(a: nat, b: nat)
    ensures a + b >= Or(a, b)
    ensures a + b == Or(a, b) <==> Disjoint(a, b)
  {
    hide Or, And, Bit;
    OrAndAnd(a, b);
    if Disjoint(a, b) {
      forall i: nat ensures Bit(And(a, b), i) == Bit(0, i) {
        BitOfAnd(a, b, i);
        BitOfZero(i);
      }
      SameBits(And(a, b), 0);
    }
    if And(a, b) == 0 {
      forall i: nat ensures !(Bit(a, i) && Bit(b, i)) {
        BitOfAnd(a, b, i);
        BitOfZero(i);
      }
    }
  }

  /** A word dropped too early is dropped all the same. */
  lemma {:induction false} TruncateSum(w: nat, a: nat, c: nat)
    ensures Truncate(w, Truncate(w, a) + c) == Truncate(w, a + c)
  {
    if w > 0 {
      var carry := (a % 2 + c % 2) / 2;
      TruncateSum(w - 1, a / 2, c / 2 + carry);
      assert (a + c) / 2 == a / 2 + (c / 2 + carry);
      assert (Truncate(w, a) + c) / 2 == Truncate(w - 1, a / 2) + (c / 2 + carry);
    }
  }

  lemma {:induction false} OrFits(a: nat, b: nat, w: nat)
    requires a < Pow2(w) && b < Pow2(w)
    ensures Or(a, b) < Pow2(w)
  {
    FitsIffNoHighBits(a, w);
    FitsIffNoHighBits(b, w);
    forall i: nat | i >= w ensures !Bit(Or(a, b), i) { BitOfOr(a, b, i); }
    FitsIffNoHighBits(Or(a, b), w);
  }

  /** As many set bits as there are low ones: the word is exactly that run of ones. */
  lemma {:induction false} LowOnesOnly(a: nat, n: nat)
    requires forall i: nat | i < n :: Bit(a, i)
    ensures Popcount(a) >= n
    ensures Popcount(a) == n <==> a == Pow2(n) - 1
  {
    if n == 0 {
      PopcountZero(a);
    } else {
      assert Bit(a, 0);
      forall i: nat | i < n - 1 ensures Bit(a / 2, i) { assert Bit(a, i + 1); }
      LowOnesOnly(a / 2, n - 1);
    }
  }

  lemma {:induction false} PopcountZero(a: nat)
    ensures Popcount(a) == 0 <==> a == 0
  {
    if a > 0 { PopcountZero(a / 2); }
  }

  // ----- Union of a list of words -----

  function OrAll(cs: seq<nat>): nat {
    if cs == [] then 0 else Or(OrAll(cs[..|cs| - 1]), cs[|cs| - 1])
  }

  lemma {:induction false} BitOfOrAll(cs: seq<nat>, i: nat)
    ensures Bit(OrAll(cs), i) <==> exists k :: 0 <= k < |cs| && Bit(cs[k], i)
  {
    if cs == [] {
      BitOfZero(i);
    } else {
      var init := cs[..|cs| - 1];
      BitOfOrAll(init, i);
      BitOfOr(OrAll(init), cs[|cs| - 1], i);
      if Bit(OrAll(init), i) {
        var k :| 0 <= k < |init| && Bit(init[k], i);
        assert Bit(cs[k], i);
      }
      if k :| 0 <= k < |cs| && Bit(cs[k], i) {
        if k < |init| { assert Bit(init[k], i); }
      }
    }
  }

  lemma {:induction false} OrAllFits(cs: seq<nat>, w: nat)
    requires forall k | 0 <= k < |cs| :: cs[k] < Pow2(w)
    ensures OrAll(cs) < Pow2(w)
  {
    if cs != [] {
      OrAllFits(cs[..|cs| - 1], w);
      OrFits(OrAll(cs[..|cs| - 1]), cs[|cs| - 1], w);
    }
  }

  // ----- Sum of a list of words -----

  function Sum(cs: seq<nat>): nat {
    if cs == [] then 0 else Sum(cs[..|cs| - 1]) + cs[|cs| - 1]
  }

  ghost predicate PairwiseDisjoint(cs: seq<nat>) {
    forall i, j | 0 <= i < j < |cs| :: Disjoint(cs[i], cs[j])
  }

  lemma {:induction false} DisjointFromUnion(cs: seq<nat>, x: nat)
    ensures Disjoint(OrAll(cs), x) <==> forall i | 0 <= i < |cs| :: Disjoint(cs[i], x)
  {
    if forall i | 0 <= i < |cs| :: Disjoint(cs[i], x) {
      forall b: nat ensures !(Bit(OrAll(cs), b) && Bit(x, b)) { BitOfOrAll(cs, b); }
    }
    if Disjoint(OrAll(cs), x) {
      forall i, b: nat | 0 <= i < |cs| ensures !(Bit(cs[i], b) && Bit(x, b)) { BitOfOrAll(cs, b); }
    }
  }

  /** Words add up to their union exactly when no two of them share a bit. */
  lemma {:induction false} SumIsUnionIff(cs: seq<nat>)
    ensures Sum(cs) >= OrAll(cs)
    ensures Sum(cs) == OrAll(cs) <==> PairwiseDisjoint(cs)
  {
    hide Or, Disjoint;
    if cs != [] {
      var init, c := cs[..|cs| - 1], cs[|cs| - 1];
      SumIsUnionIff(init);
      AddIsOr(OrAll(init), c);
      DisjointFromUnion(init, c);
      assert PairwiseDisjoint(cs) <==> PairwiseDisjoint(init) && forall i | 0 <= i < |init| :: Disjoint(init[i], c);
    }
  }

  // ----- Bit strings -----

  /** `n` bits of `v`, most significant first; higher bits of `v` are dropped. */
  function ToBits(v: nat, n: nat): (s: BitString)
    ensures |s| == n
  {
    seq(n, k requires 0 <= k < n => Bit(v, n - 1 - k))
  }

  lemma {:induction false} ToBitsAt(v: nat, n: nat, j: nat)
    requires j < n
    ensures ToBits(v, n)[j] == Bit(v, n - 1 - j)
  {
  }

  /** The number a bit string stands for, most significant bit first. */
  function FromBits(s: BitString): nat {
    PrefixValue(s, |s|)
  }

  /** The number the first `n` bits stand for. */
  function PrefixValue(s: BitString, n: nat): nat
    requires n <= |s|
  {
    if n == 0 then 0 else 2 * PrefixValue(s, n - 1) + (if s[n - 1] then 1 else 0)
  }

  lemma {:induction false} BitOfPrefixValue(s: BitString, n: nat, i: nat)
    requires n <= |s|
    ensures Bit(PrefixValue(s, n), i) == (i < n && s[n - 1 - i])
  {
    hide Bit;
    if n == 0 {
      BitOfZero(i);
    } else {
      BitOfDouble(PrefixValue(s, n - 1), s[n - 1], i);
      if i > 0 { BitOfPrefixValue(s, n - 1, i - 1); }
    }
  }

  lemma {:induction false} BitOfFromBits(s: BitString, i: nat)
    ensures Bit(FromBits(s), i) == (i < |s| && s[|s| - 1 - i])
  {
    BitOfPrefixValue(s, |s|, i);
  }

  /** Writing `n` bits and reading them back gives the low `n` bits. */
  lemma {:induction false} FromToBits(v: nat, n: nat)
    ensures FromBits(ToBits(v, n)) == Truncate(n, v)
    ensures v < Pow2(n) ==> FromBits(ToBits(v, n)) == v
  {
    forall i: nat ensures Bit(FromBits(ToBits(v, n)), i) == Bit(Truncate(n, v), i) {
      BitOfFromBits(ToBits(v, n), i);
      BitOfTruncate(n, v, i);
    }
    SameBits(FromBits(ToBits(v, n)), Truncate(n, v));
    TruncateFits(n, v);
  }

  lemma {:induction false} ToFromBits(s: BitString)
    ensures ToBits(FromBits(s), |s|) == s
    ensures FromBits(s) < Pow2(|s|)
  {
    forall k | 0 <= k < |s| ensures ToBits(FromBits(s), |s|)[k] == s[k] {
      BitOfFromBits(s, |s| - 1 - k);
    }
    forall i: nat | i >= |s| ensures !Bit(FromBits(s), i) { BitOfFromBits(s, i); }
    FitsIffNoHighBits(FromBits(s), |s|);
  }

  function Zeros(n: nat): (s: BitString)
    ensures |s| == n && forall k | 0 <= k < n :: !s[k]
  {
    seq(n, _ => false)
  }
}
