/** Completing partly configured registers from a reference (`readMissingRegisterParts` in
    NSWConfiguration/ConfigConverter.h) and reading the reference bit strings as numbers
    (`binaryStringToInt` in src/ConfigConverter.cpp). */
module ReferenceMerge {
  import opened Bits
  import opened Utility
  import opened I2cMaster
  import opened Translation
  import opened ConfigConverter
  import opened ConverterLaws

  // ----- One register -----

  lemma {:induction false} SomeBitClear(w: nat, mask: nat)
    requires Popcount(mask) < w
    ensures Complement(w, mask) > 0
  {
    if Complement(w, mask) == 0 {
      forall i: nat | i < w ensures Bit(mask, i) {
        BitOfComplement(w, mask, i);
        BitOfZero(i);
      }
      LowOnesOnly(mask, w);
    }
  }

  /** The builtin that counts zeros is not given zero: a register as wide as the word is not configured as a whole. */
  predicate CountsZeros(w: nat, mask: nat, size: nat) { Popcount(mask) == size ==> size < w }

  /** As many bits configured as the register has: they must be its low ones, and nothing is read.
      Otherwise the bits outside the mask are taken from the reference. Only the first case counts the zeros of
      the complement, so only there must the complement not be zero. */
  function MergeOne(w: nat, value: nat, mask: nat, size: nat, reference: Option<nat>): Converted<nat>
    requires CountsZeros(w, mask, size)
  {
    if Popcount(mask) == size then
      SomeBitClear(w, mask);
      if Ctz(Complement(w, mask)) != size then Failed(NotConsecutive) else Done(value)
    else if reference.None? then Failed(NoReference)
    else Done(Or(value, And(reference.value, Complement(w, mask))))
  }

  /** The shortcut is taken exactly for the full mask of the register. */
  lemma {:induction false} FullMaskIff(w: nat, mask: nat, size: nat)
    requires mask < Pow2(w) && size < w && Popcount(mask) == size
    ensures Complement(w, mask) > 0
    ensures Ctz(Complement(w, mask)) == size <==> mask == Pow2(size) - 1
  {
    SomeBitClear(w, mask);
    CtzIsLowestBit(Complement(w, mask));
    var c := Complement(w, mask);
    if Ctz(c) == size {
      forall i: nat | i < size ensures Bit(mask, i) { BitOfComplement(w, mask, i); }
      LowOnesOnly(mask, size);
    }
    if mask == Pow2(size) - 1 {
      forall i: nat ensures Bit(mask, i) == (i < size) { BitOfOnes(size, i); }
      BitOfComplement(w, mask, size);
      forall i: nat | i < size ensures !Bit(c, i) { BitOfComplement(w, mask, i); }
      CtzUnique(c, size);
    }
  }

  /** In the merged register the masked bits come from the configuration, all others from the reference;
      in the shortcut this is so for every reference that fits the register. */
  lemma {:induction false} MergedBits(w: nat, value: nat, mask: nat, size: nat, reference: nat, b: nat)
    requires CountsZeros(w, mask, size)
    requires mask < Pow2(w) && Within(value, mask) && reference < Pow2(size)
    ensures
      var merged := MergeOne(w, value, mask, size, Some(reference));
      && (merged.Failed? <==> Popcount(mask) == size && mask != Pow2(size) - 1)
      && (merged.Done? && b < w ==> Bit(merged.value, b) == if Bit(mask, b) then Bit(value, b) else Bit(reference, b))
  {
    if Popcount(mask) == size {
      FullMaskIff(w, mask, size);
      if mask == Pow2(size) - 1 {
        BitOfOnes(size, b);
        FitsIffNoHighBits(reference, size);
      }
    } else {
      BitOfOr(value, And(reference, Complement(w, mask)), b);
      BitOfAnd(reference, Complement(w, mask), b);
      BitOfComplement(w, mask, b);
    }
  }

  /** Without a reference only a full mask goes through; with too few or misplaced bits, or without a layout, it does
      not. */
  lemma {:induction false} MergeErrors(
    w: nat, layout: AddressRegisterMap, flat: TranslatedConfig, reference: Tree, name: string)
    requires name in flat.mask && name in flat.tree && flat.mask[name] < Pow2(w)
    requires name in layout ==> CountsZeros(w, flat.mask[name], TotalSize(layout[name]))
    ensures
      var r := MergeRegister(w, layout, flat, reference, name);
      if name !in layout then r == Failed(NoReference)
      else if Popcount(flat.mask[name]) != TotalSize(layout[name]) then
        if name !in reference then r == Failed(NoReference) else r.Done?
      else if flat.mask[name] == Pow2(TotalSize(layout[name])) - 1 then r == Done(flat.tree[name])
      else r == Failed(NotConsecutive)
  {
    hide Popcount, TotalSize;
    if name in layout && Popcount(flat.mask[name]) == TotalSize(layout[name]) {
      FullMaskIff(w, flat.mask[name], TotalSize(layout[name]));
    }
  }

  /** With a full mask the reference is not looked at. */
  lemma {:induction false} FullMaskIgnoresReference(w: nat, value: nat, size: nat, reference: Option<nat>)
    requires size < w
    ensures Popcount(Pow2(size) - 1) == size
    ensures MergeOne(w, value, Pow2(size) - 1, size, reference) == Done(value)
  {
    var full := Pow2(size) - 1;
    forall i: nat ensures Bit(full, i) == (i < size) { BitOfOnes(size, i); }
    LowOnesOnly(full, size);
    FitsIffNoHighBits(full, w);
    FullMaskIff(w, full, size);
  }

  // ----- All registers -----

  function Lookup(t: Tree, name: string): Option<nat> { if name in t then Some(t[name]) else None }

  /** The step for one register; a register without a layout makes the lookup of its size throw. */
  function MergeRegister(
    w: nat, layout: AddressRegisterMap, flat: TranslatedConfig, reference: Tree, name: string): Converted<nat>
    requires name in flat.mask && name in flat.tree
    requires name in layout ==> CountsZeros(w, flat.mask[name], TotalSize(layout[name]))
  {
    if name !in layout then Failed(NoReference)
    else MergeOne(w, flat.tree[name], flat.mask[name], TotalSize(layout[name]), Lookup(reference, name))
  }

  method ReadMissingRegisterParts(
    w: nat, layout: AddressRegisterMap, flat: TranslatedConfig, reference: Tree)
    returns (r: Converted<Tree>)
    requires flat.mask.Keys == flat.tree.Keys
    requires forall a | a in flat.tree && a in layout :: CountsZeros(w, flat.mask[a], TotalSize(layout[a]))
    ensures r.Done? ==> r.value.Keys == flat.tree.Keys
    ensures r.Done? ==> forall a | a in flat.tree :: MergeRegister(w, layout, flat, reference, a) == Done(r.value[a])
    ensures r.Failed? ==> exists a :: a in flat.tree && MergeRegister(w, layout, flat, reference, a) == Failed(r.error)
  {
    var config := flat.tree;
    var rest := flat.mask.Keys;
    while rest != {}
      invariant rest <= flat.mask.Keys && config.Keys == flat.tree.Keys
      invariant forall a | a in rest :: config[a] == flat.tree[a]
      invariant forall a | a in flat.tree && a !in rest ::
        MergeRegister(w, layout, flat, reference, a) == Done(config[a])
      decreases |rest|
    {
      var registerName :| registerName in rest;
      rest := rest - {registerName};
      var merged := MergeRegister(w, layout, flat, reference, registerName);
      if merged.Failed? { return Failed(merged.error); }
      config := config[registerName := merged.value];
    }
    return Done(config);
  }

  /** From values to completed registers: every configured part can be read back out of the merged
      register, and every bit no unit owns is the reference's. */
  lemma {:induction false} MergedRegister(
    w: nat, layout: AddressRegisterMap, visits: seq<Visit>, reference: Tree, r: string, b: nat)
    requires FlatOk(w, visits) && FlatReadsBack(w, visits)
    requires r in FlatTree(w, visits) && r in layout
    requires r in FlatMask(visits) ==> CountsZeros(w, FlatMask(visits)[r], TotalSize(layout[r]))
    requires r in reference && reference[r] < Pow2(TotalSize(layout[r]))
    ensures r in FlatMask(visits)
    ensures
      var merged := MergeRegister(w, layout, FlatConfig(w, visits), reference, r);
      merged.Done? && b < w ==>
        if exists i ::
            && 0 <= i < |visits| && RegisterOf(visits[i].unit.registerName) == r
            && Bit(visits[i].unit.maskRegister, b)
        then Bit(merged.value, b) == Bit(FlatTree(w, visits)[r], b)
        else Bit(merged.value, b) == Bit(reference[r], b)
  {
    FlatRegisterBits(w, visits, r, b);
    FlatMaskBits(visits, r, b);
    FlatWithinMask(w, visits, r);
    MergedBits(w, FlatTree(w, visits)[r], FlatMask(visits)[r], TotalSize(layout[r]), reference[r], b);
  }

  lemma {:induction false} FlatWithinMask(w: nat, visits: seq<Visit>, r: string)
    requires FlatOk(w, visits) && FlatReadsBack(w, visits) && r in FlatTree(w, visits)
    ensures r in FlatMask(visits) && Within(FlatTree(w, visits)[r], FlatMask(visits)[r])
    ensures FlatMask(visits)[r] < Pow2(w)
  {
    FlatRegisterBits(w, visits, r, 0);
    FlatMaskBits(visits, r, 0);
    var word, mask := FlatTree(w, visits)[r], FlatMask(visits)[r];
    forall b: nat | Bit(word, b) ensures Bit(mask, b) {
      var i := VisitOfBit(w, visits, r, b);
      FlatMaskBits(visits, r, b);
    }
    forall b: nat | b >= w ensures !Bit(mask, b) {
      FlatMaskBits(visits, r, b);
      MaskBitsLow(w, visits, b);
    }
    FitsIffNoHighBits(mask, w);
  }

  lemma {:induction false} VisitOfBit(w: nat, visits: seq<Visit>, r: string, b: nat) returns (i: nat)
    requires FlatOk(w, visits) && FlatReadsBack(w, visits) && r in FlatTree(w, visits) && Bit(FlatTree(w, visits)[r], b)
    ensures i < |visits| && RegisterOf(visits[i].unit.registerName) == r && Bit(visits[i].unit.maskRegister, b)
  {
    FlatRegisterBits(w, visits, r, b);
    i :| 0 <= i < |visits| && RegisterOf(visits[i].unit.registerName) == r && Bit(FlatValue(w, visits[i]), b);
    FlatValueWithin(w, visits[i]);
  }

  lemma {:induction false} MaskBitsLow(w: nat, visits: seq<Visit>, b: nat)
    requires FlatOk(w, visits) && b >= w
    ensures forall i | 0 <= i < |visits| :: !Bit(visits[i].unit.maskRegister, b)
  {
    forall i | 0 <= i < |visits| ensures !Bit(visits[i].unit.maskRegister, b) {
      FitsIffNoHighBits(visits[i].unit.maskRegister, w);
    }
  }

  // ----- Reference strings as numbers -----

  /** `std::stoul` of at most 64 binary digits. */
  function StoulBinary(s: BitString): Option<nat>
    requires |s| <= 64
  {
    if s == [] then None else Some(FromBits(s))
  }

  /** The 128-bit reader: up to 64 digits at once, otherwise the first 64 digits and the rest. None when
      it throws. */
  function BinaryStringToInt128(s: BitString): Option<nat> {
    if |s| > 128 then None
    else if |s| <= 64 then StoulBinary(s)
    else Some(Truncate(128, Shl(StoulBinary(s[..64]).value, 64) + StoulBinary(s[64..]).value))
  }

  /** It reads a string of `n` digits right exactly when n is at most 64, or 128, or the leading 64
      digits are all zero. */
  lemma {:induction false} BinaryString128RightIff(s: BitString)
    requires 0 < |s| <= 128
    ensures BinaryStringToInt128(s) == Some(FromBits(s)) <==> |s| <= 64 || |s| == 128 || FromBits(s[..64]) == 0
  {
    if |s| > 64 {
      var lead, trail := s[..64], s[64..];
      var word := Truncate(128, Shl(FromBits(lead), 64) + FromBits(trail));
      forall i: nat ensures Bit(word, i) == WordBit(s, i) { BitOfWord(s, i); }
      forall i: nat ensures Bit(FromBits(s), i) == (i < |s| && s[|s| - 1 - i]) { BitOfFromBits(s, i); }
      if |s| == 128 {
        SameBits(word, FromBits(s));
      } else if FromBits(lead) == 0 {
        forall k | 0 <= k < 64 ensures !lead[k] {
          BitOfFromBits(lead, 63 - k);
          BitOfZero(63 - k);
        }
        SameBits(word, FromBits(s));
      } else {
        LeadMoved(lead, s, word);
      }
    }
  }

  /** Where the digits end up: the last ones in the low word, the first 64 in the high word. */
  predicate WordBit(s: BitString, i: nat)
    requires 64 < |s| <= 128
  {
    if i < 64 then i < |s| - 64 && s[|s| - 1 - i] else i < 128 && s[127 - i]
  }

  lemma {:induction false} BitOfWord(s: BitString, i: nat)
    requires 64 < |s| <= 128
    ensures Bit(Truncate(128, Shl(FromBits(s[..64]), 64) + FromBits(s[64..])), i) == WordBit(s, i)
  {
    var lead, trail := s[..64], s[64..];
    SplitAt64(lead, trail);
    BitOfTruncate(128, Shl(FromBits(lead), 64) + FromBits(trail), i);
    BitOfOr(Shl(FromBits(lead), 64), FromBits(trail), i);
    BitOfShl(FromBits(lead), 64, i);
    BitOfFromBits(trail, i);
    if i >= 64 { BitOfFromBits(lead, i - 64); }
  }

  lemma {:induction false} SplitAt64(lead: BitString, trail: BitString)
    requires |lead| == 64 && |trail| <= 64
    ensures Shl(FromBits(lead), 64) + FromBits(trail) == Or(Shl(FromBits(lead), 64), FromBits(trail))
  {
    forall i: nat ensures !(Bit(Shl(FromBits(lead), 64), i) && Bit(FromBits(trail), i)) {
      BitOfShl(FromBits(lead), 64, i);
      BitOfFromBits(trail, i);
    }
    AddIsOr(Shl(FromBits(lead), 64), FromBits(trail));
  }

  /** A set leading digit ends up higher than it should. */
  lemma {:induction false} LeadMoved(lead: BitString, s: BitString, word: nat)
    requires 64 < |s| < 128 && lead == s[..64] && FromBits(lead) != 0
    requires forall i: nat :: Bit(word, i) == WordBit(s, i)
    ensures word != FromBits(s)
  {
    var c := HighestBit(lead);
    assert Bit(word, 127 - c);
    BitOfFromBits(s, 127 - c);
  }

  lemma {:induction false} HighestBit(lead: BitString) returns (c: nat)
    requires |lead| == 64 && FromBits(lead) != 0
    ensures c < 64 && lead[c] && forall k | 0 <= k < c :: !lead[k]
  {
    CtzIsLowestBit(FromBits(lead));
    BitOfFromBits(lead, Ctz(FromBits(lead)));
    c := 0;
    while !lead[c]
      invariant c < 64 && (forall k | 0 <= k < c :: !lead[k]) && exists k :: c <= k < 64 && lead[k]
      decreases 64 - c
    {
      c := c + 1;
    }
  }
}
