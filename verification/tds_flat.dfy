/** Where flat accumulation goes wrong: the channel mask of the TDS (NSWConfiguration/ConfigTranslationMap.h,
    src/ConfigConverter.cpp), a register of 128 bits whose partial sums are read back as unsigned ints. */
module TdsFlat {
  import opened Bits
  import opened I2cMaster
  import opened Translation
  import opened ConverterLaws
  import opened TranslationPaths

  const REGISTER2 := "register2"
  const NUM_CHANNELS: nat := 128

  /** The value `ChanNNN_Disable` of one channel. */
  datatype Channel = Channel(number: nat, disabled: bool)

  function Digits(i: nat): string
    requires i < 1000
  {
    [('0' as int + i / 100) as char, ('0' as int + i / 10 % 10) as char, ('0' as int + i % 10) as char]
  }

  /** One bit of the register; the mask of the value is left at its default. */
  function ChannelVisit(c: Channel): Visit
    requires c.number < NUM_CHANNELS
  {
    var name := "Chan" + Digits(c.number);
    Visit(
      name + "_Disable", TranslationUnit(Path(REGISTER2, name), Shl(1, c.number), DEFAULT_MASK),
      if c.disabled then 1 else 0)
  }

  /** Any channels, each at most once. */
  ghost predicate Channels(cs: seq<Channel>) {
    && (forall k | 0 <= k < |cs| :: cs[k].number < NUM_CHANNELS)
    && (forall j, k | 0 <= j < k < |cs| :: cs[j].number != cs[k].number)
  }

  function ChannelVisits(cs: seq<Channel>): (visits: seq<Visit>)
    requires forall k | 0 <= k < |cs| :: cs[k].number < NUM_CHANNELS
    ensures |visits| == |cs|
  {
    seq(|cs|, k requires 0 <= k < |cs| => ChannelVisit(cs[k]))
  }

  /** What one channel adds to the register. */
  function Part(c: Channel): nat { if c.disabled then Shl(1, c.number) else 0 }

  lemma {:induction false} ChannelRegister(c: Channel)
    requires c.number < NUM_CHANNELS
    ensures RegisterOf(ChannelVisit(c).unit.registerName) == REGISTER2
  {
    hide Digits;
    JoinName(REGISTER2, "Chan" + Digits(c.number));
    assert Path(REGISTER2, "Chan" + Digits(c.number)) == REGISTER2 + "." + ("Chan" + Digits(c.number));
  }

  lemma {:induction false} ChannelIsOneBit(c: Channel)
    requires c.number < NUM_CHANNELS
    ensures ChannelVisit(c).unit.maskRegister == Shl(1, c.number) && 0 < Shl(1, c.number) < Pow2(128)
    ensures ChannelVisit(c).unit.maskValue > 0 && Fits(ChannelVisit(c)) && FlatValue(128, ChannelVisit(c)) == Part(c)
    ensures RegisterOf(ChannelVisit(c).unit.registerName) == REGISTER2
  {
    hide RegisterOf, Path, Digits, Shl, Ctz, SubValue, Truncate, Pow2;
    var v, bit := ChannelVisit(c), Shl(1, c.number);
    ChannelRegister(c);
    SingleBit(c.number);
    FitsIffNoHighBits(bit, 128);
    Pow2Of32();
    DefaultCarriesAll(v);
    ShlOfValue(v.value, c.number);
    forall b: nat | Bit(Part(c), b) ensures Bit(bit, b) { BitOfZero(b); }
    FlatValueWithin(128, v);
  }

  lemma {:induction false} ShlOfValue(value: nat, n: nat)
    requires value < 2
    ensures Shl(value, n) == if value == 1 then Shl(1, n) else 0
  {
    if value == 0 { ShlOfZero(n); }
  }

  lemma {:induction false} ChannelsFlatOk(cs: seq<Channel>)
    requires Channels(cs)
    ensures FlatOk(128, ChannelVisits(cs))
  {
    hide Fits, ChannelVisit, Shl;
    var visits := ChannelVisits(cs);
    forall k | 0 <= k < |visits|
      ensures visits[k].unit.maskValue > 0 && 0 < visits[k].unit.maskRegister < Pow2(128) && Fits(visits[k])
    {
      ChannelIsOneBit(cs[k]);
    }
    forall j, k | 0 <= j < k < |visits| ensures Disjoint(visits[j].unit.maskRegister, visits[k].unit.maskRegister) {
      ChannelIsOneBit(cs[j]);
      ChannelIsOneBit(cs[k]);
      SingleBit(cs[j].number);
      SingleBit(cs[k].number);
    }
  }

  /** All channels add to the one register. */
  lemma {:induction false} AddedParts(cs: seq<Channel>)
    requires Channels(cs)
    ensures MasksNonZero(ChannelVisits(cs))
    ensures |Addends(FlatEntries(128, ChannelVisits(cs)), REGISTER2)| == |cs|
    ensures forall k | 0 <= k < |cs| :: Addends(FlatEntries(128, ChannelVisits(cs)), REGISTER2)[k] == Part(cs[k])
  {
    ChannelsFlatOk(cs);
    hide FlatOk, FlatValue, RegisterOf, ChannelVisit, Part;
    var entries := FlatEntries(128, ChannelVisits(cs));
    forall k | 0 <= k < |cs| ensures entries[k] == Entry(REGISTER2, Part(cs[k])) { ChannelIsOneBit(cs[k]); }
    OneKey(entries, REGISTER2);
  }

  /** The register has the bits of the disabled channels. */
  ghost predicate Right(register: nat, cs: seq<Channel>) {
    forall n: nat :: Bit(register, n) <==> Channel(n, true) in cs
  }

  lemma {:induction false} UnionIsRight(cs: seq<Channel>, parts: seq<nat>, n: nat)
    requires |parts| == |cs| && forall k | 0 <= k < |cs| :: parts[k] == Part(cs[k])
    ensures Bit(OrAll(parts), n) <==> Channel(n, true) in cs
  {
    BitOfOrAll(parts, n);
    forall k | 0 <= k < |cs| ensures Bit(parts[k], n) <==> cs[k] == Channel(n, true) {
      SingleBit(cs[k].number);
      BitOfZero(n);
    }
  }

  /** The flat register holds exactly the disabled channels if and only if every disabled channel, except the one
      visited last, is below 32. Otherwise the sum no longer fits the integer it is read back as, and the next channel
      starts again from zero, disabled or not. */
  lemma {:induction false} ChannelsKeptIff(cs: seq<Channel>)
    requires Channels(cs) && cs != []
    ensures MasksNonZero(ChannelVisits(cs)) && REGISTER2 in FlatTree(128, ChannelVisits(cs))
    ensures
      Right(FlatTree(128, ChannelVisits(cs))[REGISTER2], cs)
      <==> forall k | 0 <= k < |cs| - 1 && cs[k].disabled :: cs[k].number < 32
  {
    hide FlatOk, FlatEntries, Addends, Part, ChannelVisits;
    var visits := ChannelVisits(cs);
    ChannelsFlatOk(cs);
    AddedParts(cs);
    var parts := Addends(FlatEntries(128, visits), REGISTER2);
    AccTreeAt(128, FlatEntries(128, visits), REGISTER2);
    FlatRegisterIsUnionIff(128, visits, REGISTER2);
    PrefixesReadBackIff(parts);
    forall k | 0 <= k < |cs| ensures parts[k] < TWO_32 <==> (cs[k].disabled ==> cs[k].number < 32) { PartFits(cs[k]); }
    RightIffUnion(cs, parts, FlatTree(128, visits)[REGISTER2]);
  }

  lemma {:induction false} RightIffUnion(cs: seq<Channel>, parts: seq<nat>, register: nat)
    requires |parts| == |cs| && forall k | 0 <= k < |cs| :: parts[k] == Part(cs[k])
    ensures Right(register, cs) <==> register == OrAll(parts)
  {
    hide OrAll, Part;
    forall n: nat ensures Bit(OrAll(parts), n) <==> Channel(n, true) in cs { UnionIsRight(cs, parts, n); }
    if Right(register, cs) { SameBits(register, OrAll(parts)); }
  }

  lemma {:induction false} PartFits(c: Channel)
    ensures Part(c) < TWO_32 <==> (c.disabled ==> c.number < 32)
  {
    hide Shl;
    Pow2Of32();
    SingleBit(c.number);
    var bit := Shl(1, c.number);
    if c.number < 32 {
      FitsIffNoHighBits(bit, 32);
      assert forall b: nat | b >= 32 :: !Bit(bit, b);
    } else {
      HighBitOverflows(bit, 32, c.number);
    }
  }

  /** Channel 32, and after it a channel that stays enabled: nothing is disabled. */
  lemma {:induction false} EarlierChannelLost(i: nat, c: Channel)
    requires 32 <= i < NUM_CHANNELS && c.number < NUM_CHANNELS && i != c.number
    ensures MasksNonZero(ChannelVisits([Channel(i, true), c]))
    ensures FlatTree(128, ChannelVisits([Channel(i, true), c])) == map[REGISTER2 := Part(c)]
  {
    hide ChannelVisit, FlatValue, Shl, Truncate, RegisterOf;
    var cs := [Channel(i, true), c];
    var visits, a := ChannelVisits(cs), Shl(1, i);
    ChannelIsOneBit(cs[0]);
    ChannelIsOneBit(c);
    ChannelsFlatOk(cs);
    hide Part, FlatOk;
    assert FlatEntries(128, visits) == [] + [Entry(REGISTER2, a)] + [Entry(REGISTER2, Part(c))] by {
      PartOfDisabled(i);
    }
    PartOfDisabled(i);
    PartFits(Channel(i, true));
    PartBelow(c);
    assert AccTree(128, []) == map[];
    AccTreeStep(128, [], Entry(REGISTER2, a));
    AccTreeStep(128, [] + [Entry(REGISTER2, a)], Entry(REGISTER2, Part(c)));
    TruncateFits(128, a);
    TruncateFits(128, Part(c));
  }

  lemma {:induction false} PartOfDisabled(i: nat)
    ensures Part(Channel(i, true)) == Shl(1, i)
  {
  }

  lemma {:induction false} PartBelow(c: Channel)
    requires c.number < NUM_CHANNELS
    ensures Part(c) < Pow2(128)
  {
    ChannelIsOneBit(c);
  }
}
