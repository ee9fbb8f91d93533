/** From values over a reference to bit strings: the flat form, completed by the bit strings at hand, goes through
    `buildPartialConfig` (src/hw/TDS.cpp, src/hw/ROC.cpp, src/ConfigSender.cpp). */
module MergedRegisters {
  import opened Bits
  import opened I2cMaster
  import opened Translation
  import opened ConfigConverter
  import opened ConverterLaws
  import opened ReferenceMerge
  import opened TranslationPaths

  /** The reference bit strings as numbers. */
  function Numbers(streams: AddressBitstreamMap): Tree {
    map a | a in streams :: FromBits(streams[a])
  }

  /** Some visit has bit `b` of the register in its mask. */
  ghost predicate Configured(visits: seq<Visit>, r: string, b: nat) {
    exists i :: 0 <= i < |visits| && RegisterOf(visits[i].unit.registerName) == r && Bit(visits[i].unit.maskRegister, b)
  }

  /** A register that is visited, and that the layout and the reference have. */
  ghost predicate Completed(
    w: nat, layout: AddressRegisterMap, visits: seq<Visit>, streams: AddressBitstreamMap, r: string) {
    && FlatOk(w, visits) && FlatReadsBack(w, visits) && r in FlatTree(w, visits)
    && r in layout && r in streams && |streams[r]| == TotalSize(layout[r]) && Writable(r)
    && (r in FlatMask(visits) ==> CountsZeros(w, FlatMask(visits)[r], TotalSize(layout[r])))
  }

  /** The bit the completed register has: the configured one, or the reference's. */
  ghost predicate CompletedBit(
    w: nat, visits: seq<Visit>, streams: AddressBitstreamMap, r: string, b: nat)
    requires MasksNonZero(visits) && r in FlatTree(w, visits) && r in streams
  {
    if Configured(visits, r, b) then Bit(FlatTree(w, visits)[r], b)
    else b < |streams[r]| && streams[r][|streams[r]| - 1 - b]
  }

  lemma {:induction false} MergedBit(
    w: nat, layout: AddressRegisterMap, visits: seq<Visit>, streams: AddressBitstreamMap, r: string, b: nat)
    requires Completed(w, layout, visits, streams, r) && b < w
    ensures r in FlatMask(visits)
    ensures
      var merged := MergeRegister(w, layout, FlatConfig(w, visits), Numbers(streams), r);
      merged.Done? ==> Bit(merged.value, b) == CompletedBit(w, visits, streams, r, b)
  {
    hide FlatOk, FlatReadsBack, FlatTree, MergeRegister;
    FlatMaskBits(visits, r, 0);
    FlatRegisterBits(w, visits, r, 0);
    ToFromBits(streams[r]);
    MergedRegister(w, layout, visits, Numbers(streams), r, b);
    BitOfFromBits(streams[r], b);
  }

  lemma {:induction false} MergedFits(
    w: nat, layout: AddressRegisterMap, visits: seq<Visit>, streams: AddressBitstreamMap, r: string)
    requires Completed(w, layout, visits, streams, r) && TotalSize(layout[r]) <= w
    ensures r in FlatMask(visits)
    ensures
      var merged := MergeRegister(w, layout, FlatConfig(w, visits), Numbers(streams), r);
      merged.Done? ==> merged.value < Pow2(w)
  {
    hide FlatReadsBack, FlatTree, FlatMask;
    FlatWithinMask(w, visits, r);
    var value, mask, reference := FlatTree(w, visits)[r], FlatMask(visits)[r], FromBits(streams[r]);
    FitsIffNoHighBits(mask, w);
    forall b: nat | b >= w ensures !Bit(value, b) { assert !Bit(mask, b); }
    FitsIffNoHighBits(value, w);
    ToFromBits(streams[r]);
    Pow2Monotone(|streams[r]|, w);
    FitsIffNoHighBits(reference, w);
    forall b: nat | b >= w ensures !Bit(And(reference, Complement(w, mask)), b) {
      BitOfAnd(reference, Complement(w, mask), b);
    }
    FitsIffNoHighBits(And(reference, Complement(w, mask)), w);
    OrFits(value, And(reference, Complement(w, mask)), w);
  }

  lemma {:induction false} TooLargeIff(w: nat, value: nat)
    requires value < Pow2(w)
    ensures value >= TWO_32 <==> exists b: nat :: 32 <= b < w && Bit(value, b)
  {
    Pow2Of32();
    FitsIffNoHighBits(value, 32);
    FitsIffNoHighBits(value, w);
    if value >= TWO_32 {
      var b: nat :| b >= 32 && Bit(value, b);
      if b >= w { HighBitOverflows(value, w, b); }
    }
  }

  /** Some bit from 32 on is set, in the flat form where it is configured or in the reference where it is not. */
  ghost predicate HighBitSet(w: nat, visits: seq<Visit>, streams: AddressBitstreamMap, r: string)
    requires MasksNonZero(visits) && r in FlatTree(w, visits) && r in streams
  {
    exists b: nat :: 32 <= b < w && CompletedBit(w, visits, streams, r, b)
  }

  lemma {:induction false} MergedTooLargeIff(
    w: nat, layout: AddressRegisterMap, visits: seq<Visit>, streams: AddressBitstreamMap, r: string)
    requires Completed(w, layout, visits, streams, r) && TotalSize(layout[r]) <= w
    ensures r in FlatMask(visits)
    ensures
      var merged := MergeRegister(w, layout, FlatConfig(w, visits), Numbers(streams), r);
      merged.Done? ==> (merged.value >= TWO_32 <==> HighBitSet(w, visits, streams, r))
  {
    MergedFits(w, layout, visits, streams, r);
    var merged := MergeRegister(w, layout, FlatConfig(w, visits), Numbers(streams), r);
    forall b: nat | b < w ensures merged.Done? ==> Bit(merged.value, b) == CompletedBit(w, visits, streams, r, b) {
      MergedBit(w, layout, visits, streams, r, b);
    }
    hide MergeRegister, FlatTree, FlatOk, FlatReadsBack, CompletedBit, FlatMask, Bit, Pow2, Completed;
    if merged.Done? {
      TooLargeIff(w, merged.value);
      if b: nat :| 32 <= b < w && Bit(merged.value, b) { assert CompletedBit(w, visits, streams, r, b); }
      if b: nat :| 32 <= b < w && CompletedBit(w, visits, streams, r, b) {
        HighBitOverflows(merged.value, 32, b);
        Pow2Of32();
      }
    }
  }

  /** Whatever the width: completing a register fails only if as many bits are configured as it has, but not all of
      them. Otherwise its partial bit string is the reference's with the configured bits overwritten, and there is none
      exactly when a bit from 32 on is set, because the completed word is read as an unsigned int. */
  lemma {:induction false} MergedRegisterBuilds(
    w: nat, layout: AddressRegisterMap, visits: seq<Visit>, streams: AddressBitstreamMap, r: string, i: nat)
    requires Completed(w, layout, visits, streams, r) && i < TotalSize(layout[r]) <= w <= 128
    ensures r in FlatMask(visits)
    ensures
      var merged := MergeRegister(w, layout, FlatConfig(w, visits), Numbers(streams), r);
      var mask, n := FlatMask(visits)[r], TotalSize(layout[r]);
      && (merged.Failed? <==> Popcount(mask) == n && mask != Pow2(n) - 1)
      && (merged.Done? ==>
           var bits := PartialBits(layout, r, merged.value);
           if HighBitSet(w, visits, streams, r) then bits == Err(BadData)
           else
             && bits.Ok? && |bits.value| == n
             && bits.value[i]
                == if Configured(visits, r, n - 1 - i) then Bit(FlatTree(w, visits)[r], n - 1 - i) else streams[r][i])
  {
    MergedBit(w, layout, visits, streams, r, TotalSize(layout[r]) - 1 - i);
    MergedTooLargeIff(w, layout, visits, streams, r);
    MergeFailsIff(w, layout, visits, streams, r);
    hide MergeRegister, FlatTree, FlatOk, FlatReadsBack, Configured, HighBitSet, FlatMask, Pow2, Popcount;
  }

  lemma {:induction false} MergeFailsIff(
    w: nat, layout: AddressRegisterMap, visits: seq<Visit>, streams: AddressBitstreamMap, r: string)
    requires Completed(w, layout, visits, streams, r)
    ensures r in FlatMask(visits)
    ensures
      var mask, n := FlatMask(visits)[r], TotalSize(layout[r]);
      MergeRegister(w, layout, FlatConfig(w, visits), Numbers(streams), r).Failed?
      <==> Popcount(mask) == n && mask != Pow2(n) - 1
  {
    hide FlatTree, FlatReadsBack, FlatMask;
    FlatWithinMask(w, visits, r);
    ToFromBits(streams[r]);
    MergedBits(w, FlatTree(w, visits)[r], FlatMask(visits)[r], TotalSize(layout[r]), FromBits(streams[r]), 0);
  }

  // ----- Field by field -----

  /** Visit `j` carries field `m` of the register. */
  predicate Carries(visits: seq<Visit>, j: int, r: string, fields: seq<Field>, m: nat)
    requires m < |fields|
  {
    0 <= j < |visits| && Named(fields, m) && visits[j].unit.registerName == Path(r, fields[m].name)
  }

  lemma {:induction false} ConfiguredIsCarried(
    layout: AddressRegisterMap, visits: seq<Visit>, r: string, m: nat, b: nat)
    requires LayoutOk(layout) && AllPlaced(layout, visits) && r in layout && m < |layout[r]|
      && InRegion(layout[r], m, b)
    requires b < TotalSize(layout[r])
    ensures Configured(visits, r, b) <==> exists j :: Carries(visits, j, r, layout[r], m)
  {
    var fields := layout[r];
    if Configured(visits, r, b) {
      var j :| 0 <= j < |visits| && RegisterOf(visits[j].unit.registerName) == r && Bit(visits[j].unit.maskRegister, b);
      PlacedAt(layout, visits, j);
      var name := visits[j].unit.registerName;
      SplitName(name);
      RegionsApart(fields, m, IndexOf(fields, SubNameOf(name)), b);
      assert Carries(visits, j, r, fields, m);
    }
    if j :| Carries(visits, j, r, fields, m) {
      PlacedAt(layout, visits, j);
      JoinName(r, fields[m].name);
      assert Bit(visits[j].unit.maskRegister, b);
    }
  }

  /** On registers of at most 32 bits whose units agree with the layout: field by field, the bit string holds the
      configured part where there is one and the reference's bits everywhere else. */
  lemma {:induction false} MergedFields(
    layout: AddressRegisterMap, visits: seq<Visit>, streams: AddressBitstreamMap, r: string, bits: BitString, m: nat,
    i: nat, j: int)
    requires LayoutOk(layout) && AllPlaced(layout, visits) && DistinctNames(visits) && MasksNonZero(visits)
    requires Completed(32, layout, visits, streams, r) && m < |layout[r]|
    requires Offset(layout[r], m) <= i < Offset(layout[r], m) + layout[r][m].size
    requires r in FlatMask(visits)
    requires
      var merged := MergeRegister(32, layout, FlatConfig(32, visits), Numbers(streams), r);
      merged.Done? && PartialBits(layout, r, merged.value) == Ok(bits)
    ensures i < |bits| == |streams[r]|
    ensures (forall k :: !Carries(visits, k, r, layout[r], m)) ==> bits[i] == streams[r][i]
    ensures Carries(visits, j, r, layout[r], m) ==>
      bits[i] == ToBits(SubValue(visits[j]), layout[r][m].size)[i - Offset(layout[r], m)]
  {
    hide FlatOk, FlatReadsBack, AllPlaced, LayoutOk, PartialBits, MergeRegister, FlatMask, FlatTree, SubTree;
    hide Configured, DistinctNames;
    var fields := layout[r];
    var b := TotalSize(fields) - 1 - i;
    OffsetMonotone(fields, m, |fields|);
    LayoutBound(layout, r);
    MergedRegisterBuilds(32, layout, visits, streams, r, i);
    ConfiguredIsCarried(layout, visits, r, m, b);
    if Carries(visits, j, r, fields, m) { CarriedBit(layout, visits, r, m, b, j); }
  }

  /** The bit a carried field has in the flat register. */
  lemma {:induction false} CarriedBit(
    layout: AddressRegisterMap, visits: seq<Visit>, r: string, m: nat, b: nat, j: nat)
    requires LayoutOk(layout) && AllPlaced(layout, visits) && DistinctNames(visits) && MasksNonZero(visits)
    requires FlatOk(32, visits) && FlatReadsBack(32, visits) && r in FlatTree(32, visits)
    requires r in layout && m < |layout[r]| && InRegion(layout[r], m, b) && Carries(visits, j, r, layout[r], m)
    ensures Bit(FlatTree(32, visits)[r], b) == Bit(SubValue(visits[j]), b - LowBit(layout[r], m))
  {
    hide FlatOk, FlatReadsBack, AllPlaced, LayoutOk, FlatTree, Matches;
    SubTreeMatches(visits);
    SubTreeAt(visits, visits[j].unit.registerName);
    FlatRegisterBits(32, visits, r, b);
    FlatBit(layout, visits, SubTree(visits), FlatTree(32, visits)[r], r, m, b);
  }

  lemma {:induction false} LayoutBound(layout: AddressRegisterMap, r: string)
    requires LayoutOk(layout) && r in layout
    ensures TotalSize(layout[r]) <= 32
  {
  }
}
