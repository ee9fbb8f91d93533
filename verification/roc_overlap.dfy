/** Entries of the ROC table outside the hypotheses of the translation laws (NSWConfiguration/ConfigTranslationMap.h),
    and exactly when they are translated right all the same: three values whose units overlap because a value mask is
    left at its default, and two values that share the bits of a register. */
module RocOverlap {
  import opened Bits
  import opened I2cMaster
  import opened Translation
  import opened ConfigConverter
  import opened ConverterLaws
  import opened TranslationPaths

  /** The upper four of twelve bits, and a unit that should carry the lower eight but carries everything. */
  const BC_OFFSET: seq<TranslationUnit> := [
    TranslationUnit("reg010bcOffset0_txcSel.bc_offset[11:8]", 0x0F, 0xF00),
    TranslationUnit("reg011bcOffset1.bc_offset[7:0]", DEFAULT_MASK, DEFAULT_MASK)]

  const BC_ROLLOVER: seq<TranslationUnit> := [
    TranslationUnit("reg012bcRollover0.bc_rollover[11:8]", 0x0F, 0xF00),
    TranslationUnit("reg013bcRollover1.bc_rollover[7:0]", DEFAULT_MASK, DEFAULT_MASK)]

  /** Here neither unit has a mask of its own. */
  const BUSY_OFF_LIMIT: seq<TranslationUnit> := [
    TranslationUnit("reg023busyOffLimit0.busy_off_limit[10:8]", 0x07, DEFAULT_MASK),
    TranslationUnit("reg024busyOffLimit1.busy_off_limit[7:0]", DEFAULT_MASK, DEFAULT_MASK)]

  /** A tree over a map that has the entry, with any other values, and walks in any order: there and back. */
  ghost predicate Walks(
    tmap: TranslationMap, tree: Tree, paths: seq<string>, order: seq<string>, subPaths: seq<string>) {
    && MasksOk(tmap, 32) && UniqueNames(tmap) && Walkable(tmap, tree, paths) && InMap(tmap, 32, tree)
    && Enumerates(order, tmap.Keys) && MasksNonZero(Visits(tmap, tree, paths))
    && Enumerates(subPaths, SubTree(Visits(tmap, tree, paths)).Keys)
  }

  /** The values that come back from the sub-registers of a tree. */
  ghost function ThereAndBack(
    tmap: TranslationMap, tree: Tree, paths: seq<string>, order: seq<string>, subPaths: seq<string>): Tree
    requires Walks(tmap, tree, paths, order, subPaths)
  {
    EntriesFound(tmap, 32, tree, paths, order, subPaths);
    AccTree(32, ValueEntries(tmap, order, 32, SubTree(Visits(tmap, tree, paths)), subPaths))
  }

  /** Of a value with two units the way back adds the two parts as they are. */
  lemma {:induction false} SumOfParts(
    tmap: TranslationMap, tree: Tree, paths: seq<string>, order: seq<string>, subPaths: seq<string>, p: string)
    requires Walks(tmap, tree, paths, order, subPaths) && p in tree && |tmap[p]| == 2
    ensures p in ThereAndBack(tmap, tree, paths, order, subPaths)
    ensures
      ThereAndBack(tmap, tree, paths, order, subPaths)[p]
      == Truncate(32, And(tree[p], tmap[p][0].maskValue) + And(tree[p], tmap[p][1].maskValue))
  {
    hide Truncate, And, AccTree, ValueEntries, SubTree, Visits, MasksOk, UniqueNames, InMap, Sum, Parts, NodesFound,
      MasksNonZero;
    ValueIsSum32(tmap, tree, paths, order, subPaths, p);
    TwoParts(tmap[p], tree[p]);
  }

  lemma {:induction false} TwoParts(units: seq<TranslationUnit>, value: nat)
    requires |units| == 2
    ensures Sum(Parts(units, value)) == And(value, units[0].maskValue) + And(value, units[1].maskValue)
  {
    hide And, Sum;
    var parts := Parts(units, value);
    assert parts == [parts[0], parts[1]];
    SumOfTwo(parts[0], parts[1]);
  }

  lemma {:induction false} SumOfTwo(a: nat, b: nat)
    ensures Sum([a, b]) == a + b
  {
    assert [a, b][..1] == [a];
    assert [a][..0] == [];
    assert Sum([a]) == Sum([]) + a;
  }

  /** A sum one bit wider than the word loses that bit. */
  lemma {:induction false} TruncateWraps(w: nat, a: nat)
    requires Pow2(w) <= a < 2 * Pow2(w)
    ensures Truncate(w, a) == a - Pow2(w)
  {
    if w > 0 { TruncateWraps(w - 1, a / 2); }
  }

  /** Adding a second word leaves a word as it is exactly when the second one is zero, even if the sum wraps. */
  lemma {:induction false} UnchangedIffZero(w: nat, a: nat, b: nat)
    requires a < Pow2(w) && b < Pow2(w)
    ensures Truncate(w, a + b) == a <==> b == 0
  {
    if a + b < Pow2(w) { TruncateFits(w, a + b); } else { TruncateWraps(w, a + b); }
  }

  /** A value whose second unit carries everything survives exactly when the first one carries nothing. */
  lemma {:induction false} FirstPartTwice(
    tmap: TranslationMap, tree: Tree, paths: seq<string>, order: seq<string>, subPaths: seq<string>, p: string)
    requires Walks(tmap, tree, paths, order, subPaths) && p in tree
    requires |tmap[p]| == 2 && tmap[p][1].maskValue == DEFAULT_MASK
    ensures p in ThereAndBack(tmap, tree, paths, order, subPaths)
    ensures
      ThereAndBack(tmap, tree, paths, order, subPaths)[p] == tree[p] <==> And(tree[p], tmap[p][0].maskValue) == 0
  {
    hide ThereAndBack, And, Truncate, Pow2;
    SumOfParts(tmap, tree, paths, order, subPaths, p);
    AndDefault(tree[p]);
    AndFits(32, tree[p], tmap[p][0].maskValue);
    UnchangedIffZero(32, tree[p], And(tree[p], tmap[p][0].maskValue));
  }

  lemma {:induction false} AndFits(w: nat, a: nat, b: nat)
    requires a < Pow2(w)
    ensures And(a, b) < Pow2(w)
  {
    FitsIffNoHighBits(a, w);
    forall i: nat | i >= w ensures !Bit(And(a, b), i) { BitOfAnd(a, b, i); }
    FitsIffNoHighBits(And(a, b), w);
  }

  /** In any tree, `bc_offset` and `bc_rollover` survive the translation and back exactly when none of the bits 8 to 11
      is set, `busyOffLimit` only if it is zero. */
  lemma {:induction false} OverlappingRoundTripIff(
    tmap: TranslationMap, tree: Tree, paths: seq<string>, order: seq<string>, subPaths: seq<string>, p: string)
    requires Walks(tmap, tree, paths, order, subPaths) && p in tree
    requires tmap[p] in [BC_OFFSET, BC_ROLLOVER, BUSY_OFF_LIMIT]
    ensures p in ThereAndBack(tmap, tree, paths, order, subPaths)
    ensures tmap[p] == BC_OFFSET || tmap[p] == BC_ROLLOVER ==>
      (ThereAndBack(tmap, tree, paths, order, subPaths)[p] == tree[p] <==> And(tree[p], 0xF00) == 0)
    ensures tmap[p] == BUSY_OFF_LIMIT ==>
      (ThereAndBack(tmap, tree, paths, order, subPaths)[p] == tree[p] <==> tree[p] == 0)
  {
    hide ThereAndBack, And, Pow2;
    FirstPartTwice(tmap, tree, paths, order, subPaths, p);
    AndDefault(tree[p]);
  }

  /** The register's number in the name of a sub-register. */
  function Number(unit: TranslationUnit): int {
    if |unit.registerName| > 5
    then 10 * (unit.registerName[4] as int - 48) + (unit.registerName[5] as int - 48)
    else 0
  }

  lemma {:induction false} Numbers()
    ensures Number(BC_OFFSET[0]) == 10 && Number(BC_OFFSET[1]) == 11
    ensures Number(BC_ROLLOVER[0]) == 12 && Number(BC_ROLLOVER[1]) == 13
    ensures Number(BUSY_OFF_LIMIT[0]) == 23 && Number(BUSY_OFF_LIMIT[1]) == 24
  {
  }

  lemma {:induction false} NumbersApart(tmap: TranslationMap)
    requires forall p | p in tmap :: |tmap[p]| == 2 && Number(tmap[p][0]) < Number(tmap[p][1])
    requires forall p, q | p in tmap && q in tmap && p != q ::
      Number(tmap[p][1]) < Number(tmap[q][0]) || Number(tmap[q][1]) < Number(tmap[p][0])
    ensures UniqueNames(tmap)
  {
    hide Number;
    forall p, q, j, k | p in tmap && q in tmap && 0 <= j < |tmap[p]| && 0 <= k < |tmap[q]|
      && tmap[p][j].registerName == tmap[q][k].registerName
      ensures p == q && j == k
    {
      SameNumber(tmap[p][j], tmap[q][k]);
    }
  }

  lemma {:induction false} SameNumber(u: TranslationUnit, v: TranslationUnit)
    requires u.registerName == v.registerName
    ensures Number(u) == Number(v)
  {
  }

  /** The three entries meet what that asks of a map. */
  lemma {:induction false} OverlappingMapOk(tmap: TranslationMap)
    requires tmap == map["bc_offset" := BC_OFFSET, "bc_rollover" := BC_ROLLOVER, "busyOffLimit" := BUSY_OFF_LIMIT]
    ensures MasksOk(tmap, 32) && UniqueNames(tmap)
  {
    hide Number, UniqueNames, Pow2;
    Pow2Of32();
    Numbers();
    NumbersApart(tmap);
  }

  // ----- Two values in one bit -----

  const EVENT_REGISTER := "reg006eopAndNullEventEnable"

  /** `eopEnable.sRocI` or `nullEventEnable.sRocI`, set or not. */
  datatype Event = Event(isNull: bool, i: nat, isSet: bool)

  /** Any of the eight values, each at most once. */
  ghost predicate Events(es: seq<Event>) {
    && (forall k | 0 <= k < |es| :: es[k].i < 4)
    && (forall j, k | 0 <= j < k < |es| :: !(es[j].isNull == es[k].isNull && es[j].i == es[k].i))
  }

  function EventName(e: Event): string {
    "sroc" + [('0' as int + e.i % 10) as char] + (if e.isNull then "_nullevt_enable" else "_eop_enable")
  }

  /** Both values of a sub-ROC name different sub-registers but the same bit of the register. */
  function EventVisit(e: Event): Visit {
    var path := (if e.isNull then "nullEventEnable.sRoc" else "eopEnable.sRoc") + [('0' as int + e.i % 10) as char];
    Visit(path, TranslationUnit(Path(EVENT_REGISTER, EventName(e)), Shl(1, 4 + e.i), DEFAULT_MASK),
      if e.isSet then 1 else 0)
  }

  function EventVisits(es: seq<Event>): seq<Visit> {
    seq(|es|, k requires 0 <= k < |es| => EventVisit(es[k]))
  }

  function EventPart(e: Event): nat { if e.isSet then Shl(1, 4 + e.i) else 0 }

  lemma {:induction false} EventIsOneBit(e: Event)
    requires e.i < 4
    ensures EventVisit(e).unit.maskRegister > 0 && EventVisit(e).unit.maskValue > 0
    ensures FlatValue(32, EventVisit(e)) == EventPart(e) < 256
    ensures RegisterOf(EventVisit(e).unit.registerName) == EVENT_REGISTER
  {
    hide RegisterOf, Path, SubValue, Truncate, Pow2, Ctz, Shl, EventName;
    var v := EventVisit(e);
    EventRegister(e);
    Pow2Of32();
    EventBit(e.i);
    DefaultCarriesAll(v);
    SingleBit(4 + e.i);
    ShlOfZero(4 + e.i);
    TruncateFits(32, EventPart(e));
  }

  lemma {:induction false} EventRegister(e: Event)
    ensures RegisterOf(Path(EVENT_REGISTER, EventName(e))) == EVENT_REGISTER
  {
    hide RegisterOf, EventName;
    JoinName(EVENT_REGISTER, EventName(e));
    assert Path(EVENT_REGISTER, EventName(e)) == EVENT_REGISTER + "." + EventName(e);
  }

  lemma {:induction false} EventBit(i: nat)
    requires i < 4
    ensures 0 < Shl(1, 4 + i) < 256
  {
    assert Shl(1, 4) == 0x10 && Shl(1, 5) == 0x20 && Shl(1, 6) == 0x40 && Shl(1, 7) == 0x80;
  }

  /** All of them are added under the one register. */
  lemma {:induction false} EventParts(es: seq<Event>)
    requires Events(es)
    ensures MasksNonZero(EventVisits(es))
    ensures
      var parts := Addends(FlatEntries(32, EventVisits(es)), EVENT_REGISTER);
      |parts| == |es| && forall k | 0 <= k < |es| :: parts[k] == EventPart(es[k]) < 256
  {
    hide EventVisit, EventPart, RegisterOf, FlatValue;
    forall k | 0 <= k < |es|
      ensures EventVisits(es)[k].unit.maskValue > 0 && EventVisits(es)[k].unit.maskRegister > 0
    {
      EventIsOneBit(es[k]);
    }
    var entries := FlatEntries(32, EventVisits(es));
    forall k | 0 <= k < |es| ensures entries[k] == Entry(EVENT_REGISTER, EventPart(es[k])) && EventPart(es[k]) < 256 {
      EventIsOneBit(es[k]);
    }
    OneKey(entries, EVENT_REGISTER);
  }

  /** There are at most eight of them, so the sum does not wrap. */
  lemma {:induction false} AtMostEight(es: seq<Event>)
    requires Events(es)
    ensures |es| <= 8
  {
    var numbers := seq(|es|, k requires 0 <= k < |es| => es[k].i + (if es[k].isNull then 4 else 0));
    assert forall j, k | 0 <= j < k < |numbers| :: numbers[j] != numbers[k];
    DistinctBelow(numbers, 8);
  }

  lemma {:induction false} DistinctBelow(numbers: seq<nat>, n: nat)
    requires forall j, k | 0 <= j < k < |numbers| :: numbers[j] != numbers[k]
    requires forall k | 0 <= k < |numbers| :: numbers[k] < n
    ensures |numbers| <= n
  {
    assert numbers != [] ==> numbers[0] < n;
    if n == 0 {
    } else if k :| 0 <= k < |numbers| && numbers[k] == n - 1 {
      var rest := numbers[..k] + numbers[k + 1..];
      DistinctBelow(rest, n - 1);
    } else {
      DistinctBelow(numbers, n - 1);
    }
  }

  lemma {:induction false} SumBelow(cs: seq<nat>, bound: nat)
    requires forall k | 0 <= k < |cs| :: cs[k] <= bound
    ensures Sum(cs) <= |cs| * bound
  {
    if cs != [] { SumBelow(cs[..|cs| - 1], bound); }
  }

  /** Some sub-ROC has both values set. */
  ghost predicate BothSet(es: seq<Event>) {
    exists i :: Event(false, i, true) in es && Event(true, i, true) in es
  }

  /** The register has the bits of the values that are set. */
  ghost predicate Right(register: nat, es: seq<Event>) {
    forall n: nat :: Bit(register, n) <==> exists k :: 0 <= k < |es| && es[k].isSet && n == 4 + es[k].i
  }

  lemma {:induction false} PartBit(e: Event, n: nat)
    ensures Bit(EventPart(e), n) <==> e.isSet && n == 4 + e.i
  {
    SingleBit(4 + e.i);
    BitOfZero(n);
  }

  lemma {:induction false} UnionIsRight(es: seq<Event>, parts: seq<nat>, register: nat)
    requires |parts| == |es| && forall k | 0 <= k < |es| :: parts[k] == EventPart(es[k])
    ensures Right(register, es) <==> register == OrAll(parts)
  {
    hide EventPart, OrAll, Bit;
    forall n: nat ensures Bit(OrAll(parts), n) <==> exists k :: 0 <= k < |es| && es[k].isSet && n == 4 + es[k].i {
      BitOfOrAll(parts, n);
      forall k | 0 <= k < |es| ensures Bit(parts[k], n) <==> es[k].isSet && n == 4 + es[k].i { PartBit(es[k], n); }
    }
    if Right(register, es) { SameBits(register, OrAll(parts)); }
  }

  lemma {:induction false} ApartIff(es: seq<Event>, parts: seq<nat>)
    requires Events(es) && |parts| == |es| && forall k | 0 <= k < |es| :: parts[k] == EventPart(es[k])
    ensures PairwiseDisjoint(parts) <==> !BothSet(es)
  {
    hide EventPart, Bit;
    forall j, k | 0 <= j < k < |es|
      ensures Disjoint(parts[j], parts[k]) <==> !(es[j].isSet && es[k].isSet && es[j].i == es[k].i)
    {
      forall n: nat
        ensures Bit(parts[j], n) <==> es[j].isSet && n == 4 + es[j].i
        ensures Bit(parts[k], n) <==> es[k].isSet && n == 4 + es[k].i
      {
        PartBit(es[j], n);
        PartBit(es[k], n);
      }
      assert es[j].isSet && es[k].isSet && es[j].i == es[k].i ==>
        Bit(parts[j], 4 + es[j].i) && Bit(parts[k], 4 + es[j].i);
    }
    if i :| Event(false, i, true) in es && Event(true, i, true) in es {
      var j :| 0 <= j < |es| && es[j] == Event(false, i, true);
      var k :| 0 <= k < |es| && es[k] == Event(true, i, true);
      assert !Disjoint(parts[if j < k then j else k], parts[if j < k then k else j]);
    }
    if j, k :| 0 <= j < k < |es| && es[j].isSet && es[k].isSet && es[j].i == es[k].i {
      assert es[j] in es && es[k] in es;
      assert es[j] == Event(es[j].isNull, es[j].i, true) && es[k] == Event(!es[j].isNull, es[j].i, true);
    }
  }

  /** With any of the eight values present, in any order: the flat form adds their bits. It has the bits of the values
      that are set if and only if no sub-ROC has both set; otherwise a carry clears their common bit and runs into the
      next sub-ROC's. */
  lemma {:induction false} SharedBitIff(es: seq<Event>)
    requires Events(es) && es != []
    ensures MasksNonZero(EventVisits(es))
    ensures
      var flat, parts := FlatTree(32, EventVisits(es)), Addends(FlatEntries(32, EventVisits(es)), EVENT_REGISTER);
      && EVENT_REGISTER in flat && flat[EVENT_REGISTER] == Sum(parts)
      && (Right(flat[EVENT_REGISTER], es) <==> !BothSet(es))
  {
    hide EventVisits, Addends, FlatEntries, EventPart, Truncate;
    EventParts(es);
    var parts := Addends(FlatEntries(32, EventVisits(es)), EVENT_REGISTER);
    AtMostEight(es);
    SumBelow(parts, 255);
    AccTreeAt(32, FlatEntries(32, EventVisits(es)), EVENT_REGISTER);
    FlatRegister32(EventVisits(es), EVENT_REGISTER);
    Pow2Of32();
    TruncateFits(32, Sum(parts));
    ApartIff(es, parts);
    UnionIsRight(es, parts, FlatTree(32, EventVisits(es))[EVENT_REGISTER]);
  }
}
