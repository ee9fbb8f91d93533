/** What the four conversions of src/ConfigConverter.cpp promise each other, for every translation map
    meeting the stated conditions, every value tree and every order in which a tree is walked. */
module ConverterLaws {
  import opened Bits
  import opened Utility
  import opened I2cMaster
  import opened Translation
  import opened ConfigConverter

  // ----- Conditions on a translation map -----

  /** A sub-register belongs to one unit of one value. */
  ghost predicate UniqueNames(tmap: TranslationMap) {
    forall p, q, j, k | p in tmap && q in tmap && 0 <= j < |tmap[p]| && 0 <= k < |tmap[q]|
      && tmap[p][j].registerName == tmap[q][k].registerName :: p == q && j == k
  }

  /** Units sharing a register own different bits of it. */
  ghost predicate RegisterMasksDisjoint(tmap: TranslationMap) {
    forall p, q, j, k | p in tmap && q in tmap && 0 <= j < |tmap[p]| && 0 <= k < |tmap[q]|
      && RegisterOf(tmap[p][j].registerName) == RegisterOf(tmap[q][k].registerName) && !(p == q && j == k) ::
        Disjoint(tmap[p][j].maskRegister, tmap[q][k].maskRegister)
  }

  /** A value has at most one unit in any register. */
  ghost predicate OneUnitPerRegister(tmap: TranslationMap) {
    forall p, j, k | p in tmap && 0 <= j < |tmap[p]| && 0 <= k < |tmap[p]|
      && RegisterOf(tmap[p][j].registerName) == RegisterOf(tmap[p][k].registerName) :: j == k
  }

  /** The unit masks of a value are disjoint and together hold every bit of it. */
  ghost predicate Partitioned(units: seq<TranslationUnit>, value: nat) {
    && units != []
    && (forall j, k | 0 <= j < k < |units| :: Disjoint(units[j].maskValue, units[k].maskValue))
    && (forall b: nat | Bit(value, b) :: exists k :: 0 <= k < |units| && Bit(units[k].maskValue, b))
  }

  /** The part of the value a unit carries stays inside the unit's bits of the register. */
  ghost predicate Fits(v: Visit) {
    v.unit.maskValue > 0 && v.unit.maskRegister > 0
      && Within(Shl(SubValue(v), Ctz(v.unit.maskRegister)), v.unit.maskRegister)
  }

  ghost predicate Walkable(tmap: TranslationMap, tree: Tree, paths: seq<string>) {
    Enumerates(paths, tree.Keys) && forall p | p in paths :: p in tmap && p in tree
  }

  // ----- The list of visits -----

  lemma {:induction false} VisitFrom(tmap: TranslationMap, tree: Tree, paths: seq<string>, i: nat)
    requires (forall p | p in paths :: p in tmap && p in tree) && i < |Visits(tmap, tree, paths)|
    ensures
      var v := Visits(tmap, tree, paths)[i];
      v.path in paths && exists k :: 0 <= k < |tmap[v.path]| && v == Visit(v.path, tmap[v.path][k], tree[v.path])
  {
    var init, p := paths[..|paths| - 1], paths[|paths| - 1];
    var before := Visits(tmap, tree, init);
    if i < |before| {
      VisitFrom(tmap, tree, init, i);
    } else {
      assert Visits(tmap, tree, paths)[i] == Visit(p, tmap[p][i - |before|], tree[p]);
    }
  }

  lemma {:induction false} VisitTo(tmap: TranslationMap, tree: Tree, paths: seq<string>, p: string, k: nat)
    requires (forall p | p in paths :: p in tmap && p in tree) && p in paths && k < |tmap[p]|
    ensures Visit(p, tmap[p][k], tree[p]) in Visits(tmap, tree, paths)
  {
    var init, last := paths[..|paths| - 1], paths[|paths| - 1];
    var before := Visits(tmap, tree, init);
    if p == last {
      assert Visits(tmap, tree, paths)[|before| + k] == Visit(p, tmap[p][k], tree[p]);
    } else {
      VisitTo(tmap, tree, init, p, k);
    }
  }

  ghost predicate DistinctNames(visits: seq<Visit>) {
    forall i, j | 0 <= i < j < |visits| :: visits[i].unit.registerName != visits[j].unit.registerName
  }

  lemma {:induction false} VisitsDistinct(tmap: TranslationMap, tree: Tree, paths: seq<string>)
    requires UniqueNames(tmap) && forall p | p in paths :: p in tmap && p in tree
    requires forall i, j | 0 <= i < j < |paths| :: paths[i] != paths[j]
    ensures DistinctNames(Visits(tmap, tree, paths))
  {
    if paths != [] {
      var init, p := paths[..|paths| - 1], paths[|paths| - 1];
      VisitsDistinct(tmap, tree, init);
      var before := Visits(tmap, tree, init);
      forall i, j | 0 <= i < |before| && 0 <= j < |tmap[p]|
        ensures before[i].unit.registerName != tmap[p][j].registerName
      {
        VisitFrom(tmap, tree, init, i);
      }
    }
  }

  // ----- Flat registers -----

  /** What the flat form needs of its visits. */
  ghost predicate FlatOk(w: nat, visits: seq<Visit>) {
    && MasksNonZero(visits)
    && (forall i | 0 <= i < |visits| :: visits[i].unit.maskRegister < Pow2(w) && Fits(visits[i]))
    && (forall i, j | 0 <= i < j < |visits|
         && RegisterOf(visits[i].unit.registerName) == RegisterOf(visits[j].unit.registerName) ::
          Disjoint(visits[i].unit.maskRegister, visits[j].unit.maskRegister))
  }

  lemma {:induction false} FlatOkForMap(tmap: TranslationMap, w: nat, tree: Tree, paths: seq<string>)
    requires MasksOk(tmap, w) && UniqueNames(tmap) && RegisterMasksDisjoint(tmap) && Walkable(tmap, tree, paths)
    requires forall v | v in Visits(tmap, tree, paths) :: Fits(v)
    ensures FlatOk(w, Visits(tmap, tree, paths))
  {
    var visits := Visits(tmap, tree, paths);
    forall i | 0 <= i < |visits|
      ensures 0 < visits[i].unit.maskValue && 0 < visits[i].unit.maskRegister < Pow2(w)
    {
      VisitFrom(tmap, tree, paths, i);
    }
    VisitsDistinct(tmap, tree, paths);
    forall i, j | 0 <= i < j < |visits|
      && RegisterOf(visits[i].unit.registerName) == RegisterOf(visits[j].unit.registerName)
      ensures Disjoint(visits[i].unit.maskRegister, visits[j].unit.maskRegister)
    {
      VisitFrom(tmap, tree, paths, i);
      VisitFrom(tmap, tree, paths, j);
    }
  }

  /** A fitting part is moved into its mask without losing a bit. */
  lemma {:induction false} FlatValueWithin(w: nat, v: Visit)
    requires Fits(v) && v.unit.maskRegister < Pow2(w)
    ensures FlatValue(w, v) == Shl(SubValue(v), Ctz(v.unit.maskRegister))
    ensures FlatValue(w, v) < Pow2(w) && Within(FlatValue(w, v), v.unit.maskRegister)
  {
    var moved := Shl(SubValue(v), Ctz(v.unit.maskRegister));
    FitsIffNoHighBits(v.unit.maskRegister, w);
    forall i: nat | i >= w ensures !Bit(moved, i) {
      assert !Bit(v.unit.maskRegister, i);
    }
    FitsIffNoHighBits(moved, w);
    TruncateFits(w, moved);
  }

  lemma {:induction false} FlatEntriesDisjoint(w: nat, visits: seq<Visit>)
    requires FlatOk(w, visits)
    ensures EntriesDisjoint(FlatEntries(w, visits))
    ensures forall i | 0 <= i < |visits| :: FlatEntries(w, visits)[i].addend < Pow2(w)
  {
    forall i | 0 <= i < |visits|
      ensures FlatEntries(w, visits)[i].addend < Pow2(w) && Within(FlatValue(w, visits[i]), visits[i].unit.maskRegister)
    {
      FlatValueWithin(w, visits[i]);
    }
  }

  /** The exact condition under which adding up a register gives the union of its parts: every partial
      sum that is read back fits in an unsigned int. */
  lemma {:induction false} FlatRegisterIsUnionIff(w: nat, visits: seq<Visit>, r: string)
    requires FlatOk(w, visits) && r in FlatTree(w, visits)
    ensures
      var parts := Addends(FlatEntries(w, visits), r);
      FlatTree(w, visits)[r] == OrAll(parts) <==> PrefixesReadBack(parts)
  {
    var entries := FlatEntries(w, visits);
    FlatEntriesDisjoint(w, visits);
    AddendsDisjoint(entries, r);
    AccTreeAt(w, entries, r);
    var parts := Addends(entries, r);
    forall i | 0 <= i < |parts| ensures parts[i] < Pow2(w) { AddendsFrom(entries, r, parts[i]); }
    AccumulateIsUnionIff(w, parts);
  }

  /** On 32-bit devices, and for any units: a register is the sum of its parts, which is their union exactly when no two
      of them share a bit, unless it wraps. */
  lemma {:induction false} FlatRegister32(visits: seq<Visit>, r: string)
    requires MasksNonZero(visits) && r in FlatTree(32, visits)
    ensures
      var parts := Addends(FlatEntries(32, visits), r);
      && FlatTree(32, visits)[r] == Truncate(32, Sum(parts))
      && (Sum(parts) < TWO_32 ==> (FlatTree(32, visits)[r] == OrAll(parts) <==> PairwiseDisjoint(parts)))
  {
    hide Truncate, Addends, FlatEntries, PairwiseDisjoint;
    AccTreeAt(32, FlatEntries(32, visits), r);
    var parts := Addends(FlatEntries(32, visits), r);
    Accumulate32(parts);
    if Sum(parts) < TWO_32 { Accumulate32IsUnionIff(parts); }
  }

  ghost predicate FlatReadsBack(w: nat, visits: seq<Visit>)
    requires MasksNonZero(visits)
  {
    forall r | r in FlatTree(w, visits) :: PrefixesReadBack(Addends(FlatEntries(w, visits), r))
  }

  /** On 32-bit devices every partial sum can be read back. */
  lemma {:induction false} Word32ReadsBack(visits: seq<Visit>)
    requires FlatOk(32, visits)
    ensures FlatReadsBack(32, visits)
  {
    FlatEntriesDisjoint(32, visits);
    forall r | r in FlatTree(32, visits) ensures PrefixesReadBack(Addends(FlatEntries(32, visits), r)) {
      Parts32ReadBack(FlatEntries(32, visits), r);
    }
  }

  /** The bits of a flat register, one visit at a time. */
  lemma {:induction false} FlatRegisterBits(w: nat, visits: seq<Visit>, r: string, b: nat)
    requires FlatOk(w, visits) && FlatReadsBack(w, visits)
    ensures r in FlatTree(w, visits) <==> exists i :: 0 <= i < |visits| && RegisterOf(visits[i].unit.registerName) == r
    ensures r in FlatTree(w, visits) ==>
      (Bit(FlatTree(w, visits)[r], b) <==>
        exists i ::
          0 <= i < |visits| && RegisterOf(visits[i].unit.registerName) == r && Bit(FlatValue(w, visits[i]), b))
  {
    var entries := FlatEntries(w, visits);
    var parts := Addends(entries, r);
    AccTreeAt(w, entries, r);
    if i :| 0 <= i < |visits| && RegisterOf(visits[i].unit.registerName) == r {
      AddendsFrom(entries, r, entries[i].addend);
    }
    if r in FlatTree(w, visits) {
      AddendsFrom(entries, r, parts[0]);
      FlatRegisterIsUnionIff(w, visits, r);
      BitOfOrAll(parts, b);
      if k :| 0 <= k < |parts| && Bit(parts[k], b) {
        AddendsFrom(entries, r, parts[k]);
      }
      if i :| 0 <= i < |visits| && RegisterOf(visits[i].unit.registerName) == r && Bit(FlatValue(w, visits[i]), b) {
        AddendsFrom(entries, r, entries[i].addend);
        var k :| 0 <= k < |parts| && parts[k] == entries[i].addend;
      }
    }
  }

  /** The recorded mask of a register is the union of the masks of its visits. */
  lemma {:induction false} FlatMaskBits(visits: seq<Visit>, r: string, b: nat)
    ensures r in FlatMask(visits) <==> exists i :: 0 <= i < |visits| && RegisterOf(visits[i].unit.registerName) == r
    ensures r in FlatMask(visits) ==>
      (Bit(FlatMask(visits)[r], b) <==>
        exists i ::
          && 0 <= i < |visits| && RegisterOf(visits[i].unit.registerName) == r
          && Bit(visits[i].unit.maskRegister, b))
  {
    hide Bit, Or, RegisterOf;
    if visits != [] {
      var init, v := visits[..|visits| - 1], visits[|visits| - 1];
      FlatMaskBits(init, r, b);
      if r in FlatMask(init) { BitOfOr(FlatMask(init)[r], v.unit.maskRegister, b); }
      if i :| 0 <= i < |visits| && RegisterOf(visits[i].unit.registerName) == r && i < |init| {
        assert init[i] == visits[i];
      }
      if i :|
        && 0 <= i < |visits| && RegisterOf(visits[i].unit.registerName) == r
        && Bit(visits[i].unit.maskRegister, b) && i < |init|
      {
        assert init[i] == visits[i];
      }
      if i :| 0 <= i < |init| && RegisterOf(init[i].unit.registerName) == r { assert visits[i] == init[i]; }
      if i :| 0 <= i < |init| && RegisterOf(init[i].unit.registerName) == r && Bit(init[i].unit.maskRegister, b) {
        assert visits[i] == init[i];
      }
    }
  }

  /** Nothing is lost in the flat form: masking a register and shifting back gives each part. */
  lemma {:induction false} FlatIsLossless(w: nat, visits: seq<Visit>, i: nat)
    requires FlatOk(w, visits) && FlatReadsBack(w, visits) && i < |visits|
    ensures
      var v := visits[i];
      var r := RegisterOf(v.unit.registerName);
      r in FlatTree(w, visits)
        && Shr(And(FlatTree(w, visits)[r], v.unit.maskRegister), Ctz(v.unit.maskRegister)) == SubValue(v)
  {
    hide RegisterOf, SubValue, Shl, Shr, And, Ctz, Bit, FlatTree, FlatReadsBack;
    var v := visits[i];
    var r, m := RegisterOf(v.unit.registerName), v.unit.maskRegister;
    FlatRegisterBits(w, visits, r, 0);
    var word := FlatTree(w, visits)[r];
    FlatValueWithin(w, v);
    forall b: nat ensures Bit(Shr(And(word, m), Ctz(m)), b) == Bit(SubValue(v), b) {
      BitOfShr(And(word, m), Ctz(m), b);
      BitOfAnd(word, m, b + Ctz(m));
      BitOfShl(SubValue(v), Ctz(m), b + Ctz(m));
      FlatRegisterBits(w, visits, r, b + Ctz(m));
      if j :|
        && 0 <= j < |visits| && RegisterOf(visits[j].unit.registerName) == r
        && Bit(FlatValue(w, visits[j]), b + Ctz(m)) && j != i
      {
        FlatValueWithin(w, visits[j]);
      }
    }
    SameBits(Shr(And(word, m), Ctz(m)), SubValue(v));
  }

  // ----- Flat registers back to sub-registers -----

  lemma {:induction false} SubTreeAt(visits: seq<Visit>, name: string)
    requires MasksNonZero(visits)
    ensures name in SubTree(visits) <==> exists i :: 0 <= i < |visits| && visits[i].unit.registerName == name
    ensures DistinctNames(visits) ==> forall i | 0 <= i < |visits| && visits[i].unit.registerName == name ::
        name in SubTree(visits) && SubTree(visits)[name] == SubValue(visits[i])
  {
    if visits != [] {
      var init := visits[..|visits| - 1];
      SubTreeAt(init, name);
      if i :| 0 <= i < |init| && init[i].unit.registerName == name { assert visits[i].unit.registerName == name; }
      if i :| 0 <= i < |visits| && visits[i].unit.registerName == name && i < |init| {
        assert init[i].unit.registerName == name;
      }
      assert forall i | 0 <= i < |init| :: init[i] == visits[i];
    }
  }

  lemma {:induction false} ExtractAllAt(
    tmap: TranslationMap, values: seq<string>, flat: Tree, units: seq<TranslationUnit>, name: string)
    requires forall k | 0 <= k < |units| :: units[k].maskRegister > 0 && RegisterOf(units[k].registerName) in flat
    ensures name in ExtractAll(tmap, values, flat, units) <==>
      Requested(tmap, values, name) == Some(true) && exists k :: 0 <= k < |units| && units[k].registerName == name
    ensures name in ExtractAll(tmap, values, flat, units) ==>
      exists k ::
        && 0 <= k < |units| && units[k].registerName == name
        && ExtractAll(tmap, values, flat, units)[name] == Extract(flat, units[k])
  {
    if units != [] {
      var init, last := units[..|units| - 1], units[|units| - 1];
      ExtractAllAt(tmap, values, flat, init, name);
      assert units[|units| - 1] == last;
      if k :| 0 <= k < |init| && init[k].registerName == name { assert units[k] == init[k]; }
      if k :| 0 <= k < |units| && units[k].registerName == name && k < |init| { assert init[k] == units[k]; }
      if name in ExtractAll(tmap, values, flat, init) {
        var k :| 0 <= k < |init| && init[k].registerName == name
          && ExtractAll(tmap, values, flat, init)[name] == Extract(flat, init[k]);
        assert units[k] == init[k];
      }
    }
  }

  /** A sub-register holds the bits of the value its unit masks, from the lowest masked one on. */
  lemma {:induction false} SubRegisterBit(visits: seq<Visit>, i: nat, b: nat)
    requires MasksNonZero(visits) && DistinctNames(visits) && i < |visits|
    ensures
      var v := visits[i];
      var low := b + Ctz(v.unit.maskValue);
      && v.unit.registerName in SubTree(visits)
      && (Bit(SubTree(visits)[v.unit.registerName], b) <==> Bit(v.value, low) && Bit(v.unit.maskValue, low))
  {
    SubTreeAt(visits, visits[i].unit.registerName);
    SubValueBit(visits[i], b);
  }

  lemma {:induction false} SubValueBit(v: Visit, b: nat)
    requires v.unit.maskValue > 0
    ensures
      var low := b + Ctz(v.unit.maskValue);
      Bit(SubValue(v), b) <==> Bit(v.value, low) && Bit(v.unit.maskValue, low)
  {
    BitOfShr(And(v.value, v.unit.maskValue), Ctz(v.unit.maskValue), b);
    BitOfAnd(v.value, v.unit.maskValue, b + Ctz(v.unit.maskValue));
  }

  /** The unit puts a bit of the value on bit `b` of its register: the masked bits of the value, from the lowest one on,
      go to the bits from the lowest masked one of the register on. */
  ghost predicate PutsBit(v: Visit, b: nat)
    requires v.unit.maskValue > 0 && v.unit.maskRegister > 0
  {
    b >= Ctz(v.unit.maskRegister)
      && var from := b - Ctz(v.unit.maskRegister) + Ctz(v.unit.maskValue);
      Bit(v.value, from) && Bit(v.unit.maskValue, from)
  }

  /** So a flat register has exactly the bits that some visited unit of it puts there. */
  lemma {:induction false} FlatRegisterMeans(w: nat, visits: seq<Visit>, r: string, b: nat)
    requires FlatOk(w, visits) && FlatReadsBack(w, visits) && r in FlatTree(w, visits)
    ensures
      Bit(FlatTree(w, visits)[r], b)
      <==> exists i :: 0 <= i < |visits| && RegisterOf(visits[i].unit.registerName) == r && PutsBit(visits[i], b)
  {
    hide FlatReadsBack, FlatTree, RegisterOf;
    FlatRegisterBits(w, visits, r, b);
    forall i | 0 <= i < |visits| ensures Bit(FlatValue(w, visits[i]), b) <==> PutsBit(visits[i], b) {
      var v := visits[i];
      FlatValueWithin(w, v);
      BitOfShl(SubValue(v), Ctz(v.unit.maskRegister), b);
      if b >= Ctz(v.unit.maskRegister) { SubValueBit(v, b - Ctz(v.unit.maskRegister)); }
    }
  }

  /** Every unit of a value in a register is collected when the value has no other unit there. */
  lemma {:induction false} UnitCollected(tmap: TranslationMap, order: seq<string>, p: string, k: nat)
    requires (forall q | q in order :: q in tmap) && OneUnitPerRegister(tmap)
    requires p in order && k < |tmap[p]|
    ensures tmap[p][k] in UnitsOfRegister(tmap, order, RegisterOf(tmap[p][k].registerName))
  {
    var r, init, last := RegisterOf(tmap[p][k].registerName), order[..|order| - 1], order[|order| - 1];
    if p == last {
      UnitInRegisterAt(tmap[p], r);
    } else {
      UnitCollected(tmap, init, p, k);
    }
  }

  lemma {:induction false} UnitsCollected(
    tmap: TranslationMap, order: seq<string>, registers: seq<string>, r: string, unit: TranslationUnit)
    requires (forall q | q in order :: q in tmap) && r in registers && unit in UnitsOfRegister(tmap, order, r)
    ensures unit in UnitsOfRegisters(tmap, order, registers)
  {
    if registers[|registers| - 1] != r { UnitsCollected(tmap, order, registers[..|registers| - 1], r, unit); }
  }

  lemma {:induction false} CollectedFromMap(
    tmap: TranslationMap, order: seq<string>, registers: seq<string>, unit: TranslationUnit)
    requires (forall p | p in order :: p in tmap) && unit in UnitsOfRegisters(tmap, order, registers)
    ensures exists p, k :: p in order && 0 <= k < |tmap[p]| && tmap[p][k] == unit
  {
    var init, r := registers[..|registers| - 1], registers[|registers| - 1];
    if unit in UnitsOfRegister(tmap, order, r) {
      CollectedUnit(tmap, order, r, unit);
    } else {
      CollectedFromMap(tmap, order, init, unit);
    }
  }

  lemma {:induction false} RequestedIff(tmap: TranslationMap, values: seq<string>, name: string)
    requires forall p | p in values :: p in tmap
    ensures Requested(tmap, values, name).Some?
    ensures Requested(tmap, values, name) == Some(true) <==>
      exists p, k :: p in values && 0 <= k < |tmap[p]| && tmap[p][k].registerName == name
  {
    if values != [] {
      UnitNamedAt(tmap[values[0]], name);
      RequestedIff(tmap, values[1..], name);
    }
  }

  /** An unknown value is only noticed if no value before it has the sub-register. */
  lemma {:induction false} UnknownIff(tmap: TranslationMap, values: seq<string>, name: string)
    ensures
      Requested(tmap, values, name).None?
      <==> exists i :: 0 <= i < |values| && values[i] !in tmap && NotBefore(tmap, values, name, i)
  {
    if values != [] {
      var rest := values[1..];
      UnknownIff(tmap, rest, name);
      if values[0] !in tmap {
        assert NotBefore(tmap, values, name, 0);
      } else {
        UnitNamedAt(tmap[values[0]], name);
        forall i | 0 <= i < |rest|
          ensures NotBefore(tmap, values, name, i + 1)
            <==> NotBefore(tmap, rest, name, i) && UnitNamed(tmap[values[0]], name).None?
        {
          OneBefore(tmap, values, name, i);
        }
        if i :|
          && 0 <= i < |rest| && rest[i] !in tmap && NotBefore(tmap, rest, name, i)
          && UnitNamed(tmap[values[0]], name).None?
        {
          assert values[i + 1] !in tmap && NotBefore(tmap, values, name, i + 1);
        }
        if i :| 0 <= i < |values| && values[i] !in tmap && NotBefore(tmap, values, name, i) {
          assert rest[i - 1] !in tmap && NotBefore(tmap, rest, name, i - 1);
        }
      }
    }
  }

  /** The first `i` values are known and have no unit of this name. */
  ghost predicate NotBefore(tmap: TranslationMap, values: seq<string>, name: string, i: nat)
    requires i <= |values|
  {
    forall j | 0 <= j < i ::
      values[j] in tmap && forall k | 0 <= k < |tmap[values[j]]| :: tmap[values[j]][k].registerName != name
  }

  lemma {:induction false} OneBefore(tmap: TranslationMap, values: seq<string>, name: string, i: nat)
    requires i < |values| && values[0] in tmap
    ensures
      NotBefore(tmap, values, name, i + 1)
      <==> NotBefore(tmap, values[1..], name, i) && UnitNamed(tmap[values[0]], name).None?
  {
    UnitNamedAt(tmap[values[0]], name);
    assert forall j | 0 < j <= i :: values[j] == values[1..][j - 1];
    if NotBefore(tmap, values, name, i + 1) {
      forall j | 0 <= j < i
        ensures values[1..][j] in tmap
        ensures forall k | 0 <= k < |tmap[values[1..][j]]| :: tmap[values[1..][j]][k].registerName != name
      {
        assert values[1..][j] == values[j + 1];
      }
    }
  }

  /** The flat form of a tree, taken apart again for any values of the map, in whatever order registers, values and map
      are walked: there is an entry for every sub-register of these values whose register was configured. It is that of
      the sub-register tree, and zero if only other values of its register were configured. */
  lemma {:induction false} FlatToSubRegisters(
    tmap: TranslationMap, w: nat, tree: Tree, paths: seq<string>, order: seq<string>, registers: seq<string>,
    values: seq<string>)
    requires MasksOk(tmap, w) && UniqueNames(tmap) && OneUnitPerRegister(tmap) && Walkable(tmap, tree, paths)
    requires Enumerates(order, tmap.Keys) && forall p | p in values :: p in tmap
    requires FlatOk(w, Visits(tmap, tree, paths)) && FlatReadsBack(w, Visits(tmap, tree, paths))
    requires Enumerates(registers, FlatTree(w, Visits(tmap, tree, paths)).Keys)
    ensures
      var visits := Visits(tmap, tree, paths);
      var flat, units := FlatTree(w, visits), UnitsOfRegisters(tmap, order, registers);
      && (forall r | r in registers :: UnitsOfRegister(tmap, order, r) != [])
      && Extractable(tmap, w, values, flat, units)
      && Recovers(tmap, values, flat, SubTree(visits), ExtractAll(tmap, values, flat, units))
      && (RegisterMasksDisjoint(tmap) ==> OthersAreZero(SubTree(visits), ExtractAll(tmap, values, flat, units)))
      && ((forall p | p in values :: p in tree) ==>
           ExtractAll(tmap, values, flat, units) == PartOf(tmap, values, SubTree(visits)))
      && ((forall p :: p in values <==> p in tree) ==> ExtractAll(tmap, values, flat, units) == SubTree(visits))
  {
    var visits := Visits(tmap, tree, paths);
    var flat, units := FlatTree(w, visits), UnitsOfRegisters(tmap, order, registers);
    hide FlatOk, FlatReadsBack, FlatTree, Visits, SubTree, ExtractAll, UnitsOfRegister, UnitsOfRegisters, UniqueNames,
      OneUnitPerRegister, MasksOk, RegisterMasksDisjoint, Recovers, OthersAreZero, PartOf;
    forall r | r in registers ensures UnitsOfRegister(tmap, order, r) != [] {
      FlatRegisterHasUnits(tmap, w, tree, paths, order, r);
    }
    UnitsExtractable(tmap, w, tree, paths, order, registers, values);
    ExtractedTree(tmap, w, tree, paths, order, registers, values);
  }

  lemma {:induction false} ExtractedTree(
    tmap: TranslationMap, w: nat, tree: Tree, paths: seq<string>, order: seq<string>, registers: seq<string>,
    values: seq<string>)
    requires MasksOk(tmap, w) && UniqueNames(tmap) && OneUnitPerRegister(tmap) && Walkable(tmap, tree, paths)
    requires Enumerates(order, tmap.Keys) && forall p | p in values :: p in tmap
    requires FlatOk(w, Visits(tmap, tree, paths)) && FlatReadsBack(w, Visits(tmap, tree, paths))
    requires Enumerates(registers, FlatTree(w, Visits(tmap, tree, paths)).Keys)
    requires
      Extractable(
        tmap, w, values, FlatTree(w, Visits(tmap, tree, paths)), UnitsOfRegisters(tmap, order, registers))
    ensures
      var sub, flat := SubTree(Visits(tmap, tree, paths)), FlatTree(w, Visits(tmap, tree, paths));
      var out := ExtractAll(tmap, values, flat, UnitsOfRegisters(tmap, order, registers));
      && Recovers(tmap, values, flat, sub, out)
      && (RegisterMasksDisjoint(tmap) ==> OthersAreZero(sub, out))
      && ((forall p | p in values :: p in tree) ==> out == PartOf(tmap, values, sub))
      && ((forall p :: p in values <==> p in tree) ==> out == sub)
  {
    var visits := Visits(tmap, tree, paths);
    var flat, units := FlatTree(w, visits), UnitsOfRegisters(tmap, order, registers);
    var sub, out := SubTree(visits), ExtractAll(tmap, values, flat, units);
    hide FlatOk, FlatReadsBack, FlatTree, Visits, SubTree, ExtractAll, UnitsOfRegister, UnitsOfRegisters, UniqueNames,
      OneUnitPerRegister, MasksOk, RegisterMasksDisjoint, Requested;
    forall name ensures NameExtracted(tmap, values, tree, flat, sub, out, name) {
      SubRegisterExtracted(tmap, w, tree, paths, order, registers, values, name);
      SubRegisterVisited(tmap, w, tree, paths, values, name);
    }
    NamesMakeTree(tmap, values, tree, flat, sub, out);
  }

  /** What is known of one name. */
  ghost predicate NameExtracted(
    tmap: TranslationMap, values: seq<string>, tree: Tree, flat: Tree, sub: Tree, out: Tree, name: string)
  {
    var requested := Requested(tmap, values, name) == Some(true);
    && (name in out <==> requested && RegisterOf(name) in flat)
    && (name in sub ==> RegisterOf(name) in flat)
    && (name in out && name in sub ==> out[name] == sub[name])
    && (name in out && name !in sub && RegisterMasksDisjoint(tmap) ==> out[name] == 0)
    && (requested && (forall p | p in values :: p in tree) ==> name in sub)
    && (name in sub && (forall p | p in tree :: p in values) ==> requested)
  }

  lemma {:induction false} NamesMakeTree(
    tmap: TranslationMap, values: seq<string>, tree: Tree, flat: Tree, sub: Tree, out: Tree)
    requires forall name :: NameExtracted(tmap, values, tree, flat, sub, out, name)
    ensures Recovers(tmap, values, flat, sub, out)
    ensures RegisterMasksDisjoint(tmap) ==> OthersAreZero(sub, out)
    ensures (forall p | p in values :: p in tree) ==> out == PartOf(tmap, values, sub)
    ensures (forall p :: p in values <==> p in tree) ==> out == sub
  {
    hide Requested, RegisterOf, RegisterMasksDisjoint;
    forall name
      ensures name in out <==> Requested(tmap, values, name) == Some(true) && RegisterOf(name) in flat
      ensures name in out && name in sub ==> out[name] == sub[name]
      ensures name in out && name !in sub && RegisterMasksDisjoint(tmap) ==> out[name] == 0
      ensures name in sub ==> RegisterOf(name) in flat
      ensures Requested(tmap, values, name) == Some(true) && (forall p | p in values :: p in tree) ==> name in sub
      ensures name in sub && (forall p | p in tree :: p in values) ==> Requested(tmap, values, name) == Some(true)
    {
      assert NameExtracted(tmap, values, tree, flat, sub, out, name);
    }
    if forall p | p in values :: p in tree { SameTree(out, PartOf(tmap, values, sub)); }
    if forall p :: p in values <==> p in tree { SameTree(out, sub); }
  }

  /** The entries are those asked for that lie in a flat register, and hold what the sub-register tree has there. */
  ghost predicate Recovers(tmap: TranslationMap, values: seq<string>, flat: Tree, sub: Tree, out: Tree) {
    && (forall name :: name in out <==> Requested(tmap, values, name) == Some(true) && RegisterOf(name) in flat)
    && (forall name | name in out && name in sub :: out[name] == sub[name])
  }

  ghost predicate OthersAreZero(sub: Tree, out: Tree) {
    forall name | name in out && name !in sub :: out[name] == 0
  }

  /** The entries of a sub-register tree that belong to the given values. */
  function PartOf(tmap: TranslationMap, values: seq<string>, sub: Tree): Tree {
    map name | name in sub && Requested(tmap, values, name) == Some(true) :: sub[name]
  }

  lemma {:induction false} SameTree(s: Tree, t: Tree)
    requires forall name :: name in s <==> name in t
    requires forall name | name in t :: s[name] == t[name]
    ensures s == t
  {
  }

  lemma {:induction false} UnitsExtractable(
    tmap: TranslationMap, w: nat, tree: Tree, paths: seq<string>, order: seq<string>, registers: seq<string>,
    values: seq<string>)
    requires MasksOk(tmap, w) && Walkable(tmap, tree, paths) && Enumerates(order, tmap.Keys)
    requires forall p | p in values :: p in tmap
    requires FlatOk(w, Visits(tmap, tree, paths)) && FlatReadsBack(w, Visits(tmap, tree, paths))
    requires Enumerates(registers, FlatTree(w, Visits(tmap, tree, paths)).Keys)
    ensures
      Extractable(
        tmap, w, values, FlatTree(w, Visits(tmap, tree, paths)), UnitsOfRegisters(tmap, order, registers))
  {
    hide FlatOk, FlatReadsBack, FlatTree, Visits, UnitsOfRegisters, Requested;
    var units := UnitsOfRegisters(tmap, order, registers);
    CollectedUnits(tmap, order, w, registers);
    FlatRegistersFit(w, Visits(tmap, tree, paths));
    forall k | 0 <= k < |units| ensures Requested(tmap, values, units[k].registerName).Some? {
      RequestedIff(tmap, values, units[k].registerName);
    }
  }

  lemma {:induction false} FlatRegisterHasUnits(
    tmap: TranslationMap, w: nat, tree: Tree, paths: seq<string>, order: seq<string>, r: string)
    requires MasksOk(tmap, w) && UniqueNames(tmap) && OneUnitPerRegister(tmap) && Walkable(tmap, tree, paths)
    requires Enumerates(order, tmap.Keys)
    requires FlatOk(w, Visits(tmap, tree, paths)) && FlatReadsBack(w, Visits(tmap, tree, paths))
    requires r in FlatTree(w, Visits(tmap, tree, paths))
    ensures UnitsOfRegister(tmap, order, r) != []
  {
    hide FlatOk, FlatReadsBack, FlatTree, Visits, UniqueNames, MasksOk, UnitsOfRegister;
    var visits := Visits(tmap, tree, paths);
    FlatRegisterBits(w, visits, r, 0);
    var i :| 0 <= i < |visits| && RegisterOf(visits[i].unit.registerName) == r;
    VisitFrom(tmap, tree, paths, i);
    var k :| 0 <= k < |tmap[visits[i].path]| && visits[i].unit == tmap[visits[i].path][k];
    UnitCollected(tmap, order, visits[i].path, k);
  }

  lemma {:induction false} FlatRegistersFit(w: nat, visits: seq<Visit>)
    requires FlatOk(w, visits) && FlatReadsBack(w, visits)
    ensures forall r | r in FlatTree(w, visits) :: FlatTree(w, visits)[r] < Pow2(w)
  {
    var entries := FlatEntries(w, visits);
    FlatEntriesDisjoint(w, visits);
    forall r | r in FlatTree(w, visits) ensures FlatTree(w, visits)[r] < Pow2(w) {
      FlatRegisterIsUnionIff(w, visits, r);
      var parts := Addends(entries, r);
      forall i | 0 <= i < |parts| ensures parts[i] < Pow2(w) { AddendsFrom(entries, r, parts[i]); }
      OrAllFits(parts, w);
    }
  }

  lemma {:induction false} SubRegisterExtracted(
    tmap: TranslationMap, w: nat, tree: Tree, paths: seq<string>, order: seq<string>, registers: seq<string>,
    values: seq<string>, name: string)
    requires MasksOk(tmap, w) && UniqueNames(tmap) && OneUnitPerRegister(tmap) && Walkable(tmap, tree, paths)
    requires Enumerates(order, tmap.Keys) && forall p | p in values :: p in tmap
    requires FlatOk(w, Visits(tmap, tree, paths)) && FlatReadsBack(w, Visits(tmap, tree, paths))
    requires Enumerates(registers, FlatTree(w, Visits(tmap, tree, paths)).Keys)
    requires forall k | 0 <= k < |UnitsOfRegisters(tmap, order, registers)| ::
        && UnitsOfRegisters(tmap, order, registers)[k].maskRegister > 0
        && RegisterOf(UnitsOfRegisters(tmap, order, registers)[k].registerName)
           in FlatTree(w, Visits(tmap, tree, paths))
    ensures
      var visits := Visits(tmap, tree, paths);
      var flat, units := FlatTree(w, visits), UnitsOfRegisters(tmap, order, registers);
      var out := ExtractAll(tmap, values, flat, units);
      && (name in out <==> Requested(tmap, values, name) == Some(true) && RegisterOf(name) in flat)
      && (name in out && name in SubTree(visits) ==> out[name] == SubTree(visits)[name])
      && (name in out && name !in SubTree(visits) && RegisterMasksDisjoint(tmap) ==> out[name] == 0)
  {
    var visits := Visits(tmap, tree, paths);
    var flat, units := FlatTree(w, visits), UnitsOfRegisters(tmap, order, registers);
    var out := ExtractAll(tmap, values, flat, units);
    hide FlatOk, FlatReadsBack, FlatTree, Visits, SubTree, ExtractAll, UnitsOfRegister, UnitsOfRegisters, Requested,
      RegisterMasksDisjoint, OneUnitPerRegister;
    ExtractAllAt(tmap, values, flat, units, name);
    RequestedIff(tmap, values, name);
    if Requested(tmap, values, name) == Some(true) && RegisterOf(name) in flat {
      var p, k :| p in values && 0 <= k < |tmap[p]| && tmap[p][k].registerName == name;
      UnitCollected(tmap, order, p, k);
      UnitsCollected(tmap, order, registers, RegisterOf(name), tmap[p][k]);
      var n :| 0 <= n < |units| && units[n] == tmap[p][k];
      assert name in out;
      var m :| 0 <= m < |units| && units[m].registerName == name && out[name] == Extract(flat, units[m]);
      CollectedFromMap(tmap, order, registers, units[m]);
      assert units[m] == tmap[p][k];
      UnitExtracted(tmap, w, tree, paths, p, k);
    }
  }

  /** The bits of a unit in its register: its part if its value was configured, otherwise nobody's. */
  lemma {:induction false} UnitExtracted(
    tmap: TranslationMap, w: nat, tree: Tree, paths: seq<string>, p: string, k: nat)
    requires UniqueNames(tmap) && Walkable(tmap, tree, paths) && p in tmap && k < |tmap[p]|
    requires FlatOk(w, Visits(tmap, tree, paths)) && FlatReadsBack(w, Visits(tmap, tree, paths))
    requires tmap[p][k].maskRegister > 0
    requires RegisterOf(tmap[p][k].registerName) in FlatTree(w, Visits(tmap, tree, paths))
    ensures
      var visits, unit := Visits(tmap, tree, paths), tmap[p][k];
      var x := Extract(FlatTree(w, visits), unit);
      && (unit.registerName in SubTree(visits) ==> x == SubTree(visits)[unit.registerName])
      && (unit.registerName !in SubTree(visits) && RegisterMasksDisjoint(tmap) ==> x == 0)
  {
    hide FlatReadsBack, FlatTree, Visits, SubTree;
    var visits, unit := Visits(tmap, tree, paths), tmap[p][k];
    VisitsDistinct(tmap, tree, paths);
    SubTreeAt(visits, unit.registerName);
    if i :| 0 <= i < |visits| && visits[i].unit.registerName == unit.registerName {
      VisitFrom(tmap, tree, paths, i);
      FlatIsLossless(w, visits, i);
    } else if RegisterMasksDisjoint(tmap) {
      forall i | 0 <= i < |visits| && RegisterOf(visits[i].unit.registerName) == RegisterOf(unit.registerName)
        ensures Disjoint(visits[i].unit.maskRegister, unit.maskRegister)
      {
        VisitFrom(tmap, tree, paths, i);
      }
      UnvisitedIsZero(w, visits, unit);
    }
  }

  lemma {:induction false} UnvisitedIsZero(w: nat, visits: seq<Visit>, unit: TranslationUnit)
    requires FlatOk(w, visits) && FlatReadsBack(w, visits)
    requires unit.maskRegister > 0 && RegisterOf(unit.registerName) in FlatTree(w, visits)
    requires forall i |
      0 <= i < |visits| && RegisterOf(visits[i].unit.registerName) == RegisterOf(unit.registerName) ::
        Disjoint(visits[i].unit.maskRegister, unit.maskRegister)
    ensures Extract(FlatTree(w, visits), unit) == 0
  {
    hide FlatReadsBack, FlatTree, Shr, And, Bit, Ctz, RegisterOf;
    var r, m := RegisterOf(unit.registerName), unit.maskRegister;
    var word := FlatTree(w, visits)[r];
    forall b: nat ensures Bit(Shr(And(word, m), Ctz(m)), b) == Bit(0, b) {
      BitOfShr(And(word, m), Ctz(m), b);
      BitOfAnd(word, m, b + Ctz(m));
      BitOfZero(b);
      FlatRegisterBits(w, visits, r, b + Ctz(m));
      if j :|
        && 0 <= j < |visits| && RegisterOf(visits[j].unit.registerName) == r
        && Bit(FlatValue(w, visits[j]), b + Ctz(m))
      {
        FlatValueWithin(w, visits[j]);
      }
    }
    SameBits(Shr(And(word, m), Ctz(m)), 0);
  }

  lemma {:induction false} SubRegisterVisited(
    tmap: TranslationMap, w: nat, tree: Tree, paths: seq<string>, values: seq<string>, name: string)
    requires Walkable(tmap, tree, paths) && forall p | p in values :: p in tmap
    requires FlatOk(w, Visits(tmap, tree, paths)) && FlatReadsBack(w, Visits(tmap, tree, paths))
    ensures
      var sub := SubTree(Visits(tmap, tree, paths));
      && (name in sub ==> RegisterOf(name) in FlatTree(w, Visits(tmap, tree, paths)))
      && (Requested(tmap, values, name) == Some(true) && (forall p | p in values :: p in tree) ==> name in sub)
      && (name in sub && (forall p | p in tree :: p in values) ==> Requested(tmap, values, name) == Some(true))
  {
    hide FlatReadsBack, FlatTree, Visits, SubTree, Requested;
    var visits := Visits(tmap, tree, paths);
    SubTreeAt(visits, name);
    FlatRegisterBits(w, visits, RegisterOf(name), 0);
    RequestedIff(tmap, values, name);
    if Requested(tmap, values, name) == Some(true) && forall p | p in values :: p in tree {
      var p, k :| p in values && 0 <= k < |tmap[p]| && tmap[p][k].registerName == name;
      VisitTo(tmap, tree, paths, p, k);
    }
    if i :| 0 <= i < |visits| && visits[i].unit.registerName == name { VisitFrom(tmap, tree, paths, i); }
  }

  // ----- Sub-registers back to values -----

  /** A name that belongs to one unit is found there, whatever the order the map is searched in. */
  lemma {:induction false} NodeIsUnit(tmap: TranslationMap, order: seq<string>, p: string, k: nat)
    requires UniqueNames(tmap) && Enumerates(order, tmap.Keys) && p in tmap && k < |tmap[p]|
    ensures FindNode(tmap, order, tmap[p][k].registerName) == Some((p, tmap[p][k]))
  {
    FoundInMap(tmap, order, tmap[p][k].registerName);
  }

  /** Shifting a part down and up again changes nothing. */
  lemma {:induction false} ShiftBack(w: nat, value: nat, mask: nat)
    requires mask > 0 && value < Pow2(w)
    ensures Truncate(w, Shl(Shr(And(value, mask), Ctz(mask)), Ctz(mask))) == And(value, mask)
    ensures And(value, mask) < Pow2(w) && Shr(And(value, mask), Ctz(mask)) < Pow2(w)
  {
    var part := And(value, mask);
    CtzIsLowestBit(mask);
    FitsIffNoHighBits(value, w);
    forall b: nat ensures Bit(Shl(Shr(part, Ctz(mask)), Ctz(mask)), b) == Bit(part, b) {
      BitOfShl(Shr(part, Ctz(mask)), Ctz(mask), b);
      BitOfAnd(value, mask, b);
      if b >= Ctz(mask) { BitOfShr(part, Ctz(mask), b - Ctz(mask)); }
    }
    SameBits(Shl(Shr(part, Ctz(mask)), Ctz(mask)), part);
    forall b: nat | b >= w ensures !Bit(part, b) && !Bit(Shr(part, Ctz(mask)), b) {
      BitOfAnd(value, mask, b);
      BitOfShr(part, Ctz(mask), b);
      BitOfAnd(value, mask, b + Ctz(mask));
    }
    FitsIffNoHighBits(part, w);
    FitsIffNoHighBits(Shr(part, Ctz(mask)), w);
    TruncateFits(w, part);
  }

  /** All values of the tree are in the map and fit the integer type. */
  ghost predicate InMap(tmap: TranslationMap, w: nat, tree: Tree) {
    forall p | p in tree :: p in tmap && tree[p] < Pow2(w)
  }

  /** And they are covered by their units. */
  ghost predicate Covered(tmap: TranslationMap, w: nat, tree: Tree) {
    forall p | p in tree :: p in tmap && tree[p] < Pow2(w) && Partitioned(tmap[p], tree[p])
  }

  /** A path of the sub-register tree contributes exactly the bits its unit took from the value. */
  lemma {:induction false} SubRegisterEntry(
    tmap: TranslationMap, w: nat, tree: Tree, paths: seq<string>, order: seq<string>, name: string)
    requires MasksOk(tmap, w) && UniqueNames(tmap) && Walkable(tmap, tree, paths) && InMap(tmap, w, tree)
    requires Enumerates(order, tmap.Keys)
    requires MasksNonZero(Visits(tmap, tree, paths)) && name in SubTree(Visits(tmap, tree, paths))
    ensures
      var sub := SubTree(Visits(tmap, tree, paths));
      && FindNode(tmap, order, name).Some? && sub[name] < Pow2(w)
      && exists p, k :: p in tree && 0 <= k < |tmap[p]| && tmap[p][k].registerName == name
          && ValueEntry(tmap, order, w, sub, name) == Entry(p, And(tree[p], tmap[p][k].maskValue))
  {
    var visits := Visits(tmap, tree, paths);
    VisitsDistinct(tmap, tree, paths);
    SubTreeAt(visits, name);
    var i :| 0 <= i < |visits| && visits[i].unit.registerName == name;
    VisitFrom(tmap, tree, paths, i);
    var p := visits[i].path;
    var k :| 0 <= k < |tmap[p]| && visits[i] == Visit(p, tmap[p][k], tree[p]);
    NodeIsUnit(tmap, order, p, k);
    ShiftBack(w, tree[p], tmap[p][k].maskValue);
    assert ValueEntry(tmap, order, w, SubTree(visits), name) == Entry(p, And(tree[p], tmap[p][k].maskValue));
  }

  lemma {:induction false} AllMasksNonZero(tmap: TranslationMap, w: nat, tree: Tree, paths: seq<string>)
    requires MasksOk(tmap, w) && Walkable(tmap, tree, paths)
    ensures MasksNonZero(Visits(tmap, tree, paths))
  {
    var visits := Visits(tmap, tree, paths);
    forall i | 0 <= i < |visits| ensures visits[i].unit.maskValue > 0 && visits[i].unit.maskRegister > 0 {
      VisitFrom(tmap, tree, paths, i);
    }
  }

  /** The flat registers of a tree, taken apart again for any values, give the sub-registers of these values. */
  ghost predicate FlatGivesSubTree(
    tmap: TranslationMap, tree: Tree, paths: seq<string>, order: seq<string>, registers: seq<string>,
    values: seq<string>)
    requires Walkable(tmap, tree, paths) && Enumerates(order, tmap.Keys) && MasksNonZero(Visits(tmap, tree, paths))
  {
    var sub, flat := SubTree(Visits(tmap, tree, paths)), FlatTree(32, Visits(tmap, tree, paths));
    var units := UnitsOfRegisters(tmap, order, registers);
    && (forall r | r in registers :: UnitsOfRegister(tmap, order, r) != [])
    && Extractable(tmap, 32, values, flat, units)
    && var out := ExtractAll(tmap, values, flat, units);
    && Recovers(tmap, values, flat, sub, out) && OthersAreZero(sub, out)
    && ((forall p | p in values :: p in tree) ==> out == PartOf(tmap, values, sub))
    && ((forall p :: p in values <==> p in tree) ==> out == sub)
  }

  /** The same from conditions on the map alone and values that fit: on a 32-bit device nothing is lost in the flat
      form, whatever the order of the walks. */
  lemma {:induction false} FlatFormOfMap(
    tmap: TranslationMap, tree: Tree, paths: seq<string>, order: seq<string>, registers: seq<string>,
    values: seq<string>)
    requires MasksOk(tmap, 32) && UniqueNames(tmap) && RegisterMasksDisjoint(tmap) && OneUnitPerRegister(tmap)
    requires Walkable(tmap, tree, paths) && Enumerates(order, tmap.Keys) && forall p | p in values :: p in tmap
    requires forall v | v in Visits(tmap, tree, paths) :: Fits(v)
    ensures MasksNonZero(Visits(tmap, tree, paths))
    ensures FlatOk(32, Visits(tmap, tree, paths)) && FlatReadsBack(32, Visits(tmap, tree, paths))
    ensures Enumerates(registers, FlatTree(32, Visits(tmap, tree, paths)).Keys) ==>
      FlatGivesSubTree(tmap, tree, paths, order, registers, values)
  {
    hide UniqueNames, RegisterMasksDisjoint, OneUnitPerRegister, Fits, FlatOk, FlatReadsBack, FlatTree, SubTree,
      Recovers, OthersAreZero, Visits, ExtractAll;
    AllMasksNonZero(tmap, 32, tree, paths);
    FlatOkForMap(tmap, 32, tree, paths);
    Word32ReadsBack(Visits(tmap, tree, paths));
    hide MasksOk;
    if Enumerates(registers, FlatTree(32, Visits(tmap, tree, paths)).Keys) {
      FlatToSubRegisters(tmap, 32, tree, paths, order, registers, values);
    }
  }

  /** What the backward conversion adds up under one value. */
  lemma {:induction false} ValueParts(
    tmap: TranslationMap, w: nat, tree: Tree, paths: seq<string>, order: seq<string>, subPaths: seq<string>,
    p: string)
    requires MasksOk(tmap, w) && UniqueNames(tmap) && Walkable(tmap, tree, paths) && Covered(tmap, w, tree)
    requires Enumerates(order, tmap.Keys) && MasksNonZero(Visits(tmap, tree, paths))
    requires Enumerates(subPaths, SubTree(Visits(tmap, tree, paths)).Keys)
    ensures
      var sub := SubTree(Visits(tmap, tree, paths));
      && NodesFound(tmap, order, w, sub, subPaths, |subPaths|)
      && var entries := ValueEntries(tmap, order, w, sub, subPaths);
      && EntriesDisjoint(entries)
      && (forall n | 0 <= n < |entries| :: entries[n].addend < Pow2(w))
      && (Addends(entries, p) != [] <==> p in tree)
      && (p in tree ==> OrAll(Addends(entries, p)) == tree[p])
  {
    var sub := SubTree(Visits(tmap, tree, paths));
    forall n | 0 <= n < |subPaths| ensures FindNode(tmap, order, subPaths[n]).Some? && sub[subPaths[n]] < Pow2(w) {
      SubRegisterEntry(tmap, w, tree, paths, order, subPaths[n]);
    }
    var entries := ValueEntries(tmap, order, w, sub, subPaths);
    forall n | 0 <= n < |entries| ensures entries[n].addend < Pow2(w) && entries[n].key in tree {
      SubRegisterEntry(tmap, w, tree, paths, order, subPaths[n]);
      var q, k :| q in tree && 0 <= k < |tmap[q]| && tmap[q][k].registerName == subPaths[n]
        && entries[n] == Entry(q, And(tree[q], tmap[q][k].maskValue));
      ShiftBack(w, tree[q], tmap[q][k].maskValue);
    }
    forall m, n | 0 <= m < n < |entries| && entries[m].key == entries[n].key
      ensures Disjoint(entries[m].addend, entries[n].addend)
    {
      PartsDisjoint(tmap, w, tree, paths, order, subPaths[m], subPaths[n]);
    }
    if p in tree {
      ValueRecovered(tmap, w, tree, paths, order, subPaths, p);
    } else if Addends(entries, p) != [] {
      AddendsFrom(entries, p, Addends(entries, p)[0]);
    }
  }

  lemma {:induction false} PartsDisjoint(
    tmap: TranslationMap, w: nat, tree: Tree, paths: seq<string>, order: seq<string>, a: string, b: string)
    requires MasksOk(tmap, w) && UniqueNames(tmap) && Walkable(tmap, tree, paths) && Covered(tmap, w, tree)
    requires Enumerates(order, tmap.Keys) && MasksNonZero(Visits(tmap, tree, paths)) && a != b
    requires a in SubTree(Visits(tmap, tree, paths)) && b in SubTree(Visits(tmap, tree, paths))
    requires FindNode(tmap, order, a).Some? && FindNode(tmap, order, b).Some?
    ensures
      var sub := SubTree(Visits(tmap, tree, paths));
      var x, y := ValueEntry(tmap, order, w, sub, a), ValueEntry(tmap, order, w, sub, b);
      x.key == y.key ==> Disjoint(x.addend, y.addend)
  {
    var sub := SubTree(Visits(tmap, tree, paths));
    var x, y := ValueEntry(tmap, order, w, sub, a), ValueEntry(tmap, order, w, sub, b);
    SubRegisterEntry(tmap, w, tree, paths, order, a);
    SubRegisterEntry(tmap, w, tree, paths, order, b);
    var p, j :| p in tree && 0 <= j < |tmap[p]| && tmap[p][j].registerName == a
      && x == Entry(p, And(tree[p], tmap[p][j].maskValue));
    var q, k :| q in tree && 0 <= k < |tmap[q]| && tmap[q][k].registerName == b
      && y == Entry(q, And(tree[q], tmap[q][k].maskValue));
    if p == q {
      var m, n := tmap[p][j].maskValue, tmap[p][k].maskValue;
      assert Disjoint(m, n) || Disjoint(n, m);
      forall i: nat ensures !(Bit(x.addend, i) && Bit(y.addend, i)) {
        BitOfAnd(tree[p], m, i);
        BitOfAnd(tree[p], n, i);
      }
    }
  }

  lemma {:induction false} ValueRecovered(
    tmap: TranslationMap, w: nat, tree: Tree, paths: seq<string>, order: seq<string>, subPaths: seq<string>,
    p: string)
    requires MasksOk(tmap, w) && UniqueNames(tmap) && Walkable(tmap, tree, paths) && Covered(tmap, w, tree)
    requires Enumerates(order, tmap.Keys) && MasksNonZero(Visits(tmap, tree, paths)) && p in tree
    requires Enumerates(subPaths, SubTree(Visits(tmap, tree, paths)).Keys)
    requires NodesFound(tmap, order, w, SubTree(Visits(tmap, tree, paths)), subPaths, |subPaths|)
    ensures
      var entries := ValueEntries(tmap, order, w, SubTree(Visits(tmap, tree, paths)), subPaths);
      Addends(entries, p) != [] && OrAll(Addends(entries, p)) == tree[p]
  {
    var entries := ValueEntries(tmap, order, w, SubTree(Visits(tmap, tree, paths)), subPaths);
    var parts := Addends(entries, p);
    forall k | 0 <= k < |tmap[p]| ensures And(tree[p], tmap[p][k].maskValue) in parts {
      UnitContributes(tmap, w, tree, paths, order, subPaths, p, k);
    }
    assert And(tree[p], tmap[p][0].maskValue) in parts;
    forall b: nat ensures Bit(OrAll(parts), b) == Bit(tree[p], b) {
      BitOfOrAll(parts, b);
      if n :| 0 <= n < |parts| && Bit(parts[n], b) {
        AddendsFrom(entries, p, parts[n]);
        var m :| 0 <= m < |entries| && entries[m] == Entry(p, parts[n]);
        SubRegisterEntry(tmap, w, tree, paths, order, subPaths[m]);
        var q, k :| q in tree && 0 <= k < |tmap[q]| && entries[m] == Entry(q, And(tree[q], tmap[q][k].maskValue));
        BitOfAnd(tree[p], tmap[p][k].maskValue, b);
      }
      if Bit(tree[p], b) {
        var k :| 0 <= k < |tmap[p]| && Bit(tmap[p][k].maskValue, b);
        BitOfAnd(tree[p], tmap[p][k].maskValue, b);
        var n :| 0 <= n < |parts| && parts[n] == And(tree[p], tmap[p][k].maskValue);
      }
    }
    SameBits(OrAll(parts), tree[p]);
  }

  lemma {:induction false} UnitContributes(
    tmap: TranslationMap, w: nat, tree: Tree, paths: seq<string>, order: seq<string>, subPaths: seq<string>,
    p: string, k: nat)
    requires MasksOk(tmap, w) && UniqueNames(tmap) && Walkable(tmap, tree, paths) && InMap(tmap, w, tree)
    requires Enumerates(order, tmap.Keys) && MasksNonZero(Visits(tmap, tree, paths)) && p in tree && k < |tmap[p]|
    requires Enumerates(subPaths, SubTree(Visits(tmap, tree, paths)).Keys)
    requires NodesFound(tmap, order, w, SubTree(Visits(tmap, tree, paths)), subPaths, |subPaths|)
    ensures
      And(tree[p], tmap[p][k].maskValue)
        in Addends(ValueEntries(tmap, order, w, SubTree(Visits(tmap, tree, paths)), subPaths), p)
  {
    var visits := Visits(tmap, tree, paths);
    var entries := ValueEntries(tmap, order, w, SubTree(visits), subPaths);
    var name := tmap[p][k].registerName;
    VisitTo(tmap, tree, paths, p, k);
    var i :| 0 <= i < |visits| && visits[i] == Visit(p, tmap[p][k], tree[p]);
    SubTreeAt(visits, name);
    assert name in subPaths;
    var n :| 0 <= n < |subPaths| && subPaths[n] == name;
    SubRegisterEntry(tmap, w, tree, paths, order, name);
    assert entries[n] == ValueEntry(tmap, order, w, SubTree(visits), name);
    var q, j :| q in tree && 0 <= j < |tmap[q]| && tmap[q][j].registerName == name
      && entries[n] == Entry(q, And(tree[q], tmap[q][j].maskValue));
    AddendsFrom(entries, p, And(tree[p], tmap[p][k].maskValue));
  }

  /** Value round trip. The backward conversion, given what the forward conversion produced, returns a
      tree with the same values; a value comes back unchanged if and only if every partial sum that is
      read back while it is put together fits in an unsigned int. */
  lemma {:induction false} ValueRoundTripIff(
    tmap: TranslationMap, w: nat, tree: Tree, paths: seq<string>, order: seq<string>, subPaths: seq<string>)
    requires MasksOk(tmap, w) && UniqueNames(tmap) && Walkable(tmap, tree, paths) && Covered(tmap, w, tree)
    requires Enumerates(order, tmap.Keys) && MasksNonZero(Visits(tmap, tree, paths))
    requires Enumerates(subPaths, SubTree(Visits(tmap, tree, paths)).Keys)
    ensures NodesFound(tmap, order, w, SubTree(Visits(tmap, tree, paths)), subPaths, |subPaths|)
    ensures
      var entries := ValueEntries(tmap, order, w, SubTree(Visits(tmap, tree, paths)), subPaths);
      var back := AccTree(w, entries);
      && back.Keys == tree.Keys
      && forall p | p in tree :: back[p] == tree[p] <==> PrefixesReadBack(Addends(entries, p))
  {
    ValueParts(tmap, w, tree, paths, order, subPaths, "");
    var entries := ValueEntries(tmap, order, w, SubTree(Visits(tmap, tree, paths)), subPaths);
    var back := AccTree(w, entries);
    forall p
      ensures p in back <==> p in tree
      ensures p in tree ==> (back[p] == tree[p] <==> PrefixesReadBack(Addends(entries, p)))
    {
      ValueParts(tmap, w, tree, paths, order, subPaths, p);
      AccTreeAt(w, entries, p);
      var parts := Addends(entries, p);
      AddendsDisjoint(entries, p);
      forall i | 0 <= i < |parts| ensures parts[i] < Pow2(w) { AddendsFrom(entries, p, parts[i]); }
      AccumulateIsUnionIff(w, parts);
    }
  }

  /** On 32-bit devices the round trip is the identity on every covered tree. */
  lemma {:induction false} ValueRoundTrip32(
    tmap: TranslationMap, tree: Tree, paths: seq<string>, order: seq<string>, subPaths: seq<string>)
    requires MasksOk(tmap, 32) && UniqueNames(tmap) && Walkable(tmap, tree, paths) && Covered(tmap, 32, tree)
    requires Enumerates(order, tmap.Keys) && MasksNonZero(Visits(tmap, tree, paths))
    requires Enumerates(subPaths, SubTree(Visits(tmap, tree, paths)).Keys)
    ensures NodesFound(tmap, order, 32, SubTree(Visits(tmap, tree, paths)), subPaths, |subPaths|)
    ensures AccTree(32, ValueEntries(tmap, order, 32, SubTree(Visits(tmap, tree, paths)), subPaths)) == tree
  {
    ValueRoundTripIff(tmap, 32, tree, paths, order, subPaths);
    var entries := ValueEntries(tmap, order, 32, SubTree(Visits(tmap, tree, paths)), subPaths);
    ValueParts(tmap, 32, tree, paths, order, subPaths, "");
    forall p | p in tree ensures PrefixesReadBack(Addends(entries, p)) { Parts32ReadBack(entries, p); }
  }

  lemma {:induction false} Parts32ReadBack(entries: seq<Entry>, key: string)
    requires forall n | 0 <= n < |entries| :: entries[n].addend < Pow2(32)
    ensures PrefixesReadBack(Addends(entries, key))
  {
    Pow2Of32();
    var parts := Addends(entries, key);
    forall k | 0 <= k < |parts| ensures OrAll(parts[..k]) < TWO_32 {
      forall i | 0 <= i < k ensures parts[i] < Pow2(32) { AddendsFrom(entries, key, parts[i]); }
      OrAllFits(parts[..k], 32);
    }
  }

  // ----- 32-bit devices, whatever the value masks -----

  /** The parts of a value, one for each of its units. */
  function Parts(units: seq<TranslationUnit>, value: nat): seq<nat> {
    seq(|units|, k requires 0 <= k < |units| => And(value, units[k].maskValue))
  }

  /** The sum of the parts whose sub-registers have been seen. */
  function SeenSum(units: seq<TranslationUnit>, value: nat, seen: seq<string>): nat {
    if units == [] then 0
    else
      var unit := units[|units| - 1];
      SeenSum(units[..|units| - 1], value, seen)
      + (if unit.registerName in seen then And(value, unit.maskValue) else 0)
  }

  lemma {:induction false} NothingSeen(units: seq<TranslationUnit>, value: nat)
    ensures SeenSum(units, value, []) == 0
  {
    if units != [] { NothingSeen(units[..|units| - 1], value); }
  }

  lemma {:induction false} AllSeen(units: seq<TranslationUnit>, value: nat, seen: seq<string>)
    requires forall k | 0 <= k < |units| :: units[k].registerName in seen
    ensures SeenSum(units, value, seen) == Sum(Parts(units, value))
  {
    hide And;
    if units != [] {
      var init := units[..|units| - 1];
      AllSeen(init, value, seen);
      assert Parts(units, value)[..|init|] == Parts(init, value);
    }
  }

  ghost predicate NamesApart(units: seq<TranslationUnit>) {
    forall j, k | 0 <= j < k < |units| :: units[j].registerName != units[k].registerName
  }

  /** Seeing one more sub-register adds its part. */
  lemma {:induction false} SeeUnit(units: seq<TranslationUnit>, value: nat, seen: seq<string>, k: nat)
    requires NamesApart(units) && k < |units| && units[k].registerName !in seen
    ensures
      SeenSum(units, value, seen + [units[k].registerName])
      == SeenSum(units, value, seen) + And(value, units[k].maskValue)
  {
    hide And;
    var init, name := units[..|units| - 1], units[k].registerName;
    if k < |init| { SeeUnit(init, value, seen, k); } else { SeeOther(init, value, seen, name); }
  }

  lemma {:induction false} SeeOther(units: seq<TranslationUnit>, value: nat, seen: seq<string>, name: string)
    requires forall k | 0 <= k < |units| :: units[k].registerName != name
    ensures SeenSum(units, value, seen + [name]) == SeenSum(units, value, seen)
  {
    hide And;
    if units != [] { SeeOther(units[..|units| - 1], value, seen, name); }
  }

  lemma {:induction false} EntriesFound(
    tmap: TranslationMap, w: nat, tree: Tree, paths: seq<string>, order: seq<string>, subPaths: seq<string>)
    requires MasksOk(tmap, w) && UniqueNames(tmap) && Walkable(tmap, tree, paths) && InMap(tmap, w, tree)
    requires Enumerates(order, tmap.Keys) && MasksNonZero(Visits(tmap, tree, paths))
    requires Enumerates(subPaths, SubTree(Visits(tmap, tree, paths)).Keys)
    ensures NodesFound(tmap, order, w, SubTree(Visits(tmap, tree, paths)), subPaths, |subPaths|)
  {
    hide MasksOk, UniqueNames, InMap, SubTree, Visits;
    var sub := SubTree(Visits(tmap, tree, paths));
    forall n | 0 <= n < |subPaths| ensures FindNode(tmap, order, subPaths[n]).Some? && sub[subPaths[n]] < Pow2(w) {
      SubRegisterEntry(tmap, w, tree, paths, order, subPaths[n]);
    }
  }

  /** After `n` sub-registers, in whatever order, the parts of those of them that are units of `p` have been added. */
  lemma {:induction false} AddedSoFar(
    tmap: TranslationMap, w: nat, tree: Tree, paths: seq<string>, order: seq<string>, subPaths: seq<string>,
    p: string, n: nat)
    requires MasksOk(tmap, w) && UniqueNames(tmap) && Walkable(tmap, tree, paths) && InMap(tmap, w, tree)
    requires Enumerates(order, tmap.Keys) && MasksNonZero(Visits(tmap, tree, paths))
    requires Enumerates(subPaths, SubTree(Visits(tmap, tree, paths)).Keys)
    requires NodesFound(tmap, order, w, SubTree(Visits(tmap, tree, paths)), subPaths, |subPaths|)
    requires p in tree && n <= |subPaths|
    ensures
      var entries := ValueEntries(tmap, order, w, SubTree(Visits(tmap, tree, paths)), subPaths);
      Sum(Addends(entries[..n], p)) == SeenSum(tmap[p], tree[p], subPaths[..n])
  {
    hide MasksOk, SubTree, Visits, FindNode, ValueEntry;
    var entries := ValueEntries(tmap, order, w, SubTree(Visits(tmap, tree, paths)), subPaths);
    if n == 0 {
      NothingSeen(tmap[p], tree[p]);
    } else {
      var name, seen := subPaths[n - 1], subPaths[..n - 1];
      AddedSoFar(tmap, w, tree, paths, order, subPaths, p, n - 1);
      assert subPaths[..n] == seen + [name] && name !in seen;
      SubRegisterEntry(tmap, w, tree, paths, order, name);
      var q, k :| q in tree && 0 <= k < |tmap[q]| && tmap[q][k].registerName == name
        && entries[n - 1] == Entry(q, And(tree[q], tmap[q][k].maskValue));
      AddendsStep(entries, n, p);
      if p == q {
        SeeUnit(tmap[p], tree[p], seen, k);
      } else {
        SeeOther(tmap[p], tree[p], seen, name);
      }
    }
  }

  lemma {:induction false} AddendsStep(entries: seq<Entry>, n: nat, key: string)
    requires 0 < n <= |entries|
    ensures
      Sum(Addends(entries[..n], key))
      == Sum(Addends(entries[..n - 1], key)) + (if entries[n - 1].key == key then entries[n - 1].addend else 0)
  {
    assert entries[..n][..n - 1] == entries[..n - 1];
    var init := Addends(entries[..n - 1], key);
    assert (init + [entries[n - 1].addend])[..|init|] == init;
  }

  lemma {:induction false} UnitSeen(tmap: TranslationMap, tree: Tree, paths: seq<string>, p: string, k: nat)
    requires Walkable(tmap, tree, paths) && MasksNonZero(Visits(tmap, tree, paths)) && p in tree && k < |tmap[p]|
    ensures tmap[p][k].registerName in SubTree(Visits(tmap, tree, paths))
  {
    VisitTo(tmap, tree, paths, p, k);
    SubTreeAt(Visits(tmap, tree, paths), tmap[p][k].registerName);
  }

  /** What comes back of a value is the sum of its parts, on a word of 32 bits, whether or not its units overlap or miss
      some of its bits, in whatever order trees and map are walked. */
  lemma {:induction false} ValueIsSum32(
    tmap: TranslationMap, tree: Tree, paths: seq<string>, order: seq<string>, subPaths: seq<string>, p: string)
    requires MasksOk(tmap, 32) && UniqueNames(tmap) && Walkable(tmap, tree, paths) && InMap(tmap, 32, tree)
    requires Enumerates(order, tmap.Keys) && MasksNonZero(Visits(tmap, tree, paths))
    requires Enumerates(subPaths, SubTree(Visits(tmap, tree, paths)).Keys)
    requires p in tree && tmap[p] != []
    ensures NodesFound(tmap, order, 32, SubTree(Visits(tmap, tree, paths)), subPaths, |subPaths|)
    ensures
      var back := AccTree(32, ValueEntries(tmap, order, 32, SubTree(Visits(tmap, tree, paths)), subPaths));
      p in back && back[p] == Truncate(32, Sum(Parts(tmap[p], tree[p])))
  {
    hide MasksOk, SubTree, Visits, NodesFound, SeenSum, Parts, Truncate, ValueEntry;
    EntriesFound(tmap, 32, tree, paths, order, subPaths);
    var entries := ValueEntries(tmap, order, 32, SubTree(Visits(tmap, tree, paths)), subPaths);
    AddedSoFar(tmap, 32, tree, paths, order, subPaths, p, |subPaths|);
    assert entries[..|subPaths|] == entries && subPaths[..|subPaths|] == subPaths;
    forall k | 0 <= k < |tmap[p]| ensures tmap[p][k].registerName in subPaths {
      UnitSeen(tmap, tree, paths, p, k);
    }
    AllSeen(tmap[p], tree[p], subPaths);
    AccTreeAt(32, entries, p);
    Accumulate32(Addends(entries, p));
    UnitContributes(tmap, 32, tree, paths, order, subPaths, p, 0);
  }
}
