/** The two ways from physical values to hardware bits agree: through named sub-registers and
    `buildConfig`, or through flat register words and `buildPartialConfig`. */
module TranslationPaths {
  import opened Bits
  import opened I2cMaster
  import opened Translation
  import opened ConverterLaws

  // ----- Names -----

  /** What follows the first dot. */
  function SubNameOf(name: string): string {
    if |RegisterOf(name)| < |name| then name[|RegisterOf(name)| + 1..] else []
  }

  lemma {:induction false} SplitName(name: string)
    ensures |RegisterOf(name)| <= |name| && name[..|RegisterOf(name)|] == RegisterOf(name)
    ensures |RegisterOf(name)| < |name| ==>
      name[|RegisterOf(name)|] == '.' && name == Path(RegisterOf(name), SubNameOf(name))
  {
    if name != [] && name[0] != '.' { SplitName(name[1..]); }
  }

  lemma {:induction false} JoinName(address: string, rest: string)
    requires '.' !in address
    ensures RegisterOf(address + "." + rest) == address && SubNameOf(address + "." + rest) == rest
    ensures RegisterOf(address) == address
  {
    var name := address + "." + rest;
    if address == [] {
      assert name[0] == '.';
    } else {
      JoinName(address[1..], rest);
      assert name[0] == address[0] && name[1..] == address[1..] + "." + rest;
    }
  }

  // ----- Agreement of the translation map with the layout -----

  /** Lowest bit of field `m`, counted from the least significant end of the register. */
  function LowBit(fields: seq<Field>, m: nat): nat
    requires m < |fields|
  {
    OffsetMonotone(fields, m, |fields|);
    TotalSize(fields) - Offset(fields, m) - fields[m].size
  }

  ghost predicate InRegion(fields: seq<Field>, m: nat, b: nat)
    requires m < |fields|
  {
    LowBit(fields, m) <= b < LowBit(fields, m) + fields[m].size
  }

  /** A unit names a field of the layout and masks exactly its bits; only a field that is the whole
      register may leave the mask at its all-ones default. */
  ghost predicate UnitAgrees(layout: AddressRegisterMap, unit: TranslationUnit) {
    var a, f := RegisterOf(unit.registerName), SubNameOf(unit.registerName);
    && |a| < |unit.registerName| && a in layout && IndexOf(layout[a], f) >= 0
    && var m := IndexOf(layout[a], f);
    && (forall b: nat | b < TotalSize(layout[a]) :: Bit(unit.maskRegister, b) <==> InRegion(layout[a], m, b))
    && (forall b: nat | b >= TotalSize(layout[a]) && Bit(unit.maskRegister, b) ::
          layout[a][m].size == TotalSize(layout[a]))
  }

  ghost predicate MapAgrees(layout: AddressRegisterMap, tmap: TranslationMap) {
    forall p, k | p in tmap && 0 <= k < |tmap[p]| :: UnitAgrees(layout, tmap[p][k])
  }

  ghost predicate LayoutOk(layout: AddressRegisterMap) {
    forall a | a in layout :: '.' !in a && WellFormed(layout[a]) && TotalSize(layout[a]) <= 32
  }

  lemma {:induction false} RegionsApart(fields: seq<Field>, m: nat, n: nat, b: nat)
    requires m < |fields| && n < |fields| && InRegion(fields, m, b) && InRegion(fields, n, b)
    ensures m == n
  {
    OffsetMonotone(fields, m, |fields|);
    OffsetMonotone(fields, n, |fields|);
    if m < n { OffsetMonotone(fields, m, n); }
    if n < m { OffsetMonotone(fields, n, m); }
  }

  lemma {:induction false} FieldAt(fields: seq<Field>, n: nat, i: nat) returns (m: nat)
    requires n <= |fields| && i < Offset(fields, n)
    ensures m < n && Offset(fields, m) <= i < Offset(fields, m) + fields[m].size
  {
    if i >= Offset(fields, n - 1) { m := n - 1; } else { m := FieldAt(fields, n - 1, i); }
  }

  /** A fitting part sits in the register exactly where the layout has its field. */
  lemma {:induction false} UnitPlaced(layout: AddressRegisterMap, v: Visit)
    requires LayoutOk(layout) && UnitAgrees(layout, v.unit)
    requires v.unit.maskValue > 0 && 0 < v.unit.maskRegister < Pow2(32)
    requires
      var fields := layout[RegisterOf(v.unit.registerName)];
      SubValue(v) < Pow2(fields[IndexOf(fields, SubNameOf(v.unit.registerName))].size)
    ensures Fits(v)
    ensures
      var fields := layout[RegisterOf(v.unit.registerName)];
      var m := IndexOf(fields, SubNameOf(v.unit.registerName));
      forall b: nat :: Bit(FlatValue(32, v), b) <==> InRegion(fields, m, b) && Bit(SubValue(v), b - LowBit(fields, m))
  {
    hide RegisterOf, SubNameOf, IndexOf, SubValue, Shl, Ctz, Bit, Pow2;
    var fields := layout[RegisterOf(v.unit.registerName)];
    var m := IndexOf(fields, SubNameOf(v.unit.registerName));
    var low, mask := LowBit(fields, m), v.unit.maskRegister;
    OffsetMonotone(fields, m, |fields|);
    assert InRegion(fields, m, low);
    forall i: nat | i < low ensures !Bit(mask, i) { assert !InRegion(fields, m, i); }
    CtzUnique(mask, low);
    FitsIffNoHighBits(SubValue(v), fields[m].size);
    var moved := Shl(SubValue(v), low);
    forall b: nat ensures Bit(moved, b) <==> InRegion(fields, m, b) && Bit(SubValue(v), b - low) {
      BitOfShl(SubValue(v), low, b);
    }
    forall b: nat | Bit(moved, b) ensures Bit(mask, b) { assert InRegion(fields, m, b); }
    FlatValueWithin(32, v);
  }

  /** Units of one register that agree with the layout never overlap. */
  lemma {:induction false} MasksApart(layout: AddressRegisterMap, u: TranslationUnit, v: TranslationUnit)
    requires LayoutOk(layout) && UnitAgrees(layout, u) && UnitAgrees(layout, v)
    requires RegisterOf(u.registerName) == RegisterOf(v.registerName) && u.registerName != v.registerName
    ensures Disjoint(u.maskRegister, v.maskRegister)
  {
    var fields := layout[RegisterOf(u.registerName)];
    var m, n := IndexOf(fields, SubNameOf(u.registerName)), IndexOf(fields, SubNameOf(v.registerName));
    SplitName(u.registerName);
    SplitName(v.registerName);
    assert m != n;
    forall b: nat ensures !(Bit(u.maskRegister, b) && Bit(v.maskRegister, b)) {
      if Bit(u.maskRegister, b) && Bit(v.maskRegister, b) {
        if b < TotalSize(fields) {
          RegionsApart(fields, m, n, b);
        } else {
          OffsetMonotone(fields, m, |fields|);
          OffsetMonotone(fields, n, |fields|);
          RegionsApart(fields, m, n, 0);
        }
      }
    }
  }

  // ----- The two paths -----

  /** A visit, its place in the layout, and the fact that its part fits there. */
  ghost predicate Placed(layout: AddressRegisterMap, v: Visit) {
    && v.unit.maskValue > 0 && 0 < v.unit.maskRegister < Pow2(32)
    && UnitAgrees(layout, v.unit)
    && var fields := layout[RegisterOf(v.unit.registerName)];
       SubValue(v) < Pow2(fields[IndexOf(fields, SubNameOf(v.unit.registerName))].size)
  }

  ghost predicate AllPlaced(layout: AddressRegisterMap, visits: seq<Visit>) {
    visits == [] || (Placed(layout, visits[|visits| - 1]) && AllPlaced(layout, visits[..|visits| - 1]))
  }

  lemma {:induction false} PlacedAt(layout: AddressRegisterMap, visits: seq<Visit>, j: nat)
    requires AllPlaced(layout, visits) && j < |visits|
    ensures Placed(layout, visits[j])
  {
    if j < |visits| - 1 { PlacedAt(layout, visits[..|visits| - 1], j); }
  }

  lemma {:induction false} EachPlaced(layout: AddressRegisterMap, visits: seq<Visit>)
    requires forall j | 0 <= j < |visits| :: Placed(layout, visits[j])
    ensures AllPlaced(layout, visits)
  {
    if visits != [] { EachPlaced(layout, visits[..|visits| - 1]); }
  }

  /** `sub` holds exactly the visited names, each with the part its unit carries. */
  ghost predicate Matches(visits: seq<Visit>, sub: Tree)
    requires MasksNonZero(visits)
  {
    && (forall j | 0 <= j < |visits| :: visits[j].unit.registerName in sub
         && sub[visits[j].unit.registerName] == SubValue(visits[j]))
    && (forall n | n in sub :: exists j :: 0 <= j < |visits| && visits[j].unit.registerName == n)
  }

  lemma {:induction false} SubTreeMatches(visits: seq<Visit>)
    requires MasksNonZero(visits) && DistinctNames(visits)
    ensures Matches(visits, SubTree(visits))
  {
    forall j | 0 <= j < |visits|
      ensures visits[j].unit.registerName in SubTree(visits)
        && SubTree(visits)[visits[j].unit.registerName] == SubValue(visits[j])
    {
      SubTreeAt(visits, visits[j].unit.registerName);
    }
    forall n | n in SubTree(visits) ensures exists j :: 0 <= j < |visits| && visits[j].unit.registerName == n {
      SubTreeAt(visits, n);
    }
  }

  /** When the sub-register path builds an address, every part visited there fits its field. */
  lemma {:induction false} VisitFitsField(layout: AddressRegisterMap, v: Visit, sub: Tree)
    requires UnitAgrees(layout, v.unit) && v.unit.maskValue > 0 && 0 < v.unit.maskRegister < Pow2(32)
    requires v.unit.registerName in sub && sub[v.unit.registerName] == SubValue(v)
    requires
      var a := RegisterOf(v.unit.registerName);
      BuildAddress(sub, a, layout[a]).Ok?
    ensures Placed(layout, v)
  {
    var name := v.unit.registerName;
    var a := RegisterOf(name);
    var m := IndexOf(layout[a], SubNameOf(name));
    SplitName(name);
    BuiltIffFieldsOk(sub, a, layout[a], |layout[a]|);
    assert FieldBits(sub, a, layout[a][m]).Ok?;
  }

  /** Bit `i` of a built address belongs to some field `m` and is that field's bit. */
  lemma {:induction false} BuiltBit(tree: Tree, a: string, fields: seq<Field>, m: nat, i: nat)
    requires m < |fields| && Offset(fields, m) <= i < Offset(fields, m) + fields[m].size
    requires BuildAddress(tree, a, fields).Ok?
    ensures i < |BuildAddress(tree, a, fields).value| == TotalSize(fields)
    ensures InRegion(fields, m, TotalSize(fields) - 1 - i)
    ensures BuildAddress(tree, a, fields).value[i] <==> TreeBit(tree, a, fields, m, TotalSize(fields) - 1 - i)
  {
    var bits := BuildAddress(tree, a, fields).value;
    var start := Offset(fields, m);
    BuiltIffFieldsOk(tree, a, fields, |fields|);
    BuiltSlice(tree, a, fields, |fields|, m);
    var size := fields[m].size;
    var value := if Named(fields, m) then tree[Path(a, fields[m].name)] else 0;
    assert bits[start..start + size] == ToBits(value, size);
    assert bits[i] == bits[start..start + size][i - start] == Bit(value, size - 1 - (i - start));
    assert TotalSize(fields) - 1 - i - LowBit(fields, m) == size - 1 - (i - start);
    if !Named(fields, m) { BitOfZero(size - 1 - (i - start)); }
  }

  /** The bits of a register word, one visit at a time. */
  ghost predicate FlatWordBit(visits: seq<Visit>, a: string, word: nat, b: nat)
    requires MasksNonZero(visits)
  {
    Bit(word, b) <==>
      exists i :: 0 <= i < |visits| && RegisterOf(visits[i].unit.registerName) == a && Bit(FlatValue(32, visits[i]), b)
  }

  /** The bit of field `m` that the tree holds for bit `b` of the register. */
  predicate TreeBit(sub: Tree, a: string, fields: seq<Field>, m: nat, b: nat)
    requires m < |fields| && LowBit(fields, m) <= b
  {
    Named(fields, m) && Path(a, fields[m].name) in sub && Bit(sub[Path(a, fields[m].name)], b - LowBit(fields, m))
  }

  /** Bit `b` of a flat register is the bit of the one visit that carries the name of field `m`. */
  lemma {:induction false} FlatBit(
    layout: AddressRegisterMap, visits: seq<Visit>, sub: Tree, word: nat, a: string, m: nat, b: nat)
    requires LayoutOk(layout) && MasksNonZero(visits) && Matches(visits, sub) && AllPlaced(layout, visits)
    requires a in layout && m < |layout[a]| && InRegion(layout[a], m, b) && FlatWordBit(visits, a, word, b)
    ensures Bit(word, b) <==> TreeBit(sub, a, layout[a], m, b)
  {
    if Bit(word, b) {
      var j :| 0 <= j < |visits| && RegisterOf(visits[j].unit.registerName) == a && Bit(FlatValue(32, visits[j]), b);
      PlacedAt(layout, visits, j);
      FlatBitInTree(layout, visits[j], sub, a, m, b);
    } else if TreeBit(sub, a, layout[a], m, b) {
      var j := NamedVisit(layout, visits, sub, a, m, b);
      assert false;
    }
  }

  lemma {:induction false} FlatBitInTree(layout: AddressRegisterMap, v: Visit, sub: Tree, a: string, m: nat, b: nat)
    requires LayoutOk(layout) && Placed(layout, v) && a == RegisterOf(v.unit.registerName) && m < |layout[a]|
      && InRegion(layout[a], m, b)
    requires v.unit.registerName in sub && sub[v.unit.registerName] == SubValue(v) && Bit(FlatValue(32, v), b)
    ensures TreeBit(sub, a, layout[a], m, b)
  {
    VisitOwnsField(layout, v, m, b);
  }

  lemma {:induction false} NamedVisit(
    layout: AddressRegisterMap, visits: seq<Visit>, sub: Tree, a: string, m: nat, b: nat)
    returns (j: nat)
    requires LayoutOk(layout) && MasksNonZero(visits) && Matches(visits, sub) && AllPlaced(layout, visits)
    requires a in layout && m < |layout[a]| && InRegion(layout[a], m, b) && TreeBit(sub, a, layout[a], m, b)
    ensures j < |visits| && RegisterOf(visits[j].unit.registerName) == a && Bit(FlatValue(32, visits[j]), b)
  {
    j :| 0 <= j < |visits| && visits[j].unit.registerName == Path(a, layout[a][m].name);
    PlacedAt(layout, visits, j);
    NamedBit(layout, visits[j], a, m, b);
  }

  lemma {:induction false} NamedBit(layout: AddressRegisterMap, v: Visit, a: string, m: nat, b: nat)
    requires LayoutOk(layout) && Placed(layout, v) && a in layout && Named(layout[a], m) && InRegion(layout[a], m, b)
    requires v.unit.registerName == Path(a, layout[a][m].name) && Bit(SubValue(v), b - LowBit(layout[a], m))
    ensures RegisterOf(v.unit.registerName) == a && Bit(FlatValue(32, v), b)
  {
    hide FlatValue, SubValue, RegisterOf, SubNameOf;
    JoinName(a, layout[a][m].name);
    UnitPlaced(layout, v);
  }

  /** One address, on both paths. */
  lemma {:induction false} SameBitsAsWord(
    layout: AddressRegisterMap, visits: seq<Visit>, sub: Tree, word: nat, a: string)
    requires LayoutOk(layout) && MasksNonZero(visits) && Matches(visits, sub) && AllPlaced(layout, visits)
    requires forall b: nat :: FlatWordBit(visits, a, word, b)
    requires a in layout && BuildAddress(sub, a, layout[a]).Ok?
    ensures BuildAddress(sub, a, layout[a]).value == ToBits(word, TotalSize(layout[a]))
  {
    hide Matches, AllPlaced, LayoutOk, FlatWordBit;
    var fields := layout[a];
    BuiltIffFieldsOk(sub, a, fields, |fields|);
    forall i | 0 <= i < TotalSize(fields)
      ensures BuildAddress(sub, a, layout[a]).value[i] == ToBits(word, TotalSize(fields))[i]
    {
      SameBitAsWord(layout, visits, sub, word, a, i);
    }
  }

  lemma {:induction false} SameBitAsWord(
    layout: AddressRegisterMap, visits: seq<Visit>, sub: Tree, word: nat, a: string, i: nat)
    requires LayoutOk(layout) && MasksNonZero(visits) && Matches(visits, sub) && AllPlaced(layout, visits)
    requires a in layout && i < TotalSize(layout[a]) && FlatWordBit(visits, a, word, TotalSize(layout[a]) - 1 - i)
    requires BuildAddress(sub, a, layout[a]).Ok?
    ensures i < |BuildAddress(sub, a, layout[a]).value|
    ensures BuildAddress(sub, a, layout[a]).value[i] == Bit(word, TotalSize(layout[a]) - 1 - i)
  {
    hide Matches, AllPlaced, LayoutOk, FlatWordBit, TreeBit, BuildAddress;
    var fields := layout[a];
    var m := FieldAt(fields, |fields|, i);
    BuiltBit(sub, a, fields, m, i);
    FlatBit(layout, visits, sub, word, a, m, TotalSize(fields) - 1 - i);
  }

  /** A visit that sets a bit of a field carries that field's name. */
  lemma {:induction false} VisitOwnsField(layout: AddressRegisterMap, v: Visit, m: nat, b: nat)
    requires LayoutOk(layout) && Placed(layout, v) && m < |layout[RegisterOf(v.unit.registerName)]|
    requires InRegion(layout[RegisterOf(v.unit.registerName)], m, b) && Bit(FlatValue(32, v), b)
    ensures
      var a := RegisterOf(v.unit.registerName);
      && v.unit.registerName == Path(a, layout[a][m].name) && Named(layout[a], m)
      && Bit(SubValue(v), b - LowBit(layout[a], m))
  {
    hide FlatValue, SubValue, RegisterOf, SubNameOf;
    var name := v.unit.registerName;
    var fields := layout[RegisterOf(name)];
    SplitName(name);
    UnitPlaced(layout, v);
    RegionsApart(fields, m, IndexOf(fields, SubNameOf(name)), b);
  }

  // ----- The whole configuration -----

  /** The addresses the sub-register tree has are registers that were visited. */
  lemma {:induction false} AddressVisited(layout: AddressRegisterMap, visits: seq<Visit>, sub: Tree, a: string)
    requires MasksNonZero(visits) && Matches(visits, sub) && '.' !in a && AllPlaced(layout, visits)
    requires HasAddress(sub, a)
    ensures exists j :: 0 <= j < |visits| && RegisterOf(visits[j].unit.registerName) == a
  {
    var p :| p in sub && (p == a || a + "." <= p);
    var j :| 0 <= j < |visits| && visits[j].unit.registerName == p;
    PlacedAt(layout, visits, j);
    RegisterOfPath(p, a);
  }

  lemma {:induction false} RegisterOfPath(p: string, a: string)
    requires '.' !in a && |RegisterOf(p)| < |p| && (p == a || a + "." <= p)
    ensures RegisterOf(p) == a
  {
    SplitName(p);
    if a + "." <= p {
      assert p == a + "." + p[|a| + 1..];
      JoinName(a, p[|a| + 1..]);
    }
  }

  /** The two translation paths commute. For every value tree over a map that agrees with the layout and
      touches no read-only register: whenever the sub-register path builds, the flat path builds too, and
      every result `buildPartialConfig` can give is the very same map of bit strings. */
  lemma {:induction false} PathsCommute(
    tmap: TranslationMap, layout: AddressRegisterMap, tree: Tree, paths: seq<string>, full: AddressBitstreamMap)
    requires LayoutOk(layout) && MapAgrees(layout, tmap) && MasksOk(tmap, 32) && UniqueNames(tmap)
      && Walkable(tmap, tree, paths)
    requires forall v | v in Visits(tmap, tree, paths) :: Writable(RegisterOf(v.unit.registerName))
    requires MasksNonZero(Visits(tmap, tree, paths))
    requires IsFullConfig(layout, SubTree(Visits(tmap, tree, paths)), Ok(full))
    ensures forall r :: IsPartialConfig(layout, FlatTree(32, Visits(tmap, tree, paths)), r) <==> r == Ok(full)
  {
    var visits := Visits(tmap, tree, paths);
    VisitsDistinct(tmap, tree, paths);
    SubTreeMatches(visits);
    VisitsPlaced(tmap, layout, tree, paths, SubTree(visits), full);
    PlacedFlatOk(layout, visits);
    FlatEqualsBuilt(layout, visits, SubTree(visits), full);
    forall r ensures IsPartialConfig(layout, FlatTree(32, visits), r) <==> r == Ok(full) {
      OnlyResult(layout, FlatTree(32, visits), full, r);
    }
  }

  lemma {:induction false} FlatEqualsBuilt(
    layout: AddressRegisterMap, visits: seq<Visit>, sub: Tree, full: AddressBitstreamMap)
    requires LayoutOk(layout) && MasksNonZero(visits) && FlatOk(32, visits) && Matches(visits, sub)
      && AllPlaced(layout, visits)
    requires forall j | 0 <= j < |visits| :: Writable(RegisterOf(visits[j].unit.registerName))
    requires IsFullConfig(layout, sub, Ok(full))
    ensures FlatTree(32, visits).Keys == full.Keys
    ensures forall a | a in full :: PartialBits(layout, a, FlatTree(32, visits)[a]) == Ok(full[a])
  {
    hide AllPlaced, Matches, LayoutOk, FlatOk, FlatReadsBack, BuildAddress;
    var flat := FlatTree(32, visits);
    Word32ReadsBack(visits);
    FlatRegistersFit(32, visits);
    Pow2Of32();
    forall a ensures a in flat <==> a in full {
      FlatRegisterBits(32, visits, a, 0);
      RegisterIsAddress(layout, visits, sub, full, a);
    }
    forall a | a in full ensures PartialBits(layout, a, flat[a]) == Ok(full[a]) {
      forall b: nat ensures FlatWordBit(visits, a, flat[a], b) { FlatRegisterBits(32, visits, a, b); }
      SameBitsAsWord(layout, visits, sub, flat[a], a);
      PartialOfWord(layout, a, flat[a]);
    }
  }

  lemma {:induction false} PartialOfWord(layout: AddressRegisterMap, a: string, word: nat)
    requires LayoutOk(layout) && a in layout && Writable(a) && word < TWO_32
    ensures PartialBits(layout, a, word) == Ok(ToBits(word, TotalSize(layout[a])))
  {
  }

  lemma {:induction false} RegisterIsAddress(
    layout: AddressRegisterMap, visits: seq<Visit>, sub: Tree, full: AddressBitstreamMap, a: string)
    requires LayoutOk(layout) && MasksNonZero(visits) && Matches(visits, sub) && AllPlaced(layout, visits)
    requires forall j | 0 <= j < |visits| :: Writable(RegisterOf(visits[j].unit.registerName))
    requires IsFullConfig(layout, sub, Ok(full))
    ensures (exists j :: 0 <= j < |visits| && RegisterOf(visits[j].unit.registerName) == a) <==> a in full
  {
    if a in full { AddressVisited(layout, visits, sub, a); }
    if j :| 0 <= j < |visits| && RegisterOf(visits[j].unit.registerName) == a { PlacedAt(layout, visits, j); }
  }

  lemma {:induction false} OnlyResult(
    layout: AddressRegisterMap, flat: Tree, full: AddressBitstreamMap, r: Result<AddressBitstreamMap>)
    requires flat.Keys == full.Keys && forall a | a in full :: PartialBits(layout, a, flat[a]) == Ok(full[a])
    ensures IsPartialConfig(layout, flat, r) <==> r == Ok(full)
  {
    if r.Ok? && IsPartialConfig(layout, flat, r) {
      forall a | a in full ensures r.value[a] == full[a] { assert PartialBits(layout, a, flat[a]) == Ok(r.value[a]); }
      assert r.value == full;
    }
  }

  lemma {:induction false} VisitsPlaced(
    tmap: TranslationMap, layout: AddressRegisterMap, tree: Tree, paths: seq<string>, sub: Tree,
    full: AddressBitstreamMap)
    requires MapAgrees(layout, tmap) && MasksOk(tmap, 32) && Walkable(tmap, tree, paths)
    requires forall v | v in Visits(tmap, tree, paths) :: Writable(RegisterOf(v.unit.registerName))
    requires MasksNonZero(Visits(tmap, tree, paths)) && Matches(Visits(tmap, tree, paths), sub)
    requires IsFullConfig(layout, sub, Ok(full))
    ensures AllPlaced(layout, Visits(tmap, tree, paths))
  {
    var visits := Visits(tmap, tree, paths);
    forall j | 0 <= j < |visits| ensures Placed(layout, visits[j]) {
      VisitFrom(tmap, tree, paths, j);
      assert UnitAgrees(layout, visits[j].unit);
      assert RegisterOf(visits[j].unit.registerName) in full;
      VisitFitsField(layout, visits[j], sub);
    }
    EachPlaced(layout, visits);
  }

  lemma {:induction false} PlacedFlatOk(layout: AddressRegisterMap, visits: seq<Visit>)
    requires LayoutOk(layout) && AllPlaced(layout, visits) && DistinctNames(visits)
    ensures FlatOk(32, visits)
  {
    forall j | 0 <= j < |visits| ensures Fits(visits[j]) && visits[j].unit.maskRegister < Pow2(32) {
      PlacedAt(layout, visits, j);
      UnitPlaced(layout, visits[j]);
    }
    forall i, j | 0 <= i < j < |visits|
      && RegisterOf(visits[i].unit.registerName) == RegisterOf(visits[j].unit.registerName)
      ensures Disjoint(visits[i].unit.maskRegister, visits[j].unit.maskRegister)
    {
      PlacedAt(layout, visits, i);
      PlacedAt(layout, visits, j);
      MasksApart(layout, visits[i].unit, visits[j].unit);
    }
  }
}
