/** The four conversions of src/ConfigConverter.cpp as they run, and what they promise each other. */
module ConfigConverter {
  import opened Bits
  import opened Utility
  import opened I2cMaster
  import opened Translation

  // ----- Value tree to sub-register tree, value tree to flat registers -----

  /** Every path is known, and every value that is read fits the device's integer type. */
  ghost predicate Readable(tmap: TranslationMap, w: nat, tree: Tree) {
    && (forall p | p in tree :: p in tmap)
    && (forall p | p in tree && tmap[p] != [] :: tree[p] < Pow2(w))
  }

  /** The outcome of a conversion whose result, when there is one, is `value`. */
  ghost predicate Outcome<T>(tmap: TranslationMap, w: nat, tree: Tree, r: Converted<T>) {
    && (r.Done? <==> Readable(tmap, w, tree))
    && (r.Failed? ==> r.error == if forall p | p in tree :: p in tmap then BadValue else PathNotInMap)
  }

  method CheckPaths(tmap: TranslationMap, paths: seq<string>) returns (ok: bool)
    ensures ok <==> forall p | p in paths :: p in tmap
  {
    for i := 0 to |paths|
      invariant forall p | p in paths[..i] :: p in tmap
    {
      if paths[i] !in tmap { return false; }
    }
    assert paths[..|paths|] == paths;
    return true;
  }

  ghost predicate UnitMasksOk(units: seq<TranslationUnit>) {
    forall k | 0 <= k < |units| :: units[k].maskValue > 0 && units[k].maskRegister > 0
  }

  /** One step of the walk: the visits so far, then one more unit. */
  lemma {:induction false} NextVisit(units: seq<TranslationUnit>, before: seq<Visit>, path: string, value: nat, j: nat)
    requires j < |units|
    ensures
      var now := before + UnitVisits(path, units[..j], value);
      before + UnitVisits(path, units[..j + 1], value) == now + [Visit(path, units[j], value)]
  {
  }

  lemma {:induction false} NextPath(tmap: TranslationMap, tree: Tree, paths: seq<string>, i: nat)
    requires i < |paths| && forall p | p in paths :: p in tmap && p in tree
    ensures Visits(tmap, tree, paths[..i + 1])
      == Visits(tmap, tree, paths[..i]) + UnitVisits(paths[i], tmap[paths[i]], tree[paths[i]])
  {
    assert paths[..i + 1][..i] == paths[..i];
  }

  method ConvertValueToSubRegister(
    tmap: TranslationMap, w: nat, config: Tree, paths: seq<string>)
    returns (r: Converted<Tree>)
    requires Enumerates(paths, config.Keys) && MasksOk(tmap, w)
    ensures Outcome(tmap, w, config, r)
    ensures r.Done? <==> forall p | p in config :: p in tmap && (tmap[p] != [] ==> config[p] < Pow2(w))
    ensures r == Failed(PathNotInMap) <==> exists p :: p in config && p !in tmap
    ensures r.Failed? ==> r.error == PathNotInMap || r.error == BadValue
    ensures r.Done? ==> MasksNonZero(Visits(tmap, config, paths)) && r.value == SubTree(Visits(tmap, config, paths))
  {
    var ok := CheckPaths(tmap, paths);
    if !ok { return Failed(PathNotInMap); }
    var newTree: Tree := map[];
    for i := 0 to |paths|
      invariant MasksNonZero(Visits(tmap, config, paths[..i])) && newTree == SubTree(Visits(tmap, config, paths[..i]))
      invariant forall k | 0 <= k < i && tmap[paths[k]] != [] :: config[paths[k]] < Pow2(w)
    {
      NextPath(tmap, config, paths, i);
      var element := paths[i];
      ok, newTree := PutUnits(w, element, tmap[element], config[element], newTree, Visits(tmap, config, paths[..i]));
      if !ok { return Failed(BadValue); }
    }
    assert paths[..|paths|] == paths;
    return Done(newTree);
  }

  method PutUnits(
    w: nat, element: string, units: seq<TranslationUnit>, value: nat, tree: Tree, ghost before: seq<Visit>)
    returns (ok: bool, newTree: Tree)
    requires UnitMasksOk(units) && MasksNonZero(before) && tree == SubTree(before)
    ensures ok <==> units == [] || value < Pow2(w)
    ensures MasksNonZero(before + UnitVisits(element, units, value))
    ensures ok ==> newTree == SubTree(before + UnitVisits(element, units, value))
  {
    newTree := tree;
    ghost var done := before;
    for j := 0 to |units|
      invariant done == before + UnitVisits(element, units[..j], value) && MasksNonZero(done)
      invariant newTree == SubTree(done)
      invariant j > 0 ==> value < Pow2(w)
    {
      if value >= Pow2(w) { return false, newTree; }
      NextVisit(units, before, element, value, j);
      var unit := units[j];
      ghost var v := Visit(element, unit, value);
      NextSub(done, v);
      AndCommutes(unit.maskValue, value);
      newTree := newTree[unit.registerName := Shr(And(unit.maskValue, value), Ctz(unit.maskValue))];
      done := done + [v];
    }
    assert units[..|units|] == units;
    return true, newTree;
  }

  lemma {:induction false} NextSub(done: seq<Visit>, v: Visit)
    requires MasksNonZero(done) && v.unit.maskValue > 0 && v.unit.maskRegister > 0
    ensures MasksNonZero(done + [v])
    ensures SubTree(done + [v]) == SubTree(done)[v.unit.registerName := SubValue(v)]
  {
    assert (done + [v])[..|done|] == done;
  }

  lemma {:induction false} AndCommutes(a: nat, b: nat)
    ensures And(a, b) == And(b, a)
  {
    forall i: nat ensures Bit(And(a, b), i) == Bit(And(b, a), i) {
      BitOfAnd(a, b, i);
      BitOfAnd(b, a, i);
    }
    SameBits(And(a, b), And(b, a));
  }

  datatype TranslatedConfig = TranslatedConfig(tree: Tree, mask: Tree)

  method ConvertValueToFlatRegister(
    tmap: TranslationMap, w: nat, config: Tree, paths: seq<string>)
    returns (r: Converted<TranslatedConfig>)
    requires Enumerates(paths, config.Keys) && MasksOk(tmap, w)
    ensures Outcome(tmap, w, config, r)
    ensures r.Done? <==> forall p | p in config :: p in tmap && (tmap[p] != [] ==> config[p] < Pow2(w))
    ensures r == Failed(PathNotInMap) <==> exists p :: p in config && p !in tmap
    ensures r.Failed? ==> r.error == PathNotInMap || r.error == BadValue
    ensures r.Done? ==>
      MasksNonZero(Visits(tmap, config, paths)) && r.value == FlatConfig(w, Visits(tmap, config, paths))
  {
    var ok := CheckPaths(tmap, paths);
    if !ok { return Failed(PathNotInMap); }
    var flat := TranslatedConfig(map[], map[]);
    for i := 0 to |paths|
      invariant MasksNonZero(Visits(tmap, config, paths[..i]))
        && flat == FlatConfig(w, Visits(tmap, config, paths[..i]))
      invariant forall k | 0 <= k < i && tmap[paths[k]] != [] :: config[paths[k]] < Pow2(w)
    {
      NextPath(tmap, config, paths, i);
      var element := paths[i];
      ok, flat := AddUnits(w, element, tmap[element], config[element], flat, Visits(tmap, config, paths[..i]));
      if !ok { return Failed(BadValue); }
    }
    assert paths[..|paths|] == paths;
    return Done(flat);
  }

  function FlatConfig(w: nat, visits: seq<Visit>): TranslatedConfig
    requires MasksNonZero(visits)
  {
    TranslatedConfig(FlatTree(w, visits), FlatMask(visits))
  }

  /** One unit added to its register, and its bits to the mask of that register. */
  function AddUnit(w: nat, flat: TranslatedConfig, unit: TranslationUnit, value: nat): TranslatedConfig
    requires unit.maskValue > 0 && unit.maskRegister > 0
  {
    var moved := Truncate(w, Shl(Shr(And(value, unit.maskValue), Ctz(unit.maskValue)), Ctz(unit.maskRegister)));
    var name := RegisterOf(unit.registerName);
    TranslatedConfig(
      flat.tree[name := Truncate(w, Get0u(flat.tree, name) + moved)],
      flat.mask[name := if name in flat.mask then Or(flat.mask[name], unit.maskRegister) else unit.maskRegister])
  }

  method AddUnits(
    w: nat, element: string, units: seq<TranslationUnit>, value: nat, flat: TranslatedConfig,
    ghost before: seq<Visit>)
    returns (ok: bool, newFlat: TranslatedConfig)
    requires UnitMasksOk(units) && MasksNonZero(before) && flat == FlatConfig(w, before)
    ensures ok <==> units == [] || value < Pow2(w)
    ensures MasksNonZero(before + UnitVisits(element, units, value))
    ensures ok ==> newFlat == FlatConfig(w, before + UnitVisits(element, units, value))
  {
    newFlat := flat;
    ghost var done := before;
    for j := 0 to |units|
      invariant done == before + UnitVisits(element, units[..j], value) && MasksNonZero(done)
      invariant newFlat == FlatConfig(w, done)
      invariant j > 0 ==> value < Pow2(w)
    {
      if value >= Pow2(w) { return false, flat; }
      NextVisit(units, before, element, value, j);
      NextFlat(w, done, Visit(element, units[j], value));
      newFlat := AddUnit(w, newFlat, units[j], value);
      done := done + [Visit(element, units[j], value)];
    }
    assert units[..|units|] == units;
    return true, newFlat;
  }

  lemma {:induction false} NextFlat(w: nat, done: seq<Visit>, v: Visit)
    requires MasksNonZero(done) && v.unit.maskValue > 0 && v.unit.maskRegister > 0
    ensures MasksNonZero(done + [v])
    ensures FlatConfig(w, done + [v]) == AddUnit(w, FlatConfig(w, done), v.unit, v.value)
  {
    assert (done + [v])[..|done|] == done;
    assert FlatEntries(w, done + [v])[..|done|] == FlatEntries(w, done);
  }

  // ----- Sub-register tree back to values -----

  /** The first unit of this name in a list. */
  function UnitNamed(units: seq<TranslationUnit>, name: string): Option<TranslationUnit> {
    if units == [] then None else if units[0].registerName == name then Some(units[0]) else UnitNamed(units[1..], name)
  }

  /** The value and unit a sub-register belongs to; the map is searched in the order of its keys. */
  function FindNode(tmap: TranslationMap, order: seq<string>, name: string): Option<(string, TranslationUnit)>
    requires forall p | p in order :: p in tmap
  {
    if order == [] then None
    else
      var found := UnitNamed(tmap[order[0]], name);
      if found.Some? then Some((order[0], found.value)) else FindNode(tmap, order[1..], name)
  }

  lemma {:induction false} FoundMask(tmap: TranslationMap, order: seq<string>, w: nat, name: string)
    requires (forall p | p in order :: p in tmap) && MasksOk(tmap, w) && FindNode(tmap, order, name).Some?
    ensures FindNode(tmap, order, name).value.1.maskValue > 0
  {
    FoundInMap(tmap, order, name);
  }

  /** What one path of a sub-register tree contributes to its value. */
  function ValueEntry(tmap: TranslationMap, order: seq<string>, w: nat, tree: Tree, path: string): Entry
    requires (forall p | p in order :: p in tmap) && MasksOk(tmap, w)
    requires path in tree && FindNode(tmap, order, path).Some?
  {
    FoundMask(tmap, order, w, path);
    var (name, unit) := FindNode(tmap, order, path).value;
    Entry(name, Truncate(w, Shl(tree[path], Ctz(unit.maskValue))))
  }

  ghost predicate NodesFound(tmap: TranslationMap, order: seq<string>, w: nat, tree: Tree, paths: seq<string>, n: nat)
    requires n <= |paths| && forall p | p in order :: p in tmap
  {
    forall k | 0 <= k < n :: paths[k] in tree && FindNode(tmap, order, paths[k]).Some? && tree[paths[k]] < Pow2(w)
  }

  function ValueEntries(tmap: TranslationMap, order: seq<string>, w: nat, tree: Tree, paths: seq<string>): seq<Entry>
    requires (forall p | p in order :: p in tmap) && MasksOk(tmap, w)
      && NodesFound(tmap, order, w, tree, paths, |paths|)
  {
    seq(|paths|, k requires 0 <= k < |paths| => ValueEntry(tmap, order, w, tree, paths[k]))
  }

  lemma {:induction false} UnitNamedAt(units: seq<TranslationUnit>, name: string)
    ensures UnitNamed(units, name).Some? ==>
      exists k :: 0 <= k < |units| && units[k] == UnitNamed(units, name).value && units[k].registerName == name
    ensures UnitNamed(units, name).None? ==> forall k | 0 <= k < |units| :: units[k].registerName != name
  {
    if units != [] && units[0].registerName != name { UnitNamedAt(units[1..], name); }
  }

  lemma {:induction false} FoundInMap(tmap: TranslationMap, order: seq<string>, name: string)
    requires forall p | p in order :: p in tmap
    ensures
      var found := FindNode(tmap, order, name);
      && (found.Some? ==>
            && found.value.0 in order && found.value.1.registerName == name
            && exists k :: 0 <= k < |tmap[found.value.0]| && tmap[found.value.0][k] == found.value.1)
      && (found.None? ==> forall p, k | p in order && 0 <= k < |tmap[p]| :: tmap[p][k].registerName != name)
  {
    if order != [] {
      UnitNamedAt(tmap[order[0]], name);
      if UnitNamed(tmap[order[0]], name).None? { FoundInMap(tmap, order[1..], name); }
    }
  }

  /** Some unit of some value has this name. */
  ghost predicate IsUnitName(tmap: TranslationMap, name: string) {
    exists p, k :: p in tmap && 0 <= k < |tmap[p]| && tmap[p][k].registerName == name
  }

  lemma {:induction false} NodeFoundIff(tmap: TranslationMap, order: seq<string>, name: string)
    requires Enumerates(order, tmap.Keys)
    ensures FindNode(tmap, order, name).Some? <==> IsUnitName(tmap, name)
  {
    FoundInMap(tmap, order, name);
    hide FindNode;
    if FindNode(tmap, order, name).Some? {
      var p := FindNode(tmap, order, name).value.0;
      var k :| 0 <= k < |tmap[p]| && tmap[p][k] == FindNode(tmap, order, name).value.1;
      assert IsUnitName(tmap, name);
    }
  }

  /** The unit found is the first of that name: no value earlier in the order has one, nor an earlier unit of its
      own. */
  lemma {:induction false} FoundFirst(tmap: TranslationMap, order: seq<string>, name: string) returns (i: nat, k: nat)
    requires (forall p | p in order :: p in tmap) && FindNode(tmap, order, name).Some?
    ensures i < |order| && k < |tmap[order[i]]| && tmap[order[i]][k].registerName == name
    ensures FindNode(tmap, order, name) == Some((order[i], tmap[order[i]][k]))
    ensures forall j | 0 <= j < k :: tmap[order[i]][j].registerName != name
    ensures forall h, j | 0 <= h < i && 0 <= j < |tmap[order[h]]| :: tmap[order[h]][j].registerName != name
  {
    UnitNamedAt(tmap[order[0]], name);
    if UnitNamed(tmap[order[0]], name).Some? {
      i := 0;
      k := NamedFirst(tmap[order[0]], name);
    } else {
      i, k := FoundFirst(tmap, order[1..], name);
      i := i + 1;
    }
  }

  lemma {:induction false} NamedFirst(units: seq<TranslationUnit>, name: string) returns (k: nat)
    requires UnitNamed(units, name).Some?
    ensures k < |units| && units[k] == UnitNamed(units, name).value && units[k].registerName == name
    ensures forall j | 0 <= j < k :: units[j].registerName != name
  {
    if units[0].registerName == name {
      k := 0;
    } else {
      k := NamedFirst(units[1..], name);
      k := k + 1;
    }
  }

  method ConvertSubRegisterToValue(
    tmap: TranslationMap, order: seq<string>, w: nat, config: Tree, paths: seq<string>)
    returns (r: Converted<Tree>)
    requires Enumerates(order, tmap.Keys) && Enumerates(paths, config.Keys) && MasksOk(tmap, w)
    ensures r.Done? <==> NodesFound(tmap, order, w, config, paths, |paths|)
    ensures r.Done? ==> r.value == AccTree(w, ValueEntries(tmap, order, w, config, paths))
    ensures r.Failed? ==> r.error in {NodeNotFound, BadValue}
    ensures r == Failed(NodeNotFound) ==> exists k :: 0 <= k < |paths| && FindNode(tmap, order, paths[k]).None?
    ensures r == Failed(BadValue) ==> exists k :: 0 <= k < |paths| && config[paths[k]] >= Pow2(w)
    ensures r.Done? <==> forall name | name in config :: config[name] < Pow2(w) && IsUnitName(tmap, name)
  {
    hide MasksOk, FindNode, AccTree, IsUnitName;
    forall name ensures FindNode(tmap, order, name).Some? <==> IsUnitName(tmap, name) {
      NodeFoundIff(tmap, order, name);
    }
    var newTree: Tree := map[];
    ghost var es: seq<Entry> := [];
    NothingAccumulated(w);
    for i := 0 to |paths|
      invariant NodesFound(tmap, order, w, config, paths, i)
      invariant |es| == i && forall k | 0 <= k < i :: es[k] == ValueEntry(tmap, order, w, config, paths[k])
      invariant newTree == AccTree(w, es)
    {
      var element := paths[i];
      var found := FindNode(tmap, order, element);
      if found.None? { return Failed(NodeNotFound); }
      if config[element] >= Pow2(w) { return Failed(BadValue); }
      var entry := ValueEntry(tmap, order, w, config, element);
      AccTreeStep(w, es, entry);
      newTree := newTree[entry.key := Truncate(w, Get0u(newTree, entry.key) + entry.addend)];
      es := es + [entry];
    }
    assert es == ValueEntries(tmap, order, w, config, paths);
    return Done(newTree);
  }

  // ----- Flat registers back to sub-registers -----

  /** The first unit of a value that lies in this register. */
  function UnitInRegister(units: seq<TranslationUnit>, register: string): Option<TranslationUnit> {
    if units == [] then None
    else if RegisterOf(units[0].registerName) == register then Some(units[0])
    else UnitInRegister(units[1..], register)
  }

  function UnitsOfRegister(tmap: TranslationMap, order: seq<string>, register: string): seq<TranslationUnit>
    requires forall p | p in order :: p in tmap
  {
    if order == [] then []
    else
      var found := UnitInRegister(tmap[order[|order| - 1]], register);
      UnitsOfRegister(tmap, order[..|order| - 1], register) + (if found.Some? then [found.value] else [])
  }

  function UnitsOfRegisters(tmap: TranslationMap, order: seq<string>, registers: seq<string>): seq<TranslationUnit>
    requires forall p | p in order :: p in tmap
  {
    if registers == [] then []
    else
      UnitsOfRegisters(tmap, order, registers[..|registers| - 1])
      + UnitsOfRegister(tmap, order, registers[|registers| - 1])
  }

  /** Is the sub-register part of one of the requested values? None when an unknown value is met first. */
  function Requested(tmap: TranslationMap, values: seq<string>, name: string): Option<bool> {
    if values == [] then Some(false)
    else if values[0] !in tmap then None
    else if UnitNamed(tmap[values[0]], name).Some? then Some(true)
    else Requested(tmap, values[1..], name)
  }

  /** The bits of one unit, read out of its register. */
  function Extract(flat: Tree, unit: TranslationUnit): nat
    requires unit.maskRegister > 0 && RegisterOf(unit.registerName) in flat
  {
    Shr(And(flat[RegisterOf(unit.registerName)], unit.maskRegister), Ctz(unit.maskRegister))
  }

  /** All units can be looked at, and the registers of the requested ones fit the integer type. */
  ghost predicate Extractable(
    tmap: TranslationMap, w: nat, values: seq<string>, flat: Tree, units: seq<TranslationUnit>) {
    && (forall k | 0 <= k < |units| :: units[k].maskRegister > 0 && RegisterOf(units[k].registerName) in flat)
    && (forall k | 0 <= k < |units| :: Requested(tmap, values, units[k].registerName).Some?)
    && (forall k | 0 <= k < |units| && Requested(tmap, values, units[k].registerName) == Some(true) ::
          flat[RegisterOf(units[k].registerName)] < Pow2(w))
  }

  function ExtractAll(tmap: TranslationMap, values: seq<string>, flat: Tree, units: seq<TranslationUnit>): Tree
    requires forall k | 0 <= k < |units| :: units[k].maskRegister > 0 && RegisterOf(units[k].registerName) in flat
  {
    if units == [] then map[]
    else
      var unit, t := units[|units| - 1], ExtractAll(tmap, values, flat, units[..|units| - 1]);
      if Requested(tmap, values, unit.registerName) == Some(true) then t[unit.registerName := Extract(flat, unit)]
      else t
  }

  method CollectUnits(
    tmap: TranslationMap, order: seq<string>, registers: seq<string>)
    returns (r: Converted<seq<TranslationUnit>>)
    requires forall p | p in order :: p in tmap
    ensures r.Done? <==> forall k | 0 <= k < |registers| :: UnitsOfRegister(tmap, order, registers[k]) != []
    ensures r.Done? ==> r.value == UnitsOfRegisters(tmap, order, registers)
    ensures r.Failed? ==> r.error == RegisterNotFound
  {
    var units: seq<TranslationUnit> := [];
    for i := 0 to |registers|
      invariant forall k | 0 <= k < i :: UnitsOfRegister(tmap, order, registers[k]) != []
      invariant units == UnitsOfRegisters(tmap, order, registers[..i])
    {
      var found := CollectOneRegister(tmap, order, registers[i]);
      if found == [] { return Failed(RegisterNotFound); }
      units := units + found;
      assert registers[..i + 1][..i] == registers[..i];
    }
    assert registers[..|registers|] == registers;
    return Done(units);
  }

  method CollectOneRegister(
    tmap: TranslationMap, order: seq<string>, register: string)
    returns (units: seq<TranslationUnit>)
    requires forall p | p in order :: p in tmap
    ensures units == UnitsOfRegister(tmap, order, register)
  {
    units := [];
    for j := 0 to |order|
      invariant units == UnitsOfRegister(tmap, order[..j], register)
    {
      assert order[..j + 1][..j] == order[..j];
      var item := UnitInRegister(tmap[order[j]], register);
      if item.Some? { units := units + [item.value]; }
    }
    assert order[..|order|] == order;
  }

  lemma {:induction false} UnitInRegisterAt(units: seq<TranslationUnit>, register: string)
    ensures
      var found := UnitInRegister(units, register);
      && (found.Some? ==>
            exists k :: 0 <= k < |units| && units[k] == found.value && RegisterOf(units[k].registerName) == register)
      && (found.None? ==> forall k | 0 <= k < |units| :: RegisterOf(units[k].registerName) != register)
  {
    if units != [] && RegisterOf(units[0].registerName) != register { UnitInRegisterAt(units[1..], register); }
  }

  /** Only units of the map that lie in the register are collected. */
  lemma {:induction false} CollectedUnit(
    tmap: TranslationMap, order: seq<string>, register: string, unit: TranslationUnit)
    requires (forall p | p in order :: p in tmap) && unit in UnitsOfRegister(tmap, order, register)
    ensures
      exists p, k :: p in order && 0 <= k < |tmap[p]| && tmap[p][k] == unit && RegisterOf(unit.registerName) == register
  {
    var p, init := order[|order| - 1], order[..|order| - 1];
    UnitInRegisterAt(tmap[p], register);
    if unit in UnitsOfRegister(tmap, init, register) { CollectedUnit(tmap, init, register, unit); }
  }

  lemma {:induction false} CollectedUnits(tmap: TranslationMap, order: seq<string>, w: nat, registers: seq<string>)
    requires (forall p | p in order :: p in tmap) && MasksOk(tmap, w)
    ensures forall k | 0 <= k < |UnitsOfRegisters(tmap, order, registers)| ::
        && UnitsOfRegisters(tmap, order, registers)[k].maskRegister > 0
        && RegisterOf(UnitsOfRegisters(tmap, order, registers)[k].registerName) in registers
  {
    if registers != [] {
      var init, register := registers[..|registers| - 1], registers[|registers| - 1];
      CollectedUnits(tmap, order, w, init);
      forall unit | unit in UnitsOfRegister(tmap, order, register)
        ensures unit.maskRegister > 0 && RegisterOf(unit.registerName) == register
      {
        CollectedUnit(tmap, order, register, unit);
      }
    }
  }

  /** No unit of any value lies in the register. */
  ghost predicate NoUnitIn(tmap: TranslationMap, register: string) {
    forall p, k | p in tmap && 0 <= k < |tmap[p]| :: RegisterOf(tmap[p][k].registerName) != register
  }

  /** A unit is collected for a register exactly when it lies there and is the first of its value that does. */
  lemma {:induction false} CollectedIff(
    tmap: TranslationMap, order: seq<string>, register: string, unit: TranslationUnit)
    requires forall p | p in order :: p in tmap
    ensures
      unit in UnitsOfRegister(tmap, order, register)
      <==> exists p, k :: p in order && 0 <= k < |tmap[p]| && tmap[p][k] == unit && FirstIn(tmap[p], register, k)
  {
    hide RegisterOf, FirstIn;
    if order != [] {
      var init, p := order[..|order| - 1], order[|order| - 1];
      CollectedIff(tmap, init, register, unit);
      FirstInIff(tmap[p], register, unit);
      assert forall q :: q in order <==> q in init || q == p;
    }
  }

  /** Unit `k` of a value is the first one in the register. */
  predicate FirstIn(units: seq<TranslationUnit>, register: string, k: nat)
    requires k < |units|
  {
    RegisterOf(units[k].registerName) == register
      && forall j | 0 <= j < k :: RegisterOf(units[j].registerName) != register
  }

  lemma {:induction false} FirstInIff(units: seq<TranslationUnit>, register: string, unit: TranslationUnit)
    ensures
      UnitInRegister(units, register) == Some(unit)
      <==> exists k :: 0 <= k < |units| && units[k] == unit && FirstIn(units, register, k)
  {
    hide RegisterOf;
    if units != [] {
      var rest := units[1..];
      FirstInIff(rest, register, unit);
      if RegisterOf(units[0].registerName) != register {
        if k :| 0 <= k < |rest| && rest[k] == unit && FirstIn(rest, register, k) {
          assert units[k + 1] == unit && FirstIn(units, register, k + 1);
        }
        if k :| 0 <= k < |units| && units[k] == unit && FirstIn(units, register, k) {
          assert rest[k - 1] == unit && FirstIn(rest, register, k - 1);
        }
      } else {
        assert FirstIn(units, register, 0);
        if k :| 0 <= k < |units| && units[k] == unit && FirstIn(units, register, k) { assert k == 0; }
      }
    }
  }

  lemma {:induction false} NoUnitsIff(tmap: TranslationMap, order: seq<string>, register: string)
    requires Enumerates(order, tmap.Keys)
    ensures UnitsOfRegister(tmap, order, register) == [] <==> NoUnitIn(tmap, register)
  {
    SomeUnit(tmap, order, register);
    assert forall p :: p in order <==> p in tmap;
  }

  lemma {:induction false} SomeUnit(tmap: TranslationMap, order: seq<string>, register: string)
    requires forall p | p in order :: p in tmap
    ensures
      UnitsOfRegister(tmap, order, register) == []
      <==> forall p, k | p in order && 0 <= k < |tmap[p]| :: RegisterOf(tmap[p][k].registerName) != register
  {
    hide RegisterOf;
    if order != [] {
      var init, p := order[..|order| - 1], order[|order| - 1];
      SomeUnit(tmap, init, register);
      UnitInRegisterAt(tmap[p], register);
      assert forall q :: q in order <==> q in init || q == p;
    }
  }

  method ConvertRegisterToSubRegister(
    tmap: TranslationMap, order: seq<string>, w: nat, config: Tree, paths: seq<string>, values: seq<string>)
    returns (r: Converted<Tree>)
    requires Enumerates(order, tmap.Keys) && Enumerates(paths, config.Keys) && MasksOk(tmap, w)
    ensures r == Failed(RegisterNotFound) <==> exists p :: p in config && UnitsOfRegister(tmap, order, p) == []
    ensures r == Failed(RegisterNotFound) <==> exists p :: p in config && NoUnitIn(tmap, p)
    ensures
      var units := UnitsOfRegisters(tmap, order, paths);
      && (r.Done? <==>
           (forall p | p in config :: UnitsOfRegister(tmap, order, p) != [])
             && Extractable(tmap, w, values, config, units))
      && (r.Done? ==> r.value == ExtractAll(tmap, values, config, units))
  {
    forall p ensures UnitsOfRegister(tmap, order, p) == [] <==> NoUnitIn(tmap, p) { NoUnitsIff(tmap, order, p); }
    hide NoUnitIn;
    var collected := CollectUnits(tmap, order, paths);
    if collected.Failed? { return Failed(RegisterNotFound); }
    CollectedUnits(tmap, order, w, paths);
    r := ExtractUnits(tmap, w, config, values, collected.value);
  }

  method ExtractUnits(
    tmap: TranslationMap, w: nat, config: Tree, values: seq<string>, units: seq<TranslationUnit>)
    returns (r: Converted<Tree>)
    requires forall k | 0 <= k < |units| :: units[k].maskRegister > 0 && RegisterOf(units[k].registerName) in config
    ensures r.Done? <==> Extractable(tmap, w, values, config, units)
    ensures r.Done? ==> r.value == ExtractAll(tmap, values, config, units)
    ensures r.Failed? ==> r.error in {UnknownValue, BadValue}
  {
    var subregisters: Tree := map[];
    for i := 0 to |units|
      invariant Extractable(tmap, w, values, config, units[..i])
      invariant subregisters == ExtractAll(tmap, values, config, units[..i])
    {
      var unit := units[i];
      assert units[..i + 1][..i] == units[..i];
      var requested := Requested(tmap, values, unit.registerName);
      if requested.None? { return Failed(UnknownValue); }
      if requested.value {
        if config[RegisterOf(unit.registerName)] >= Pow2(w) { return Failed(BadValue); }
        subregisters := subregisters[unit.registerName := Extract(config, unit)];
      }
    }
    assert units[..|units|] == units;
    return Done(subregisters);
  }
}
