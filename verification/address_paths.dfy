/** When the way through sub-registers succeeds, and the agreement of the two ways on a single address. */
module AddressPaths {
  import opened Bits
  import opened I2cMaster
  import opened Translation
  import opened ConverterLaws
  import opened TranslationPaths

  /** Visits of units that agree with the layout, none twice. */
  ghost predicate Agreeing(layout: AddressRegisterMap, visits: seq<Visit>) {
    && LayoutOk(layout) && DistinctNames(visits)
    && (forall j | 0 <= j < |visits| :: AgreesAt(layout, visits[j]))
  }

  ghost predicate AgreesAt(layout: AddressRegisterMap, v: Visit) {
    UnitAgrees(layout, v.unit) && 0 < v.unit.maskValue && 0 < v.unit.maskRegister < Pow2(32)
  }

  /** Visit `j` carries field `m` of the address, and its part fits there. */
  predicate CarriesFitting(visits: seq<Visit>, j: int, a: string, fields: seq<Field>, m: nat)
    requires m < |fields|
  {
    && 0 <= j < |visits| && visits[j].unit.registerName == Path(a, fields[m].name)
    && visits[j].unit.maskValue > 0 && SubValue(visits[j]) < Pow2(fields[m].size)
  }

  /** The address is visited, and every named field of it by a part that fits. */
  ghost predicate CoveredAddress(visits: seq<Visit>, a: string, fields: seq<Field>) {
    && (exists j :: 0 <= j < |visits| && RegisterOf(visits[j].unit.registerName) == a)
    && (forall m | Named(fields, m) :: exists j :: CarriesFitting(visits, j, a, fields, m))
  }

  // ----- The way through sub-registers -----

  lemma {:induction false} AgreeingMasks(layout: AddressRegisterMap, visits: seq<Visit>)
    requires Agreeing(layout, visits)
    ensures MasksNonZero(visits)
  {
    forall j | 0 <= j < |visits| ensures visits[j].unit.maskValue > 0 && visits[j].unit.maskRegister > 0 {
      assert AgreesAt(layout, visits[j]);
    }
  }

  lemma {:induction false} HasAddressIff(layout: AddressRegisterMap, visits: seq<Visit>, a: string)
    requires Agreeing(layout, visits) && MasksNonZero(visits) && '.' !in a
    ensures HasAddress(SubTree(visits), a)
      <==> exists j :: 0 <= j < |visits| && RegisterOf(visits[j].unit.registerName) == a
  {
    if HasAddress(SubTree(visits), a) {
      var p :| p in SubTree(visits) && (p == a || a + "." <= p);
      SubTreeAt(visits, p);
      var j :| 0 <= j < |visits| && visits[j].unit.registerName == p;
      assert AgreesAt(layout, visits[j]);
      RegisterOfPath(p, a);
    }
    if j :| 0 <= j < |visits| && RegisterOf(visits[j].unit.registerName) == a {
      var name := visits[j].unit.registerName;
      assert AgreesAt(layout, visits[j]);
      SplitName(name);
      SubTreeAt(visits, name);
      assert a + "." <= name;
    }
  }

  lemma {:induction false} FieldBuildsIff(
    layout: AddressRegisterMap, visits: seq<Visit>, a: string, fields: seq<Field>, m: nat)
    requires Agreeing(layout, visits) && MasksNonZero(visits) && m < |fields|
      && 1 <= fields[m].size <= MAX_REGISTER_SIZE
    ensures
      FieldBits(SubTree(visits), a, fields[m]).Ok?
      <==> (Named(fields, m) ==> exists j :: CarriesFitting(visits, j, a, fields, m))
  {
    hide FieldBits, SubTree, SubValue, RegisterOf, Pow2;
    FieldInRange(SubTree(visits), a, fields[m]);
    if Named(fields, m) {
      var name := Path(a, fields[m].name);
      assert name == a + "." + fields[m].name;
      SubTreeAt(visits, name);
      if j :| 0 <= j < |visits| && visits[j].unit.registerName == name {
        assert CarriesFitting(visits, j, a, fields, m) <==> SubValue(visits[j]) < Pow2(fields[m].size);
        forall i | CarriesFitting(visits, i, a, fields, m) ensures i == j {}
      }
    }
  }

  /** The way through sub-registers builds an address exactly when the values cover it and fit. */
  lemma {:induction false} AddressBuildsIff(layout: AddressRegisterMap, visits: seq<Visit>, a: string)
    requires Agreeing(layout, visits) && MasksNonZero(visits) && a in layout
    ensures BuildAddress(SubTree(visits), a, layout[a]).Ok? <==> CoveredAddress(visits, a, layout[a])
  {
    hide Agreeing, CarriesFitting, FieldBits, HasAddress, SubTree;
    var fields := layout[a];
    FieldSizes(layout, visits, a);
    HasAddressIff(layout, visits, a);
    BuiltIffFieldsOk(SubTree(visits), a, fields, |fields|);
    forall m: nat | m < |fields|
      ensures FieldBits(SubTree(visits), a, fields[m]).Ok?
        <==> (Named(fields, m) ==> exists j :: CarriesFitting(visits, j, a, fields, m))
    {
      FieldBuildsIff(layout, visits, a, fields, m);
    }
  }

  lemma {:induction false} FieldSizes(layout: AddressRegisterMap, visits: seq<Visit>, a: string)
    requires Agreeing(layout, visits) && a in layout
    ensures '.' !in a && WellFormed(layout[a]) && TotalSize(layout[a]) <= 32
  {
  }

  /** It builds the whole layout exactly when that holds of every writable address. */
  lemma {:induction false} FullConfigIff(layout: AddressRegisterMap, visits: seq<Visit>)
    requires Agreeing(layout, visits) && MasksNonZero(visits)
    ensures
      (exists full :: IsFullConfig(layout, SubTree(visits), Ok(full)))
      <==> forall a | a in layout && Writable(a) :: CoveredAddress(visits, a, layout[a])
  {
    hide Agreeing, CoveredAddress, BuildAddress, SubTree, Writable;
    var sub := SubTree(visits);
    forall a | a in layout ensures BuildAddress(sub, a, layout[a]).Ok? <==> CoveredAddress(visits, a, layout[a]) {
      AddressBuildsIff(layout, visits, a);
    }
    if forall a | a in layout && Writable(a) :: CoveredAddress(visits, a, layout[a]) {
      var full := map a | a in layout && Writable(a) :: BuildAddress(sub, a, layout[a]).value;
      assert IsFullConfig(layout, sub, Ok(full));
    }
  }

  // ----- One address -----

  /** The visits of one register. */
  function OnRegister(visits: seq<Visit>, a: string): seq<Visit> {
    if visits == [] then []
    else
      var init, v := OnRegister(visits[..|visits| - 1], a), visits[|visits| - 1];
      if RegisterOf(v.unit.registerName) == a then init + [v] else init
  }

  lemma {:induction false} OnRegisterFrom(visits: seq<Visit>, a: string, v: Visit)
    ensures v in OnRegister(visits, a) <==> v in visits && RegisterOf(v.unit.registerName) == a
  {
    if visits != [] {
      var init, last := visits[..|visits| - 1], visits[|visits| - 1];
      OnRegisterFrom(init, a, v);
      assert visits == init + [last];
    }
  }

  lemma {:induction false} OnRegisterDistinct(visits: seq<Visit>, a: string)
    requires DistinctNames(visits)
    ensures DistinctNames(OnRegister(visits, a))
  {
    if visits != [] {
      var init, v := visits[..|visits| - 1], visits[|visits| - 1];
      OnRegisterDistinct(init, a);
      var on := OnRegister(init, a);
      forall i | 0 <= i < |on| ensures on[i].unit.registerName != v.unit.registerName {
        OnRegisterFrom(init, a, on[i]);
        var j :| 0 <= j < |init| && init[j] == on[i];
      }
    }
  }

  /** The flat register is that of its own visits. */
  lemma {:induction false} OwnAddends(visits: seq<Visit>, a: string)
    requires MasksNonZero(visits)
    ensures MasksNonZero(OnRegister(visits, a))
    ensures Addends(FlatEntries(32, visits), a) == Addends(FlatEntries(32, OnRegister(visits, a)), a)
  {
    forall i | 0 <= i < |OnRegister(visits, a)|
      ensures OnRegister(visits, a)[i].unit.maskValue > 0 && OnRegister(visits, a)[i].unit.maskRegister > 0
    {
      OnRegisterFrom(visits, a, OnRegister(visits, a)[i]);
    }
    if visits != [] {
      hide FlatValue;
      var init, v := visits[..|visits| - 1], visits[|visits| - 1];
      OwnAddends(init, a);
      var es, on := FlatEntries(32, visits), OnRegister(init, a);
      assert es[..|es| - 1] == FlatEntries(32, init);
      if RegisterOf(v.unit.registerName) == a {
        assert (on + [v])[|on|] == v;
        var fs := FlatEntries(32, on + [v]);
        assert fs[..|fs| - 1] == FlatEntries(32, on);
      }
    }
  }

  lemma {:induction false} OwnWord(visits: seq<Visit>, a: string)
    requires MasksNonZero(visits)
    ensures MasksNonZero(OnRegister(visits, a))
    ensures a in FlatTree(32, visits) <==> a in FlatTree(32, OnRegister(visits, a))
    ensures a in FlatTree(32, visits) ==> FlatTree(32, visits)[a] == FlatTree(32, OnRegister(visits, a))[a]
  {
    OwnAddends(visits, a);
    AccTreeAt(32, FlatEntries(32, visits), a);
    AccTreeAt(32, FlatEntries(32, OnRegister(visits, a)), a);
  }

  /** So is what is built from the sub-registers. */
  lemma {:induction false} OwnAgreeing(layout: AddressRegisterMap, visits: seq<Visit>, a: string)
    requires Agreeing(layout, visits)
    ensures Agreeing(layout, OnRegister(visits, a))
  {
    hide AgreesAt;
    var on := OnRegister(visits, a);
    OnRegisterDistinct(visits, a);
    forall i | 0 <= i < |on| ensures AgreesAt(layout, on[i]) {
      OnRegisterFrom(visits, a, on[i]);
      var j :| 0 <= j < |visits| && visits[j] == on[i];
    }
  }

  lemma {:induction false} OwnSubTree(visits: seq<Visit>, a: string, name: string)
    requires DistinctNames(visits) && MasksNonZero(visits) && MasksNonZero(OnRegister(visits, a))
      && RegisterOf(name) == a
    ensures name in SubTree(visits) <==> name in SubTree(OnRegister(visits, a))
    ensures name in SubTree(visits) ==> SubTree(visits)[name] == SubTree(OnRegister(visits, a))[name]
  {
    hide OnRegister, SubValue, RegisterOf;
    var on := OnRegister(visits, a);
    OnRegisterDistinct(visits, a);
    SubTreeAt(visits, name);
    SubTreeAt(on, name);
    hide SubTree;
    if j :| 0 <= j < |visits| && visits[j].unit.registerName == name {
      OnRegisterFrom(visits, a, visits[j]);
      var i :| 0 <= i < |on| && on[i] == visits[j];
    }
    if i :| 0 <= i < |on| && on[i].unit.registerName == name {
      OnRegisterFrom(visits, a, on[i]);
      var j :| 0 <= j < |visits| && visits[j] == on[i];
    }
  }

  lemma {:induction false} OwnFieldBits(
    layout: AddressRegisterMap, visits: seq<Visit>, a: string, f: Field)
    requires Agreeing(layout, visits) && MasksNonZero(visits) && MasksNonZero(OnRegister(visits, a)) && '.' !in a
    ensures FieldBits(SubTree(visits), a, f) == FieldBits(SubTree(OnRegister(visits, a)), a, f)
  {
    hide OnRegister, SubTree;
    JoinName(a, f.name);
    assert Path(a, f.name) == a + "." + f.name;
    OwnSubTree(visits, a, Path(a, f.name));
  }

  lemma {:induction false} SameFieldsSameAddress(s: Tree, t: Tree, a: string, fields: seq<Field>, n: nat)
    requires n <= |fields| && forall k | 0 <= k < n :: FieldBits(s, a, fields[k]) == FieldBits(t, a, fields[k])
    ensures AddressBits(s, a, fields, n) == AddressBits(t, a, fields, n)
  {
    if n > 0 { SameFieldsSameAddress(s, t, a, fields, n - 1); }
  }

  lemma {:induction false} OwnAddress(layout: AddressRegisterMap, visits: seq<Visit>, a: string)
    requires Agreeing(layout, visits) && MasksNonZero(visits) && MasksNonZero(OnRegister(visits, a)) && a in layout
    ensures BuildAddress(SubTree(visits), a, layout[a]) == BuildAddress(SubTree(OnRegister(visits, a)), a, layout[a])
  {
    hide Agreeing, FieldBits, SubTree, HasAddress;
    var on, fields := OnRegister(visits, a), layout[a];
    FieldSizes(layout, visits, a);
    OwnAgreeing(layout, visits, a);
    forall k | 0 <= k < |fields|
      ensures FieldBits(SubTree(visits), a, fields[k]) == FieldBits(SubTree(on), a, fields[k])
    {
      OwnFieldBits(layout, visits, a, fields[k]);
    }
    SameFieldsSameAddress(SubTree(visits), SubTree(on), a, fields, |fields|);
    HasAddressIff(layout, visits, a);
    HasAddressIff(layout, on, a);
    SameVisited(visits, a);
  }

  lemma {:induction false} SameVisited(visits: seq<Visit>, a: string)
    ensures
      (exists j :: 0 <= j < |visits| && RegisterOf(visits[j].unit.registerName) == a)
      <==> exists i :: 0 <= i < |OnRegister(visits, a)| && RegisterOf(OnRegister(visits, a)[i].unit.registerName) == a
  {
    var on := OnRegister(visits, a);
    if j :| 0 <= j < |visits| && RegisterOf(visits[j].unit.registerName) == a {
      OnRegisterFrom(visits, a, visits[j]);
      var i :| 0 <= i < |on| && on[i] == visits[j];
    }
    if i :| 0 <= i < |on| && RegisterOf(on[i].unit.registerName) == a {
      OnRegisterFrom(visits, a, on[i]);
      var j :| 0 <= j < |visits| && visits[j] == on[i];
    }
  }

  /** All visits of a built address are placed in its fields. */
  lemma {:induction false} OwnPlaced(layout: AddressRegisterMap, visits: seq<Visit>, a: string)
    requires Agreeing(layout, visits) && MasksNonZero(visits) && a in layout
    requires forall i | 0 <= i < |visits| :: RegisterOf(visits[i].unit.registerName) == a
    requires BuildAddress(SubTree(visits), a, layout[a]).Ok?
    ensures AllPlaced(layout, visits)
  {
    hide SubTree, BuildAddress, UnitAgrees;
    forall i | 0 <= i < |visits| ensures Placed(layout, visits[i]) {
      assert AgreesAt(layout, visits[i]);
      SubTreeAt(visits, visits[i].unit.registerName);
      VisitFitsField(layout, visits[i], SubTree(visits));
    }
    EachPlaced(layout, visits);
  }

  /** Both ways agree on every address that the values cover, whatever the other registers hold. */
  lemma {:induction false} CoveredAddressCommutes(layout: AddressRegisterMap, visits: seq<Visit>, a: string)
    requires Agreeing(layout, visits) && MasksNonZero(visits) && a in layout && Writable(a)
    requires CoveredAddress(visits, a, layout[a])
    ensures a in FlatTree(32, visits)
    ensures BuildAddress(SubTree(visits), a, layout[a]).Ok?
    ensures PartialBits(layout, a, FlatTree(32, visits)[a]) == BuildAddress(SubTree(visits), a, layout[a])
  {
    var on := OnRegister(visits, a);
    AddressBuildsIff(layout, visits, a);
    OwnWord(visits, a);
    OwnAddress(layout, visits, a);
    OwnAgreeing(layout, visits, a);
    SameVisited(visits, a);
    OwnVisits(visits, a);
    hide CoveredAddress, OnRegister, BuildAddress, SubTree, FlatTree, Writable, RegisterOf;
    OwnCommutes(layout, on, a);
  }

  lemma {:induction false} OwnVisits(visits: seq<Visit>, a: string)
    ensures forall i | 0 <= i < |OnRegister(visits, a)| :: RegisterOf(OnRegister(visits, a)[i].unit.registerName) == a
  {
    var on := OnRegister(visits, a);
    forall i | 0 <= i < |on| ensures RegisterOf(on[i].unit.registerName) == a { OnRegisterFrom(visits, a, on[i]); }
  }

  lemma {:induction false} OwnCommutes(layout: AddressRegisterMap, on: seq<Visit>, a: string)
    requires Agreeing(layout, on) && MasksNonZero(on) && a in layout && Writable(a)
    requires forall i | 0 <= i < |on| :: RegisterOf(on[i].unit.registerName) == a
    requires exists i :: 0 <= i < |on| && RegisterOf(on[i].unit.registerName) == a
    requires BuildAddress(SubTree(on), a, layout[a]).Ok?
    ensures a in FlatTree(32, on)
    ensures PartialBits(layout, a, FlatTree(32, on)[a]) == BuildAddress(SubTree(on), a, layout[a])
  {
    OwnPlaced(layout, on, a);
    SubTreeMatches(on);
    hide AllPlaced, Matches, BuildAddress, SubTree, AgreesAt, Writable;
    PlacedFlatOk(layout, on);
    hide FlatOk, FlatReadsBack, LayoutOk, FlatTree, DistinctNames;
    Word32ReadsBack(on);
    FlatRegistersFit(32, on);
    FlatRegisterBits(32, on, a, 0);
    Pow2Of32();
    var word := FlatTree(32, on)[a];
    forall b: nat ensures FlatWordBit(on, a, word, b) { FlatRegisterBits(32, on, a, b); }
    SameBitsAsWord(layout, on, SubTree(on), word, a);
    PartialOfWord(layout, a, word);
  }

  // ----- The same on the value tree -----

  lemma {:induction false} MapVisitsAgree(
    tmap: TranslationMap, layout: AddressRegisterMap, tree: Tree, paths: seq<string>)
    requires LayoutOk(layout) && MapAgrees(layout, tmap) && MasksOk(tmap, 32) && UniqueNames(tmap)
    requires Walkable(tmap, tree, paths)
    ensures Agreeing(layout, Visits(tmap, tree, paths))
  {
    hide UnitAgrees, LayoutOk;
    var visits := Visits(tmap, tree, paths);
    VisitsDistinct(tmap, tree, paths);
    forall j | 0 <= j < |visits| ensures AgreesAt(layout, visits[j]) {
      VisitFrom(tmap, tree, paths, j);
    }
  }

  /** For every value tree and every writable address: the way through sub-registers builds the address exactly when the
      values cover it and fit, and then the way through flat registers gives the same bits. */
  lemma {:induction false} AddressCommutes(
    tmap: TranslationMap, layout: AddressRegisterMap, tree: Tree, paths: seq<string>, a: string)
    requires LayoutOk(layout) && MapAgrees(layout, tmap) && MasksOk(tmap, 32) && UniqueNames(tmap)
    requires Walkable(tmap, tree, paths) && a in layout && Writable(a)
    ensures MasksNonZero(Visits(tmap, tree, paths))
    ensures
      var visits := Visits(tmap, tree, paths);
      && (BuildAddress(SubTree(visits), a, layout[a]).Ok? <==> CoveredAddress(visits, a, layout[a]))
      && (CoveredAddress(visits, a, layout[a]) ==>
        a in FlatTree(32, visits)
        && PartialBits(layout, a, FlatTree(32, visits)[a]) == BuildAddress(SubTree(visits), a, layout[a]))
  {
    hide LayoutOk, MapAgrees, MasksOk, UniqueNames, Agreeing, CoveredAddress, BuildAddress, SubTree, FlatTree, Writable;
    var visits := Visits(tmap, tree, paths);
    MapVisitsAgree(tmap, layout, tree, paths);
    AgreeingMasks(layout, visits);
    AddressBuildsIff(layout, visits, a);
    if CoveredAddress(visits, a, layout[a]) { CoveredAddressCommutes(layout, visits, a); }
  }

  /** The hypothesis under which the two ways commute on the whole layout, in terms of the values. */
  lemma {:induction false} SubRegistersBuildIff(
    tmap: TranslationMap, layout: AddressRegisterMap, tree: Tree, paths: seq<string>)
    requires LayoutOk(layout) && MapAgrees(layout, tmap) && MasksOk(tmap, 32) && UniqueNames(tmap)
    requires Walkable(tmap, tree, paths)
    ensures MasksNonZero(Visits(tmap, tree, paths))
    ensures
      (exists full :: IsFullConfig(layout, SubTree(Visits(tmap, tree, paths)), Ok(full)))
      <==> forall a | a in layout && Writable(a) :: CoveredAddress(Visits(tmap, tree, paths), a, layout[a])
  {
    hide LayoutOk, MapAgrees, MasksOk, UniqueNames, Agreeing, CoveredAddress, SubTree, Writable, IsFullConfig;
    MapVisitsAgree(tmap, layout, tree, paths);
    AgreeingMasks(layout, Visits(tmap, tree, paths));
    FullConfigIff(layout, Visits(tmap, tree, paths));
  }
}
