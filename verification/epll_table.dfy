/** The phases of the first ePLL of the ROC (NSWConfiguration/I2cRegisterMappings.h,
    NSWConfiguration/ConfigTranslationMap.h):
    the 160 MHz phases have their highest bit in one register and the other four in another. They pass the check of
    shipped tables. */
module EpllTable {
  import opened Bits
  import opened Utility
  import opened I2cMaster
  import opened Translation
  import opened ConfigConverter
  import opened ConverterLaws
  import opened ShippedTables

  function Address(n: nat): string {
    "reg0" + (match n
              case 0 => "64" case 1 => "65" case 2 => "66" case 3 => "67" case 4 => "68" case _ => "69") + "ePllVmm0"
  }

  /** The fields of a register, most significant first. */
  function Fields(n: nat): seq<Field> {
    match n
    case 0 => [Field("ePllPhase160MHz_0[4]", 1), Field("ePllPhase40MHz_0", 7)]
    case 1 => [Field("ePllPhase160MHz_1[4]", 1), Field("ePllPhase40MHz_1", 7)]
    case 2 => [Field("ePllPhase160MHz_2[4]", 1), Field("ePllPhase40MHz_2", 7)]
    case 3 => [Field("ePllPhase160MHz_3[4]", 1), Field("ePllPhase40MHz_3", 7)]
    case 4 => [Field("ePllPhase160MHz_1[3:0]", 4), Field("ePllPhase160MHz_0[3:0]", 4)]
    case _ => [Field("ePllPhase160MHz_3[3:0]", 4), Field("ePllPhase160MHz_2[3:0]", 4)]
  }

  function Values(i: nat): Value {
    match i
    case 0 => Value("ePllVmm0.ePllPhase40MHz_0", [Cell(0, 1, "ePllPhase40MHz_0", 0x7F, DEFAULT_MASK, 0, 32)])
    case 1 => Value("ePllVmm0.ePllPhase40MHz_1", [Cell(1, 1, "ePllPhase40MHz_1", 0x7F, DEFAULT_MASK, 0, 32)])
    case 2 => Value("ePllVmm0.ePllPhase40MHz_2", [Cell(2, 1, "ePllPhase40MHz_2", 0x7F, DEFAULT_MASK, 0, 32)])
    case 3 => Value("ePllVmm0.ePllPhase40MHz_3", [Cell(3, 1, "ePllPhase40MHz_3", 0x7F, DEFAULT_MASK, 0, 32)])
    case 4 => Value("ePllVmm0.ePllPhase160MHz_0", [
      Cell(0, 0, "ePllPhase160MHz_0[4]", 0x80, 0x10, 4, 5),
      Cell(4, 1, "ePllPhase160MHz_0[3:0]", 0x0F, 0x0F, 0, 4)])
    case 5 => Value("ePllVmm0.ePllPhase160MHz_1", [
      Cell(1, 0, "ePllPhase160MHz_1[4]", 0x80, 0x10, 4, 5),
      Cell(4, 0, "ePllPhase160MHz_1[3:0]", 0xF0, 0x0F, 0, 4)])
    case 6 => Value("ePllVmm0.ePllPhase160MHz_2", [
      Cell(2, 0, "ePllPhase160MHz_2[4]", 0x80, 0x10, 4, 5),
      Cell(5, 1, "ePllPhase160MHz_2[3:0]", 0x0F, 0x0F, 0, 4)])
    case _ => Value("ePllVmm0.ePllPhase160MHz_3", [
      Cell(3, 0, "ePllPhase160MHz_3[4]", 0x80, 0x10, 4, 5),
      Cell(5, 0, "ePllPhase160MHz_3[3:0]", 0xF0, 0x0F, 0, 4)])
  }

  /** Which unit of which value a field belongs to. */
  function Owner(n: nat, m: nat): (nat, nat) {
    match n
    case 4 => if m == 0 then (5, 1) else (4, 1)
    case 5 => if m == 0 then (7, 1) else (6, 1)
    case _ => if m == 0 then (n + 4, 0) else (n, 0)
  }

  const EPLL: Table :=
    Table(6, (n: nat) => Address(n), (n: nat) => Fields(n), 8, (i: nat) => Values(i), (n: nat, m: nat) => Owner(n, m))

  // ----- The check -----

  lemma {:induction false} AddressOk(n: nat)
    requires n < 6
    ensures '.' !in Address(n) && Writable(Address(n))
  {
    var a := Address(n);
    forall i | 0 <= i <= |a| ensures !OccursAt(a, READONLY, i) {
      if i + 8 <= |a| { assert a[i..i + 8][0] == a[i]; }
      assert READONLY[0] == 'R';
    }
  }

  lemma {:induction false} AddressesApart(m: nat, n: nat)
    requires m < 6 && n < 6 && Address(m) == Address(n)
    ensures m == n
  {
    assert Address(m)[4..6] == Address(n)[4..6];
    assert Address(m)[4] == Address(n)[4] && Address(m)[5] == Address(n)[5];
  }

  lemma {:induction false} FieldsChecked(n: nat)
    requires n < 6
    ensures FieldsOk(Fields(n))
  {
    var f := Fields(n);
    assert Offset(f, 1) == f[0].size && Offset(f, 2) == Offset(f, 1) + f[1].size;
  }

  lemma {:induction false} WholeValues(i: nat, k: nat)
    requires i < 4 && k < |Values(i).cells|
    ensures CellOk(EPLL, i, k) && Tiled(Values(i).cells)
  {
    hide Pow2, Offset;
    Powers();
    Offsets(Fields(Values(i).cells[k].register));
  }

  lemma {:induction false} SplitValues(i: nat, k: nat)
    requires 4 <= i < 8 && k < |Values(i).cells|
    ensures CellOk(EPLL, i, k) && Tiled(Values(i).cells)
  {
    hide Pow2, Offset;
    Powers();
    Offsets(Fields(Values(i).cells[k].register));
  }

  lemma {:induction false} ValueChecked(i: nat, k: nat)
    requires i < 8 && k < |Values(i).cells|
    ensures CellOk(EPLL, i, k) && Tiled(Values(i).cells)
  {
    hide CellOk, Tiled;
    if i < 4 { WholeValues(i, k); } else { SplitValues(i, k); }
  }

  /** The shipped ePLL tables pass the check. */
  lemma {:induction false} EpllTableOk()
    ensures TableOk(EPLL)
  {
    hide Address, Fields, Owner, FieldsOk, CellOk, Tiled, Writable;
    forall n: nat | n < 6 ensures RegisterOk(Address(n), Fields(n)) {
      AddressOk(n);
      FieldsChecked(n);
    }
    forall m: nat, n: nat | m < 6 && n < 6 && Address(m) == Address(n) ensures m == n { AddressesApart(m, n); }
    forall i: nat | i < 8 ensures Tiled(Values(i).cells) { ValueChecked(i, 0); }
    hide Values;
    forall i: nat, k: nat | i < 8 && k < |Values(i).cells| ensures CellOk(EPLL, i, k) { ValueChecked(i, k); }
  }

  /** Both ways of building the ePLL bit strings give the same bits, and phases in range survive the way to
      sub-registers and back. */
  lemma {:induction false} EpllLaws(
    layout: AddressRegisterMap, tmap: TranslationMap, tree: Tree, paths: seq<string>, order: seq<string>,
    subPaths: seq<string>, full: AddressBitstreamMap)
    requires IsLayout(EPLL, layout) && IsMap(EPLL, tmap) && Walkable(tmap, tree, paths) && InRange(EPLL, tmap, tree)
    requires Enumerates(order, tmap.Keys) && MasksNonZero(Visits(tmap, tree, paths))
    requires Enumerates(subPaths, SubTree(Visits(tmap, tree, paths)).Keys)
    ensures MasksOk(tmap, 32)
    ensures NodesFound(tmap, order, 32, SubTree(Visits(tmap, tree, paths)), subPaths, |subPaths|)
    ensures AccTree(32, ValueEntries(tmap, order, 32, SubTree(Visits(tmap, tree, paths)), subPaths)) == tree
    ensures IsFullConfig(layout, SubTree(Visits(tmap, tree, paths)), Ok(full)) ==>
      forall r :: IsPartialConfig(layout, FlatTree(32, Visits(tmap, tree, paths)), r) <==> r == Ok(full)
  {
    hide NodesFound, ValueEntries, AccTree, SubTree, Visits, TableOk, IsLayout, IsMap, InRange, MasksOk;
    hide IsFullConfig, IsPartialConfig, FlatTree;
    EpllTableOk();
    TableRoundTrip(EPLL, layout, tmap, tree, paths, order, subPaths);
    if IsFullConfig(layout, SubTree(Visits(tmap, tree, paths)), Ok(full)) {
      TablePathsCommute(EPLL, layout, tmap, tree, paths, full);
    }
  }
}
