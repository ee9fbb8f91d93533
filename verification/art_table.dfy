/** The shipped tables of the ART core: its register layout (NSWConfiguration/I2cRegisterMappings.h) and its
    translation map (NSWConfiguration/ConfigTranslationMap.h). They pass the check of shipped tables. */
module ArtTable {
  import opened Bits
  import opened I2cMaster
  import opened Translation
  import opened ConfigConverter
  import opened ConverterLaws
  import opened ShippedTables
  import opened TranslationPaths

  const NUM_REGISTERS: nat := 35
  const NUM_VALUES: nat := 37

  /** Two decimal digits. */
  function Num(n: nat): string {
    [('0' as int + n / 10 % 10) as char, ('0' as int + n % 10) as char]
  }

  /** The fields of a register, most significant first. */
  function Fields(n: nat): seq<Field> {
    if n < 12 then FieldsA(n) else if n < 24 then FieldsB(n) else FieldsC(n)
  }

  function FieldsA(n: nat): seq<Field> {
    match n
    case 0 => [Field("c_disable_arthist", 1), Field("c_bypass_pa", 1), Field("rxterm", 2), Field("txcset", 4)]
    case 1 => [
      Field("cfg_dout_time2", 1), Field("cfg_bcr_sel", 1), Field("cfg_bcrout_sel", 1),
      Field("cfg_art_revall", 1), Field("cfg_art_revbank", 4)]
    case 2 => [
      Field("cfg_dout_pattern", 1), Field("cfg_dout_artbypass", 1), Field("cfg_dout_hitlist", 1),
      Field("cfg_dout_artflags", 1), Field("cfg_dout_time", 1), Field("cfg_artmask", 3)]
    case 3 => [Field("cfg_deser_flagmask", 8)]
    case 4 => [Field("cfg_deser_flagpatt", 8)]
    case 5 => [Field("cfg_din_invert[7:0]", 8)]
    case 6 => [Field("cfg_din_invert[15:8]", 8)]
    case 7 => [Field("cfg_din_invert[23:16]", 8)]
    case 8 => [Field("cfg_din_invert[31:24]", 8)]
    case 9 => [Field("cfg_din_mask[7:0]", 8)]
    case 10 => [Field("cfg_din_mask[15:8]", 8)]
    case _ => [Field("cfg_din_mask[23:16]", 8)]
  }

  function FieldsB(n: nat): seq<Field> {
    match n
    case 12 => [Field("cfg_din_mask[31:24]", 8)]
    case 13 => [Field("cfg_bcid0[7:0]", 8)]
    case 14 => [Field("cfg_bcid1[3:0]", 4), Field("cfg_bcid0[11:8]", 4)]
    case 15 => [Field("cfg_bcid1[11:4]", 8)]
    case 16 => [Field("cfg_artbypass_sel_ch1[2:0]", 3), Field("cfg_artbypass_sel_ch0[4:0]", 5)]
    case 17 => [
      Field("cfg_artbypass_sel_ch3[0]", 1), Field("cfg_artbypass_sel_ch2[4:0]", 5),
      Field("cfg_artbypass_sel_ch1[4:3]", 2)]
    case 18 => [Field("cfg_artbypass_sel_ch4[3:0]", 4), Field("cfg_artbypass_sel_ch3[4:1]", 4)]
    case 19 => [
      Field("cfg_artbypass_sel_ch6[1:0]", 2), Field("cfg_artbypass_sel_ch5[4:0]", 5),
      Field("cfg_artbypass_sel_ch4[4]", 1)]
    case 20 => [Field("cfg_artbypass_sel_ch7[4:0]", 5), Field("cfg_artbypass_sel_ch6[4:2]", 3)]
    case 21 => [Field("cfg_pattern_data_phi0[7:0]", 8)]
    case 22 => [Field("cfg_pattern_data_phi1[1:0]", 2), Field("cfg_pattern_data_phi0[13:8]", 6)]
    case _ => [Field("cfg_pattern_data_phi1[9:2]", 8)]
  }

  function FieldsC(n: nat): seq<Field> {
    match n
    case 24 => [Field("cfg_pattern_data_phi2[3:0]", 4), Field("cfg_pattern_data_phi1[13:10]", 4)]
    case 25 => [Field("cfg_pattern_data_phi2[11:4]", 8)]
    case 26 => [Field("cfg_pattern_data_phi3[5:0]", 6), Field("cfg_pattern_data_phi2[13:12]", 2)]
    case 27 => [Field("cfg_pattern_data_phi3[13:6]", 8)]
    case 28 => [Field("cfg_pattern_data_phi4[7:0]", 8)]
    case 29 => [Field("cfg_pattern_data_phi5[1:0]", 2), Field("cfg_pattern_data_phi4[13:8]", 6)]
    case 30 => [Field("cfg_pattern_data_phi5[9:2]", 8)]
    case 31 => [Field("cfg_pattern_data_phi6[3:0]", 4), Field("cfg_pattern_data_phi5[13:10]", 4)]
    case 32 => [Field("cfg_pattern_data_phi6[11:4]", 8)]
    case 33 => [Field("cfg_pattern_data_phi7[5:0]", 6), Field("cfg_pattern_data_phi6[13:12]", 2)]
    case _ => [Field("cfg_pattern_data_phi7[13:6]", 8)]
  }

  function Values(i: nat): Value {
    if i < 8 then ValuesA(i) else if i < 16 then ValuesB(i) else if i < 24 then ValuesC(i)
    else if i < 32 then ValuesD(i) else ValuesE(i)
  }

  function ValuesA(i: nat): Value {
    match i
    case 0 => Value("c_disable_arthist", [Cell(0, 0, "c_disable_arthist", 0x80, DEFAULT_MASK, 0, 32)])
    case 1 => Value("c_bypass_pa", [Cell(0, 1, "c_bypass_pa", 0x40, DEFAULT_MASK, 0, 32)])
    case 2 => Value("rxterm", [Cell(0, 2, "rxterm", 0x30, DEFAULT_MASK, 0, 32)])
    case 3 => Value("txcset", [Cell(0, 3, "txcset", 0xF, DEFAULT_MASK, 0, 32)])
    case 4 => Value("cfg_dout_time2", [Cell(1, 0, "cfg_dout_time2", 0x80, DEFAULT_MASK, 0, 32)])
    case 5 => Value("cfg_bcr_sel", [Cell(1, 1, "cfg_bcr_sel", 0x40, DEFAULT_MASK, 0, 32)])
    case 6 => Value("cfg_bcrout_sel", [Cell(1, 2, "cfg_bcrout_sel", 0x20, DEFAULT_MASK, 0, 32)])
    case _ => Value("cfg_art_revall", [Cell(1, 3, "cfg_art_revall", 0x10, DEFAULT_MASK, 0, 32)])
  }

  function ValuesB(i: nat): Value {
    match i
    case 8 => Value("cfg_art_revbank", [Cell(1, 4, "cfg_art_revbank", 0xF, DEFAULT_MASK, 0, 32)])
    case 9 => Value("cfg_dout_pattern", [Cell(2, 0, "cfg_dout_pattern", 0x80, DEFAULT_MASK, 0, 32)])
    case 10 => Value("cfg_dout_artbypass", [Cell(2, 1, "cfg_dout_artbypass", 0x40, DEFAULT_MASK, 0, 32)])
    case 11 => Value("cfg_dout_hitlist", [Cell(2, 2, "cfg_dout_hitlist", 0x20, DEFAULT_MASK, 0, 32)])
    case 12 => Value("cfg_dout_artflags", [Cell(2, 3, "cfg_dout_artflags", 0x10, DEFAULT_MASK, 0, 32)])
    case 13 => Value("cfg_dout_time", [Cell(2, 4, "cfg_dout_time", 0x8, DEFAULT_MASK, 0, 32)])
    case 14 => Value("cfg_artmask", [Cell(2, 5, "cfg_artmask", 0x7, DEFAULT_MASK, 0, 32)])
    case _ => Value("cfg_deser_flagmask", [Cell(3, 0, "cfg_deser_flagmask", DEFAULT_MASK, DEFAULT_MASK, 0, 32)])
  }

  function ValuesC(i: nat): Value {
    match i
    case 16 => Value("cfg_deser_flagpatt", [Cell(4, 0, "cfg_deser_flagpatt", DEFAULT_MASK, DEFAULT_MASK, 0, 32)])
    case 17 => Value("cfg_din_invert", [
      Cell(5, 0, "cfg_din_invert[7:0]", 0xFF, 0xFF, 0, 8),
      Cell(6, 0, "cfg_din_invert[15:8]", 0xFF, 0xFF00, 8, 16),
      Cell(7, 0, "cfg_din_invert[23:16]", 0xFF, 0xFF0000, 16, 24),
      Cell(8, 0, "cfg_din_invert[31:24]", 0xFF, 0xFF000000, 24, 32)])
    case 18 => Value("cfg_din_mask", [
      Cell(9, 0, "cfg_din_mask[7:0]", 0xFF, 0xFF, 0, 8),
      Cell(10, 0, "cfg_din_mask[15:8]", 0xFF, 0xFF00, 8, 16),
      Cell(11, 0, "cfg_din_mask[23:16]", 0xFF, 0xFF0000, 16, 24),
      Cell(12, 0, "cfg_din_mask[31:24]", 0xFF, 0xFF000000, 24, 32)])
    case 19 => Value("cfg_bcid0", [
      Cell(13, 0, "cfg_bcid0[7:0]", 0xFF, 0xFF, 0, 8),
      Cell(14, 1, "cfg_bcid0[11:8]", 0xF, 0xF00, 8, 12)])
    case 20 => Value("cfg_bcid1", [
      Cell(14, 0, "cfg_bcid1[3:0]", 0xF0, 0xF, 0, 4),
      Cell(15, 0, "cfg_bcid1[11:4]", 0xFF, 0xFF0, 4, 12)])
    case 21 => Value("cfg_artbypass_sel_ch0", [Cell(16, 1, "cfg_artbypass_sel_ch0[4:0]", 0x1F, DEFAULT_MASK, 0, 32)])
    case 22 => Value("cfg_artbypass_sel_ch1", [
      Cell(16, 0, "cfg_artbypass_sel_ch1[2:0]", 0xE0, 0x7, 0, 3),
      Cell(17, 2, "cfg_artbypass_sel_ch1[4:3]", 0x3, 0x18, 3, 5)])
    case _ => Value("cfg_artbypass_sel_ch2", [Cell(17, 1, "cfg_artbypass_sel_ch2[4:0]", 0x7C, DEFAULT_MASK, 0, 32)])
  }

  function ValuesD(i: nat): Value {
    match i
    case 24 => Value("cfg_artbypass_sel_ch3", [
      Cell(17, 0, "cfg_artbypass_sel_ch3[0]", 0x80, 0x1, 0, 1),
      Cell(18, 1, "cfg_artbypass_sel_ch3[4:1]", 0xF, 0x1E, 1, 5)])
    case 25 => Value("cfg_artbypass_sel_ch4", [
      Cell(18, 0, "cfg_artbypass_sel_ch4[3:0]", 0xF0, 0xF, 0, 4),
      Cell(19, 2, "cfg_artbypass_sel_ch4[4]", 0x1, 0x10, 4, 5)])
    case 26 => Value("cfg_artbypass_sel_ch5", [Cell(19, 1, "cfg_artbypass_sel_ch5[4:0]", 0x3E, DEFAULT_MASK, 0, 32)])
    case 27 => Value("cfg_artbypass_sel_ch6", [
      Cell(19, 0, "cfg_artbypass_sel_ch6[1:0]", 0xC0, 0x3, 0, 2),
      Cell(20, 1, "cfg_artbypass_sel_ch6[4:2]", 0x7, 0x1C, 2, 5)])
    case 28 => Value("cfg_artbypass_sel_ch7", [Cell(20, 0, "cfg_artbypass_sel_ch7[4:0]", 0xF8, DEFAULT_MASK, 0, 32)])
    case 29 => Value("cfg_pattern_data_phi0", [
      Cell(21, 0, "cfg_pattern_data_phi0[7:0]", 0xFF, 0xFF, 0, 8),
      Cell(22, 1, "cfg_pattern_data_phi0[13:8]", 0x3F, 0x3F00, 8, 14)])
    case 30 => Value("cfg_pattern_data_phi1", [
      Cell(22, 0, "cfg_pattern_data_phi1[1:0]", 0xC0, 0x3, 0, 2),
      Cell(23, 0, "cfg_pattern_data_phi1[9:2]", 0xFF, 0x3FC, 2, 10),
      Cell(24, 1, "cfg_pattern_data_phi1[13:10]", 0xF, 0x3C00, 10, 14)])
    case _ => Value("cfg_pattern_data_phi2", [
      Cell(24, 0, "cfg_pattern_data_phi2[3:0]", 0xF0, 0xF, 0, 4),
      Cell(25, 0, "cfg_pattern_data_phi2[11:4]", 0xFF, 0xFF0, 4, 12),
      Cell(26, 1, "cfg_pattern_data_phi2[13:12]", 0x3, 0x3000, 12, 14)])
  }

  function ValuesE(i: nat): Value {
    match i
    case 32 => Value("cfg_pattern_data_phi3", [
      Cell(26, 0, "cfg_pattern_data_phi3[5:0]", 0xFC, 0x3F, 0, 6),
      Cell(27, 0, "cfg_pattern_data_phi3[13:6]", 0xFF, 0x3FC0, 6, 14)])
    case 33 => Value("cfg_pattern_data_phi4", [
      Cell(28, 0, "cfg_pattern_data_phi4[7:0]", 0xFF, 0xFF, 0, 8),
      Cell(29, 1, "cfg_pattern_data_phi4[13:8]", 0x3F, 0x3F00, 8, 14)])
    case 34 => Value("cfg_pattern_data_phi5", [
      Cell(29, 0, "cfg_pattern_data_phi5[1:0]", 0xC0, 0x3, 0, 2),
      Cell(30, 0, "cfg_pattern_data_phi5[9:2]", 0xFF, 0x3FC, 2, 10),
      Cell(31, 1, "cfg_pattern_data_phi5[13:10]", 0xF, 0x3C00, 10, 14)])
    case 35 => Value("cfg_pattern_data_phi6", [
      Cell(31, 0, "cfg_pattern_data_phi6[3:0]", 0xF0, 0xF, 0, 4),
      Cell(32, 0, "cfg_pattern_data_phi6[11:4]", 0xFF, 0xFF0, 4, 12),
      Cell(33, 1, "cfg_pattern_data_phi6[13:12]", 0x3, 0x3000, 12, 14)])
    case _ => Value("cfg_pattern_data_phi7", [
      Cell(33, 0, "cfg_pattern_data_phi7[5:0]", 0xFC, 0x3F, 0, 6),
      Cell(34, 0, "cfg_pattern_data_phi7[13:6]", 0xFF, 0x3FC0, 6, 14)])
  }

  /** Which unit of which value a field belongs to. */
  function Owner(n: nat, m: nat): (nat, nat) {
    match n
    case 0 => (m, 0)
    case 1 => (m + 4, 0)
    case 2 => (m + 9, 0)
    case 3 => (15, 0)
    case 4 => (16, 0)
    case 5 => (17, 0)
    case 6 => (17, 1)
    case 7 => (17, 2)
    case 8 => (17, 3)
    case 9 => (18, 0)
    case 10 => (18, 1)
    case 11 => (18, 2)
    case 12 => (18, 3)
    case 13 => (19, 0)
    case 14 => if m == 0 then (20, 0) else (19, 1)
    case 15 => (20, 1)
    case 16 => if m == 0 then (22, 0) else (21, 0)
    case 17 => if m == 0 then (24, 0) else if m == 1 then (23, 0) else (22, 1)
    case 18 => if m == 0 then (25, 0) else (24, 1)
    case 19 => if m == 0 then (27, 0) else if m == 1 then (26, 0) else (25, 1)
    case 20 => if m == 0 then (28, 0) else (27, 1)
    case 21 => (29, 0)
    case 22 => if m == 0 then (30, 0) else (29, 1)
    case 23 => (30, 1)
    case 24 => if m == 0 then (31, 0) else (30, 2)
    case 25 => (31, 1)
    case 26 => if m == 0 then (32, 0) else (31, 2)
    case 27 => (32, 1)
    case 28 => (33, 0)
    case 29 => if m == 0 then (34, 0) else (33, 1)
    case 30 => (34, 1)
    case 31 => if m == 0 then (35, 0) else (34, 2)
    case 32 => (35, 1)
    case 33 => if m == 0 then (36, 0) else (35, 2)
    case _ => (36, 1)
  }

  const ART: Table :=
    Table(NUM_REGISTERS, (n: nat) => Num(n), (n: nat) => Fields(n), NUM_VALUES, (i: nat) => Values(i),
      (n: nat, m: nat) => Owner(n, m))

  // ----- The check, row by row -----

  lemma {:induction false} AddressOk(n: nat)
    ensures '.' !in Num(n) && Writable(Num(n))
  {
  }

  lemma {:induction false} AddressesApart(m: nat, n: nat)
    requires m < 100 && n < 100 && Num(m) == Num(n)
    ensures m == n
  {
    assert Num(m)[0] == Num(n)[0] && Num(m)[1] == Num(n)[1];
  }

  lemma {:induction false} Register0(n: nat)
    requires n == 0
    ensures FieldsOk(Fields(n))
  {
    Offsets(Fields(n));
  }

  lemma {:induction false} Register1(n: nat)
    requires n == 1
    ensures FieldsOk(Fields(n))
  {
    Offsets(Fields(n));
  }

  lemma {:induction false} Register2(n: nat)
    requires n == 2
    ensures FieldsOk(Fields(n))
  {
    Offsets(Fields(n));
  }

  lemma {:induction false} Registers3To17(n: nat)
    requires 3 <= n < 18
    ensures FieldsOk(Fields(n))
  {
    Offsets(Fields(n));
  }

  lemma {:induction false} Registers18To34(n: nat)
    requires 18 <= n < 35
    ensures FieldsOk(Fields(n))
  {
    Offsets(Fields(n));
  }

  lemma {:induction false} Placed0To16(i: nat, k: nat)
    requires 0 <= i < 17 && k < |Values(i).cells|
    ensures CellPlaced(ART, i, k)
  {
  }

  lemma {:induction false} Placed17To23(i: nat, k: nat)
    requires 17 <= i < 24 && k < |Values(i).cells|
    ensures CellPlaced(ART, i, k)
  {
  }

  lemma {:induction false} Placed24To30(i: nat, k: nat)
    requires 24 <= i < 31 && k < |Values(i).cells|
    ensures CellPlaced(ART, i, k)
  {
  }

  lemma {:induction false} Placed31To36(i: nat, k: nat)
    requires 31 <= i < 37 && k < |Values(i).cells|
    ensures CellPlaced(ART, i, k)
  {
  }

  lemma {:induction false} Masks0To16(i: nat, k: nat)
    requires 0 <= i < 17 && k < |Values(i).cells|
    ensures CellMasks(ART, i, k)
  {
    hide Pow2, Offset;
    Powers();
    Offsets(Fields(Values(i).cells[k].register));
  }

  lemma {:induction false} Masks17To22(i: nat, k: nat)
    requires 17 <= i < 23 && k < |Values(i).cells|
    ensures CellMasks(ART, i, k)
  {
    hide Pow2, Offset;
    Powers();
    Offsets(Fields(Values(i).cells[k].register));
  }

  lemma {:induction false} Masks23To27(i: nat, k: nat)
    requires 23 <= i < 28 && k < |Values(i).cells|
    ensures CellMasks(ART, i, k)
  {
    hide Pow2, Offset;
    Powers();
    Offsets(Fields(Values(i).cells[k].register));
  }

  lemma {:induction false} Masks28To31(i: nat, k: nat)
    requires 28 <= i < 32 && k < |Values(i).cells|
    ensures CellMasks(ART, i, k)
  {
    hide Pow2, Offset;
    Powers();
    Offsets(Fields(Values(i).cells[k].register));
  }

  lemma {:induction false} Masks32To36(i: nat, k: nat)
    requires 32 <= i < 37 && k < |Values(i).cells|
    ensures CellMasks(ART, i, k)
  {
    hide Pow2, Offset;
    Powers();
    Offsets(Fields(Values(i).cells[k].register));
  }

  lemma {:induction false} RegisterChecked(n: nat)
    requires n < NUM_REGISTERS
    ensures RegisterOk(Num(n), Fields(n))
  {
    hide FieldsOk, Writable;
    AddressOk(n);
    if n < 1 { Register0(n); }
    else if n < 2 { Register1(n); }
    else if n < 3 { Register2(n); }
    else if n < 18 { Registers3To17(n); }
    else { Registers18To34(n); }
  }

  lemma {:induction false} ValueChecked(i: nat, k: nat)
    requires i < NUM_VALUES && k < |Values(i).cells|
    ensures CellOk(ART, i, k)
  {
    hide CellPlaced, CellMasks;
    if i < 17 { Placed0To16(i, k); }
    else if i < 24 { Placed17To23(i, k); }
    else if i < 31 { Placed24To30(i, k); }
    else { Placed31To36(i, k); }
    if i < 17 { Masks0To16(i, k); }
    else if i < 23 { Masks17To22(i, k); }
    else if i < 28 { Masks23To27(i, k); }
    else if i < 32 { Masks28To31(i, k); }
    else { Masks32To36(i, k); }
  }

  lemma {:induction false} EarlyValueTiled(i: nat)
    requires i < 24
    ensures Tiled(Values(i).cells)
  {
  }

  lemma {:induction false} LateValueTiled(i: nat)
    requires 24 <= i < NUM_VALUES
    ensures Tiled(Values(i).cells)
  {
  }

  /** The shipped ART tables pass the check. */
  lemma {:induction false} ArtTableOk()
    ensures TableOk(ART)
  {
    hide Num, Fields, Values, Owner, RegisterOk, CellOk, Tiled;
    forall n: nat | n < NUM_REGISTERS ensures RegisterOk(Num(n), Fields(n)) { RegisterChecked(n); }
    forall m: nat, n: nat | m < NUM_REGISTERS && n < NUM_REGISTERS && Num(m) == Num(n) ensures m == n {
      AddressesApart(m, n);
    }
    forall i: nat | i < NUM_VALUES ensures Tiled(Values(i).cells) {
      if i < 24 { EarlyValueTiled(i); } else { LateValueTiled(i); }
    }
    forall i: nat, k: nat | i < NUM_VALUES && k < |Values(i).cells| ensures CellOk(ART, i, k) { ValueChecked(i, k); }
  }

  // ----- What follows for ART -----

  /** All hypotheses of the translation laws. */
  lemma {:induction false} ArtTablesAgree(layout: AddressRegisterMap, tmap: TranslationMap)
    requires IsLayout(ART, layout) && IsMap(ART, tmap)
    ensures LayoutOk(layout) && MapAgrees(layout, tmap) && MasksOk(tmap, 32)
    ensures UniqueNames(tmap) && OneUnitPerRegister(tmap) && RegisterMasksDisjoint(tmap)
  {
    hide TableOk, IsLayout, IsMap;
    ArtTableOk();
    TablesAgree(ART, layout, tmap);
  }

  /** Both ways of building the ART bit strings give the same bits. */
  lemma {:induction false} ArtPathsCommute(
    layout: AddressRegisterMap, tmap: TranslationMap, tree: Tree, paths: seq<string>, full: AddressBitstreamMap)
    requires IsLayout(ART, layout) && IsMap(ART, tmap) && Walkable(tmap, tree, paths)
    requires MasksNonZero(Visits(tmap, tree, paths))
    requires IsFullConfig(layout, SubTree(Visits(tmap, tree, paths)), Ok(full))
    ensures forall r :: IsPartialConfig(layout, FlatTree(32, Visits(tmap, tree, paths)), r) <==> r == Ok(full)
  {
    hide TableOk, IsLayout, IsMap, IsFullConfig, IsPartialConfig, FlatTree, SubTree;
    ArtTableOk();
    TablePathsCommute(ART, layout, tmap, tree, paths, full);
  }

  /** The units of an ART value share no bit of it and carry all its bits. */
  lemma {:induction false} ArtPartitioned(p: string, units: seq<TranslationUnit>, i: nat, value: nat)
    requires i < NUM_VALUES && IsEntry(ART, p, units, i) && units != [] && value < Pow2(Width(Values(i).cells))
    ensures Partitioned(units, value)
  {
    hide TableOk, Fields, Values, Owner, Width;
    ArtTableOk();
    UnitsPartition(ART, p, units, i, value);
  }

  /** Any ART values in range survive the translation to sub-registers and back. */
  lemma {:induction false} ArtRoundTrip(
    layout: AddressRegisterMap, tmap: TranslationMap, tree: Tree, paths: seq<string>, order: seq<string>,
    subPaths: seq<string>)
    requires IsLayout(ART, layout) && IsMap(ART, tmap) && Walkable(tmap, tree, paths) && InRange(ART, tmap, tree)
    requires Enumerates(order, tmap.Keys) && MasksNonZero(Visits(tmap, tree, paths))
    requires Enumerates(subPaths, SubTree(Visits(tmap, tree, paths)).Keys)
    ensures MasksOk(tmap, 32)
    ensures NodesFound(tmap, order, 32, SubTree(Visits(tmap, tree, paths)), subPaths, |subPaths|)
    ensures AccTree(32, ValueEntries(tmap, order, 32, SubTree(Visits(tmap, tree, paths)), subPaths)) == tree
  {
    hide NodesFound, ValueEntries, AccTree, SubTree, Visits, TableOk, IsLayout, IsMap, InRange, MasksOk;
    ArtTableOk();
    TableRoundTrip(ART, layout, tmap, tree, paths, order, subPaths);
  }

  /** The flat ART registers of fitting values, taken apart again for any values, give their sub-registers. */
  lemma {:induction false} ArtFlatIsLossless(
    layout: AddressRegisterMap, tmap: TranslationMap, tree: Tree, paths: seq<string>, order: seq<string>,
    registers: seq<string>, values: seq<string>)
    requires IsLayout(ART, layout) && IsMap(ART, tmap) && Walkable(tmap, tree, paths)
    requires Enumerates(order, tmap.Keys) && forall p | p in values :: p in tmap
    requires forall v | v in Visits(tmap, tree, paths) :: Fits(v)
    ensures MasksNonZero(Visits(tmap, tree, paths))
    ensures Enumerates(registers, FlatTree(32, Visits(tmap, tree, paths)).Keys) ==>
      FlatGivesSubTree(tmap, tree, paths, order, registers, values)
  {
    hide TableOk, IsLayout, IsMap, FlatTree, FlatGivesSubTree;
    ArtTableOk();
    TableFlatIsLossless(ART, layout, tmap, tree, paths, order, registers, values);
  }
}
