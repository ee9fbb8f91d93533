/** Translation tables written out as literals: what to check row by row, and what every table that passes the check
    enjoys. A table lists the fields of every register and, for every value, one cell for each of its units. */
module ShippedTables {
  import opened Bits
  import opened I2cMaster
  import opened Translation
  import opened ConfigConverter
  import opened ConverterLaws
  import opened TranslationPaths

  /** One unit of a value: register, position and name of its field, the two masks, and the bits of the value it
      carries, from the first up to the one behind the last. */
  datatype Cell = Cell(
    register: nat, position: nat, name: string, maskRegister: nat, maskValue: nat, from: nat, upTo: nat)

  datatype Value = Value(name: string, cells: seq<Cell>)

  /** `owner` says which unit of which value a field belongs to. */
  datatype Table = Table(
    numRegisters: nat, address: nat -> string, fields: nat -> seq<Field>,
    numValues: nat, value: nat -> Value, owner: (nat, nat) -> (nat, nat))

  // ----- Runs of ones -----

  /** The run of ones from bit `lo` up to, not including, bit `hi`. */
  function Ones(lo: nat, hi: nat): int { Pow2(hi) - Pow2(lo) }

  lemma {:induction false} OnesBits(mask: nat, lo: nat, hi: nat)
    requires lo <= hi && mask == Ones(lo, hi)
    ensures forall b: nat :: Bit(mask, b) <==> lo <= b < hi
  {
    if lo == 0 {
      forall b: nat ensures Bit(mask, b) <==> 0 <= b < hi { BitOfOnes(hi, b); }
    } else {
      OnesBits(mask / 2, lo - 1, hi - 1);
      forall b: nat ensures Bit(mask, b) <==> lo <= b < hi { if b > 0 { assert Bit(mask, b) == Bit(mask / 2, b - 1); } }
    }
  }

  lemma {:induction false} OnesRange(lo: nat, hi: nat)
    requires lo <= hi <= 32
    ensures 0 <= Ones(lo, hi) < Pow2(32)
    ensures lo < hi ==> Ones(lo, hi) > 0
  {
    Pow2Monotone(lo, hi);
    Pow2Monotone(hi, 32);
    if lo < hi { Pow2Monotone(lo + 1, hi); }
  }

  // ----- The check -----

  /** A register of at most 32 bits that may be written, with an address of its own and no repeated or unused field. */
  ghost predicate RegisterOk(address: string, fields: seq<Field>) {
    '.' !in address && Writable(address) && FieldsOk(fields)
  }

  predicate FieldsOk(fields: seq<Field>) {
    && 0 < TotalSize(fields) <= 32
    && (forall k | 0 <= k < |fields| :: 1 <= fields[k].size <= MAX_REGISTER_SIZE && fields[k].name != NOT_USED)
    && (forall j, k | 0 <= j < k < |fields| :: fields[j].name != fields[k].name)
  }

  lemma {:induction false} DistinctIsWellFormed(fields: seq<Field>)
    requires FieldsOk(fields)
    ensures WellFormed(fields)
  {
    forall k | Named(fields, k) ensures IndexOf(fields, fields[k].name) == k {
      OnlyIndex(fields, |fields|, k);
    }
  }

  lemma {:induction false} OnlyIndex(fields: seq<Field>, n: nat, k: nat)
    requires k < n <= |fields| && forall j | k < j < |fields| :: fields[j].name != fields[k].name
    ensures LastIndex(fields, n, fields[k].name) == k
  {
    if k < n - 1 { OnlyIndex(fields, n - 1, k); }
  }

  /** Exactly the bits of the field, or, for a field that is the whole register, the default. */
  ghost predicate MaskOk(fields: seq<Field>, m: nat, mask: nat)
    requires m < |fields|
  {
    || mask == Ones(LowBit(fields, m), LowBit(fields, m) + fields[m].size)
    || (mask == DEFAULT_MASK && |fields| == 1)
  }

  /** Unit `k` of value `i` names a field of the layout, which is its own. */
  ghost predicate CellPlaced(t: Table, i: nat, k: nat)
    requires k < |t.value(i).cells|
  {
    var c := t.value(i).cells[k];
    && c.register < t.numRegisters && c.position < |t.fields(c.register)|
    && t.fields(c.register)[c.position].name == c.name
    && t.owner(c.register, c.position) == (i, k)
  }

  /** It masks the bits of that field and carries a run of bits of the value; its register comes after that of the unit
      before it. */
  ghost predicate CellMasks(t: Table, i: nat, k: nat)
    requires k < |t.value(i).cells|
  {
    var cells := t.value(i).cells;
    var c := cells[k];
    && c.position < |t.fields(c.register)| && MaskOk(t.fields(c.register), c.position, c.maskRegister)
    && c.from < c.upTo <= 32 && c.maskValue == Ones(c.from, c.upTo)
    && (k > 0 ==> cells[k - 1].register < c.register)
  }

  ghost predicate CellOk(t: Table, i: nat, k: nat)
    requires k < |t.value(i).cells|
  {
    CellPlaced(t, i, k) && CellMasks(t, i, k)
  }

  /** The units carry the bits of the value one after the other, from the lowest or from the highest on. */
  predicate Tiled(cells: seq<Cell>) { cells != [] && (Rising(cells) || Falling(cells)) }

  predicate Rising(cells: seq<Cell>)
    requires cells != []
  {
    cells[0].from == 0 && forall k | 0 < k < |cells| :: cells[k].from == cells[k - 1].upTo
  }

  predicate Falling(cells: seq<Cell>)
    requires cells != []
  {
    cells[|cells| - 1].from == 0 && forall k | 0 < k < |cells| :: cells[k].upTo == cells[k - 1].from
  }

  ghost predicate TableOk(t: Table) {
    && (forall n: nat | n < t.numRegisters :: RegisterOk(t.address(n), t.fields(n)))
    && (forall m: nat, n: nat | m < t.numRegisters && n < t.numRegisters && t.address(m) == t.address(n) :: m == n)
    && (forall i: nat | i < t.numValues :: Tiled(t.value(i).cells))
    && (forall i: nat, k: nat | i < t.numValues && k < |t.value(i).cells| :: CellOk(t, i, k))
  }

  /** The layout and the translation map the table stands for. */
  ghost predicate IsLayout(t: Table, layout: AddressRegisterMap) {
    && (forall n: nat | n < t.numRegisters :: t.address(n) in layout && layout[t.address(n)] == t.fields(n))
    && (forall a | a in layout :: exists n: nat :: n < t.numRegisters && a == t.address(n))
  }

  ghost predicate IsEntry(t: Table, p: string, units: seq<TranslationUnit>, i: nat) {
    && p == t.value(i).name && |units| == |t.value(i).cells|
    && (forall k: nat | k < |units| :: units[k] == UnitOf(t, t.value(i).cells[k]))
  }

  function UnitOf(t: Table, c: Cell): TranslationUnit {
    TranslationUnit(Path(t.address(c.register), c.name), c.maskRegister, c.maskValue)
  }

  ghost predicate IsMap(t: Table, tmap: TranslationMap) {
    && (forall i: nat | i < t.numValues :: t.value(i).name in tmap)
    && (forall p | p in tmap :: exists i: nat :: i < t.numValues && IsEntry(t, p, tmap[p], i))
  }

  // ----- Numbers needed to check a row -----

  lemma {:induction false} Powers()
    ensures Pow2(0) == 1 && Pow2(1) == 2 && Pow2(2) == 4 && Pow2(3) == 8 && Pow2(4) == 0x10 && Pow2(5) == 0x20
    ensures Pow2(6) == 0x40 && Pow2(7) == 0x80 && Pow2(8) == 0x100 && Pow2(10) == 0x400 && Pow2(12) == 0x1000
    ensures Pow2(14) == 0x4000 && Pow2(16) == 0x1_0000 && Pow2(24) == 0x100_0000 && Pow2(32) == 0x1_0000_0000
  {
    Pow2Of32();
    assert Pow2(16) == 256 * Pow2(8);
    assert Pow2(24) == 256 * Pow2(16);
  }

  lemma {:induction false} Offsets(f: seq<Field>)
    requires 1 <= |f| <= 6
    ensures Offset(f, 0) == 0 && Offset(f, 1) == f[0].size
    ensures |f| > 1 ==> Offset(f, 2) == f[0].size + f[1].size
    ensures |f| > 2 ==> Offset(f, 3) == f[0].size + f[1].size + f[2].size
    ensures |f| > 3 ==> Offset(f, 4) == f[0].size + f[1].size + f[2].size + f[3].size
    ensures |f| > 4 ==> Offset(f, 5) == f[0].size + f[1].size + f[2].size + f[3].size + f[4].size
    ensures |f| > 5 ==> Offset(f, 6) == f[0].size + f[1].size + f[2].size + f[3].size + f[4].size + f[5].size
  {
    assert Offset(f, 1) == Offset(f, 0) + f[0].size;
    assert |f| > 1 ==> Offset(f, 2) == Offset(f, 1) + f[1].size;
    assert |f| > 2 ==> Offset(f, 3) == Offset(f, 2) + f[2].size;
    assert |f| > 3 ==> Offset(f, 4) == Offset(f, 3) + f[3].size;
    assert |f| > 4 ==> Offset(f, 5) == Offset(f, 4) + f[4].size;
  }

  // ----- What a checked table enjoys -----

  lemma {:induction false} LayoutIsOk(t: Table, layout: AddressRegisterMap)
    requires TableOk(t) && IsLayout(t, layout)
    ensures LayoutOk(layout)
  {
    forall a | a in layout ensures '.' !in a && WellFormed(layout[a]) && TotalSize(layout[a]) <= 32 {
      var n: nat :| n < t.numRegisters && a == t.address(n);
      assert RegisterOk(t.address(n), t.fields(n));
      DistinctIsWellFormed(t.fields(n));
    }
  }

  /** The unit in cell `k` of value `i`. */
  lemma {:induction false} UnitFacts(t: Table, p: string, units: seq<TranslationUnit>, i: nat, k: nat)
    requires TableOk(t) && i < t.numValues && IsEntry(t, p, units, i) && k < |units|
    ensures
      var c, name := t.value(i).cells[k], units[k].registerName;
      && CellOk(t, i, k) && RegisterOk(t.address(c.register), t.fields(c.register))
      && RegisterOf(name) == t.address(c.register) && |t.address(c.register)| < |name|
      && IndexOf(t.fields(c.register), SubNameOf(name)) == c.position
      && units[k].maskRegister == c.maskRegister && units[k].maskValue == c.maskValue
  {
    var c := t.value(i).cells[k];
    assert CellOk(t, i, k);
    assert RegisterOk(t.address(c.register), t.fields(c.register));
    hide TableOk, MaskOk;
    DistinctIsWellFormed(t.fields(c.register));
    JoinName(t.address(c.register), c.name);
    assert Path(t.address(c.register), c.name) == t.address(c.register) + "." + c.name;
    assert Named(t.fields(c.register), c.position);
  }

  lemma {:induction false} RegionOfMask(fields: seq<Field>, m: nat, mask: nat)
    requires m < |fields| && MaskOk(fields, m, mask) && 0 < TotalSize(fields) <= 32
    requires forall k | 0 <= k < |fields| :: fields[k].size > 0
    ensures forall b: nat | b < TotalSize(fields) :: Bit(mask, b) <==> InRegion(fields, m, b)
    ensures forall b: nat | b >= TotalSize(fields) && Bit(mask, b) :: fields[m].size == TotalSize(fields)
    ensures 0 < mask < Pow2(32)
  {
    OffsetMonotone(fields, m, |fields|);
    var lo := LowBit(fields, m);
    Pow2Of32();
    if mask == Ones(lo, lo + fields[m].size) {
      OnesBits(mask, lo, lo + fields[m].size);
      OnesRange(lo, lo + fields[m].size);
    } else {
      assert Offset(fields, 0) == 0 && Offset(fields, 1) == fields[0].size;
      assert Ones(0, 32) == DEFAULT_MASK;
      OnesBits(mask, 0, 32);
    }
  }

  lemma {:induction false} UnitIsRight(
    t: Table, layout: AddressRegisterMap, p: string, units: seq<TranslationUnit>, i: nat, k: nat)
    requires TableOk(t) && IsLayout(t, layout) && i < t.numValues && IsEntry(t, p, units, i) && k < |units|
    ensures UnitAgrees(layout, units[k]) && Writable(RegisterOf(units[k].registerName))
    ensures 0 < units[k].maskRegister < Pow2(32) && 0 < units[k].maskValue < Pow2(32)
  {
    UnitFacts(t, p, units, i, k);
    hide TableOk, MaskOk, IsEntry;
    var c := t.value(i).cells[k];
    assert layout[t.address(c.register)] == t.fields(c.register);
    RegionOfMask(t.fields(c.register), c.position, units[k].maskRegister);
    OnesRange(c.from, c.upTo);
  }

  /** A checked table meets all hypotheses the translation laws put on the map alone. */
  lemma {:induction false} TablesAgree(t: Table, layout: AddressRegisterMap, tmap: TranslationMap)
    requires TableOk(t) && IsLayout(t, layout) && IsMap(t, tmap)
    ensures LayoutOk(layout) && MapAgrees(layout, tmap) && MasksOk(tmap, 32)
    ensures UniqueNames(tmap) && OneUnitPerRegister(tmap) && RegisterMasksDisjoint(tmap)
  {
    hide TableOk, UnitAgrees, LayoutOk, IsLayout, IsEntry;
    LayoutIsOk(t, layout);
    forall p, k | p in tmap && 0 <= k < |tmap[p]|
      ensures UnitAgrees(layout, tmap[p][k])
      ensures 0 < tmap[p][k].maskValue < Pow2(32) && 0 < tmap[p][k].maskRegister < Pow2(32)
    {
      var i: nat :| i < t.numValues && IsEntry(t, p, tmap[p], i);
      UnitIsRight(t, layout, p, tmap[p], i, k);
    }
    forall p, q, j, k | p in tmap && q in tmap && 0 <= j < |tmap[p]| && 0 <= k < |tmap[q]|
      && tmap[p][j].registerName == tmap[q][k].registerName
      ensures p == q && j == k
    {
      SameNameSameUnit(t, tmap, p, q, j, k);
    }
    forall p, j, k | p in tmap && 0 <= j < |tmap[p]| && 0 <= k < |tmap[p]|
      && RegisterOf(tmap[p][j].registerName) == RegisterOf(tmap[p][k].registerName)
      ensures j == k
    {
      SameRegisterSameUnit(t, tmap, p, j, k);
    }
    MasksOfMapApart(layout, tmap);
  }

  /** Units of one register that agree with the layout own different bits of it. */
  lemma {:induction false} MasksOfMapApart(layout: AddressRegisterMap, tmap: TranslationMap)
    requires LayoutOk(layout) && MapAgrees(layout, tmap) && UniqueNames(tmap)
    ensures RegisterMasksDisjoint(tmap)
  {
    hide LayoutOk, UnitAgrees, RegisterOf;
    forall p, q, j, k | p in tmap && q in tmap && 0 <= j < |tmap[p]| && 0 <= k < |tmap[q]|
      && RegisterOf(tmap[p][j].registerName) == RegisterOf(tmap[q][k].registerName) && !(p == q && j == k)
      ensures Disjoint(tmap[p][j].maskRegister, tmap[q][k].maskRegister)
    {
      MasksApart(layout, tmap[p][j], tmap[q][k]);
    }
  }

  lemma {:induction false} SameNameSameUnit(t: Table, tmap: TranslationMap, p: string, q: string, j: nat, k: nat)
    requires TableOk(t) && IsMap(t, tmap) && p in tmap && q in tmap && j < |tmap[p]| && k < |tmap[q]|
    requires tmap[p][j].registerName == tmap[q][k].registerName
    ensures p == q && j == k
  {
    var a: nat :| a < t.numValues && IsEntry(t, p, tmap[p], a);
    var b: nat :| b < t.numValues && IsEntry(t, q, tmap[q], b);
    hide MaskOk, RegisterOk;
    UnitFacts(t, p, tmap[p], a, j);
    UnitFacts(t, q, tmap[q], b, k);
  }

  lemma {:induction false} SameRegisterSameUnit(t: Table, tmap: TranslationMap, p: string, j: nat, k: nat)
    requires TableOk(t) && IsMap(t, tmap) && p in tmap && j < |tmap[p]| && k < |tmap[p]|
    requires RegisterOf(tmap[p][j].registerName) == RegisterOf(tmap[p][k].registerName)
    ensures j == k
  {
    var i: nat :| i < t.numValues && IsEntry(t, p, tmap[p], i);
    hide MaskOk, RegisterOk;
    UnitFacts(t, p, tmap[p], i, j);
    UnitFacts(t, p, tmap[p], i, k);
    if j < k { LaterRegisters(t, i, j, k); }
    if k < j { LaterRegisters(t, i, k, j); }
  }

  lemma {:induction false} LaterRegisters(t: Table, i: nat, j: nat, k: nat)
    requires TableOk(t) && i < t.numValues && j < k < |t.value(i).cells|
    ensures t.value(i).cells[j].register < t.value(i).cells[k].register
    decreases k
  {
    assert CellOk(t, i, k);
    if j < k - 1 { LaterRegisters(t, i, j, k - 1); }
  }

  // ----- Values in range -----

  /** Number of bits the units of a value carry. */
  function Width(cells: seq<Cell>): nat
    requires cells != []
  {
    if cells[0].from == 0 then cells[|cells| - 1].upTo else cells[0].upTo
  }

  /** Bit `b` of a value is carried by a unit. */
  lemma {:induction false} CarriedBy(t: Table, i: nat, b: nat) returns (k: nat)
    requires TableOk(t) && i < t.numValues && b < Width(t.value(i).cells)
    ensures k < |t.value(i).cells| && t.value(i).cells[k].from <= b < t.value(i).cells[k].upTo
  {
    var cells := t.value(i).cells;
    assert Tiled(cells) && CellOk(t, i, 0);
    assert |cells| > 1 ==> CellOk(t, i, 1);
    if Rising(cells) {
      k := RisingTo(cells, |cells|, b);
    } else {
      k := FallingTo(cells, |cells|, b);
    }
  }

  lemma {:induction false} RisingTo(cells: seq<Cell>, n: nat, b: nat) returns (k: nat)
    requires cells != [] && Rising(cells) && 0 < n <= |cells| && b < cells[n - 1].upTo
    ensures k < n && cells[k].from <= b < cells[k].upTo
  {
    k := n - 1;
    if b < cells[n - 1].from { k := RisingTo(cells, n - 1, b); }
  }

  lemma {:induction false} FallingTo(cells: seq<Cell>, n: nat, b: nat) returns (k: nat)
    requires cells != [] && Falling(cells) && 0 < n <= |cells| && b < cells[0].upTo
    requires n < |cells| ==> b >= cells[n].upTo
    ensures k < n && cells[k].from <= b < cells[k].upTo
  {
    k := n - 1;
    if n > 1 && b >= cells[n - 1].upTo { k := FallingTo(cells, n - 1, b); }
  }

  lemma {:induction false} CellsApart(t: Table, i: nat, j: nat, k: nat)
    requires TableOk(t) && i < t.numValues && j < k < |t.value(i).cells|
    ensures
      var c, d := t.value(i).cells[j], t.value(i).cells[k];
      c.upTo <= d.from || d.upTo <= c.from
    ensures Rising(t.value(i).cells) ==> t.value(i).cells[j].upTo <= t.value(i).cells[k].from
    ensures Falling(t.value(i).cells) ==> t.value(i).cells[k].upTo <= t.value(i).cells[j].from
    decreases k
  {
    assert Tiled(t.value(i).cells);
    if j < k - 1 {
      assert CellOk(t, i, k - 1);
      CellsApart(t, i, j, k - 1);
    }
  }

  /** The units of a value share no bit of it and carry all its bits. */
  lemma {:induction false} UnitsPartition(t: Table, p: string, units: seq<TranslationUnit>, i: nat, value: nat)
    requires TableOk(t) && i < t.numValues && IsEntry(t, p, units, i)
    requires t.value(i).cells != [] && value < Pow2(Width(t.value(i).cells))
    ensures Partitioned(units, value)
  {
    var cells := t.value(i).cells;
    forall k: nat | k < |units|
      ensures forall b: nat :: Bit(units[k].maskValue, b) <==> cells[k].from <= b < cells[k].upTo
    {
      UnitFacts(t, p, units, i, k);
      OnesBits(units[k].maskValue, cells[k].from, cells[k].upTo);
    }
    hide TableOk, IsEntry, Width;
    forall j, k | 0 <= j < k < |units| ensures Disjoint(units[j].maskValue, units[k].maskValue) {
      CellsApart(t, i, j, k);
    }
    forall b: nat | Bit(value, b) ensures exists k :: 0 <= k < |units| && Bit(units[k].maskValue, b) {
      if b >= Width(cells) { HighBitOverflows(value, Width(cells), b); }
      var k := CarriedBy(t, i, b);
      assert Bit(units[k].maskValue, b);
    }
  }

  /** Every value of the tree fits the units of its entry. */
  ghost predicate InRange(t: Table, tmap: TranslationMap, tree: Tree) {
    forall p, i: nat | p in tree && p in tmap && i < t.numValues && IsEntry(t, p, tmap[p], i) ::
      InWidth(t.value(i).cells, tree[p])
  }

  predicate InWidth(cells: seq<Cell>, value: nat) {
    cells != [] ==> value < Pow2(Width(cells)) && value < Pow2(32)
  }

  lemma {:induction false} TreeCovered(t: Table, tmap: TranslationMap, tree: Tree, paths: seq<string>)
    requires TableOk(t) && IsMap(t, tmap) && Walkable(tmap, tree, paths) && InRange(t, tmap, tree)
    ensures Covered(tmap, 32, tree)
  {
    hide IsEntry, Partitioned;
    forall p | p in tree ensures p in tmap && tree[p] < Pow2(32) && Partitioned(tmap[p], tree[p]) {
      var i: nat :| i < t.numValues && IsEntry(t, p, tmap[p], i);
      assert Tiled(t.value(i).cells) && InWidth(t.value(i).cells, tree[p]);
      UnitsPartition(t, p, tmap[p], i, tree[p]);
    }
  }

  // ----- The laws for a checked table -----

  /** Both ways of building the bit strings give the same bits. */
  lemma {:induction false} TablePathsCommute(
    t: Table, layout: AddressRegisterMap, tmap: TranslationMap, tree: Tree, paths: seq<string>,
    full: AddressBitstreamMap)
    requires TableOk(t) && IsLayout(t, layout) && IsMap(t, tmap) && Walkable(tmap, tree, paths)
    requires MasksNonZero(Visits(tmap, tree, paths))
    requires IsFullConfig(layout, SubTree(Visits(tmap, tree, paths)), Ok(full))
    ensures forall r :: IsPartialConfig(layout, FlatTree(32, Visits(tmap, tree, paths)), r) <==> r == Ok(full)
  {
    hide TableOk, IsLayout, IsMap, IsFullConfig, IsPartialConfig, FlatTree, SubTree;
    TablesAgree(t, layout, tmap);
    forall v | v in Visits(tmap, tree, paths) ensures Writable(RegisterOf(v.unit.registerName)) {
      VisitWritable(t, layout, tmap, tree, paths, v);
    }
    PathsCommute(tmap, layout, tree, paths, full);
  }

  lemma {:induction false} VisitWritable(
    t: Table, layout: AddressRegisterMap, tmap: TranslationMap, tree: Tree, paths: seq<string>, v: Visit)
    requires TableOk(t) && IsLayout(t, layout) && IsMap(t, tmap) && Walkable(tmap, tree, paths)
    requires v in Visits(tmap, tree, paths)
    ensures Writable(RegisterOf(v.unit.registerName))
  {
    hide TableOk, IsLayout, IsEntry;
    var x :| 0 <= x < |Visits(tmap, tree, paths)| && Visits(tmap, tree, paths)[x] == v;
    VisitFrom(tmap, tree, paths, x);
    var k :| 0 <= k < |tmap[v.path]| && v == Visit(v.path, tmap[v.path][k], tree[v.path]);
    var i: nat :| i < t.numValues && IsEntry(t, v.path, tmap[v.path], i);
    UnitIsRight(t, layout, v.path, tmap[v.path], i, k);
  }

  /** All values in range survive the translation to sub-registers and back. */
  lemma {:induction false} TableRoundTrip(
    t: Table, layout: AddressRegisterMap, tmap: TranslationMap, tree: Tree, paths: seq<string>, order: seq<string>,
    subPaths: seq<string>)
    requires TableOk(t) && IsLayout(t, layout) && IsMap(t, tmap)
    requires Walkable(tmap, tree, paths) && InRange(t, tmap, tree)
    requires Enumerates(order, tmap.Keys) && MasksNonZero(Visits(tmap, tree, paths))
    requires Enumerates(subPaths, SubTree(Visits(tmap, tree, paths)).Keys)
    ensures MasksOk(tmap, 32)
    ensures NodesFound(tmap, order, 32, SubTree(Visits(tmap, tree, paths)), subPaths, |subPaths|)
    ensures AccTree(32, ValueEntries(tmap, order, 32, SubTree(Visits(tmap, tree, paths)), subPaths)) == tree
  {
    hide NodesFound, ValueEntries, AccTree, SubTree, Visits, TableOk, IsLayout, IsMap, InRange;
    hide MasksOk, UniqueNames, MapAgrees, LayoutOk, MasksNonZero, Enumerates, Covered;
    TablesAgree(t, layout, tmap);
    TreeCovered(t, tmap, tree, paths);
    ValueRoundTrip32(tmap, tree, paths, order, subPaths);
  }

  /** Nothing is lost in the flat form of values that fit their fields: taken apart again for any values,
      it gives their sub-registers. */
  lemma {:induction false} TableFlatIsLossless(
    t: Table, layout: AddressRegisterMap, tmap: TranslationMap, tree: Tree, paths: seq<string>, order: seq<string>,
    registers: seq<string>, values: seq<string>)
    requires TableOk(t) && IsLayout(t, layout) && IsMap(t, tmap) && Walkable(tmap, tree, paths)
    requires Enumerates(order, tmap.Keys) && forall p | p in values :: p in tmap
    requires forall v | v in Visits(tmap, tree, paths) :: Fits(v)
    ensures MasksNonZero(Visits(tmap, tree, paths))
    ensures Enumerates(registers, FlatTree(32, Visits(tmap, tree, paths)).Keys) ==>
      FlatGivesSubTree(tmap, tree, paths, order, registers, values)
  {
    hide TableOk, IsLayout, IsMap, FlatTree, FlatGivesSubTree;
    TablesAgree(t, layout, tmap);
    FlatFormOfMap(tmap, tree, paths, order, registers, values);
  }
}
