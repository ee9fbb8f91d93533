/** Register layout of an I2C master (src/I2cMasterConfig.cpp, NSWConfiguration/I2cMasterConfig.h).

    Every address owns a list of named fields, most significant first. The codec lays the fields of an
    address out in one bit string and remembers where each name went; the configuration object then
    reads and overwrites single fields inside those strings. */
module I2cMaster {
  import opened Bits
  import opened Utility

  const NOT_USED := "NOT_USED"
  const READONLY := "READONLY"
  const MAX_REGISTER_SIZE: nat := 32
  const TWO_32: nat := 0x1_0000_0000

  datatype Field = Field(name: string, size: nat)

  type AddressRegisterMap = map<string, seq<Field>>
  type AddressBitstreamMap = map<string, BitString>

  /** A property tree: the path of every leaf with its number. */
  type Tree = map<string, nat>

  datatype Error =
    | MissingI2cAddress
    | MissingI2cRegister
    | RegisterOverflow
    | WriteToReadOnlyRegister
    | NoSuchI2cAddress
    | NoSuchI2cRegister
    | I2cSizeMismatch
    | BadData          // the stored number does not fit the type it is read as
    | OutOfRange       // std::out_of_range
    | InvalidArgument  // std::invalid_argument

  datatype Result<+T> = Ok(value: T) | Err(error: Error)

  // ----- Layout -----

  /** Position of the first bit of field `k`. */
  function Offset(fields: seq<Field>, k: nat): nat
    requires k <= |fields|
  {
    if k == 0 then 0 else Offset(fields, k - 1) + fields[k - 1].size
  }

  function TotalSize(fields: seq<Field>): nat { Offset(fields, |fields|) }

  predicate Named(fields: seq<Field>, k: int) {
    0 <= k < |fields| && fields[k].name != NOT_USED
  }

  /** The last of the first `n` fields with this name, or -1. */
  function LastIndex(fields: seq<Field>, n: nat, name: string): (k: int)
    requires n <= |fields|
    ensures -1 <= k < n
    ensures k >= 0 ==> fields[k].name == name
  {
    if n == 0 then -1 else if fields[n - 1].name == name then n - 1 else LastIndex(fields, n - 1, name)
  }

  /** The field a name refers to, or -1; unused bits have no name to refer to. */
  function IndexOf(fields: seq<Field>, name: string): (k: int)
    ensures -1 <= k < |fields|
    ensures k >= 0 ==> Named(fields, k) && fields[k].name == name
  {
    if name == NOT_USED then -1 else LastIndex(fields, |fields|, name)
  }

  lemma {:induction false} IndexIsLast(fields: seq<Field>, n: nat, name: string, j: nat)
    requires j < n <= |fields| && fields[j].name == name
    ensures LastIndex(fields, n, name) >= j
  {
    if fields[n - 1].name != name { IndexIsLast(fields, n - 1, name, j); }
  }

  /** Field sizes the bit-string helpers can handle, and no name used twice in one address. */
  ghost predicate WellFormed(fields: seq<Field>) {
    && (forall k | 0 <= k < |fields| :: 1 <= fields[k].size <= MAX_REGISTER_SIZE)
    && (forall k | Named(fields, k) :: IndexOf(fields, fields[k].name) == k)
  }

  lemma {:induction false} OffsetMonotone(fields: seq<Field>, j: nat, k: nat)
    requires j < k <= |fields|
    ensures Offset(fields, j) + fields[j].size <= Offset(fields, k)
    decreases k - j
  {
    if j + 1 < k { OffsetMonotone(fields, j, k - 1); }
  }

  /** Position and size tables of one address. */
  datatype Tables = Tables(position: map<string, nat>, size: map<string, nat>)

  /** The tables after the first `n` fields; a later field of the same name takes over the entry. */
  function TablesUpTo(fields: seq<Field>, n: nat): Tables
    requires n <= |fields|
  {
    if n == 0 then Tables(map[], map[])
    else
      var t, f := TablesUpTo(fields, n - 1), fields[n - 1];
      if f.name == NOT_USED then t
      else Tables(t.position[f.name := Offset(fields, n - 1)], t.size[f.name := f.size])
  }

  method SizesAndPositions(fields: seq<Field>) returns (total: nat, tables: Tables)
    ensures total == TotalSize(fields)
    ensures tables == TablesUpTo(fields, |fields|)
  {
    tables := Tables(map[], map[]);
    var pos := 0;
    for i := 0 to |fields|
      invariant pos == Offset(fields, i)
      invariant tables == TablesUpTo(fields, i)
    {
      if fields[i].name != NOT_USED {
        tables := Tables(tables.position[fields[i].name := pos], tables.size[fields[i].name := fields[i].size]);
      }
      pos := pos + fields[i].size;
    }
    total := pos;
  }

  /** The tables hold exactly the named fields, each where its last occurrence starts. */
  lemma {:induction false} TablesLocate(fields: seq<Field>, n: nat, name: string)
    requires n <= |fields|
    ensures
      var t, k := TablesUpTo(fields, n), LastIndex(fields, n, name);
      && (name in t.position <==> name in t.size)
      && (name in t.position <==> name != NOT_USED && k >= 0)
      && (name in t.position ==> t.position[name] == Offset(fields, k) && t.size[name] == fields[k].size)
  {
    if n > 0 { TablesLocate(fields, n - 1, name); }
  }

  // ----- Building bit strings -----

  function Path(address: string, register: string): string { address + "." + register }

  /** There is a node of this name at the top of the tree. */
  predicate HasAddress(tree: Tree, address: string) {
    exists p :: p in tree && (p == address || address + "." <= p)
  }

  predicate Overflows(size: nat, value: nat) { Pow2(size) <= value }

  /** One field of `buildConfig`. */
  function FieldBits(tree: Tree, address: string, f: Field): Result<BitString> {
    if f.name != NOT_USED && Path(address, f.name) !in tree then Err(MissingI2cRegister)
    else
      var value := if f.name == NOT_USED then 0 else tree[Path(address, f.name)];
      if value >= TWO_32 then Err(BadData)
      else if f.name != NOT_USED && Overflows(f.size, value) then Err(RegisterOverflow)
      else if f.size > MAX_REGISTER_SIZE then Err(OutOfRange)
      else Ok(ToBits(value, f.size))
  }

  /** The first `k` fields of an address. */
  function AddressBits(tree: Tree, address: string, fields: seq<Field>, k: nat): Result<BitString>
    requires k <= |fields|
  {
    if k == 0 then Ok([])
    else
      var init := AddressBits(tree, address, fields, k - 1);
      if init.Err? then init
      else
        var bits := FieldBits(tree, address, fields[k - 1]);
        if bits.Err? then bits else Ok(init.value + bits.value)
  }

  function BuildAddress(tree: Tree, address: string, fields: seq<Field>): Result<BitString> {
    if !HasAddress(tree, address) then Err(MissingI2cAddress) else AddressBits(tree, address, fields, |fields|)
  }

  predicate Writable(address: string) { !Contains(address, READONLY) }

  /** All writable addresses of the layout, or the error of one of them. */
  ghost predicate IsFullConfig(layout: AddressRegisterMap, tree: Tree, r: Result<AddressBitstreamMap>) {
    match r
    case Ok(streams) =>
      && (forall a :: a in streams <==> a in layout && Writable(a))
      && (forall a | a in streams :: BuildAddress(tree, a, layout[a]) == Ok(streams[a]))
    case Err(e) =>
      exists a :: a in layout && Writable(a) && BuildAddress(tree, a, layout[a]) == Err(e)
  }

  method BuildConfig(layout: AddressRegisterMap, config: Tree) returns (r: Result<AddressBitstreamMap>)
    ensures IsFullConfig(layout, config, r)
    ensures r.Ok? ==>
      forall a :: a in r.value <==> a in layout && !exists x: string, y: string :: a == x + "READONLY" + y
  {
    var bitstreams: AddressBitstreamMap := map[];
    var rest := layout.Keys;
    while rest != {}
      invariant rest <= layout.Keys
      invariant forall a :: a in bitstreams <==> a in layout && a !in rest && Writable(a)
      invariant forall a | a in bitstreams :: BuildAddress(config, a, layout[a]) == Ok(bitstreams[a])
      decreases |rest|
    {
      var address :| address in rest;
      rest := rest - {address};
      if Writable(address) {
        if !HasAddress(config, address) { return Err(MissingI2cAddress); }
        var bits := BuildOneAddress(config, address, layout[address]);
        if bits.Err? { return Err(bits.error); }
        bitstreams := bitstreams[address := bits.value];
      }
    }
    FullNames(layout, config, bitstreams);
    return Ok(bitstreams);
  }

  method BuildOneAddress(config: Tree, address: string, fields: seq<Field>) returns (r: Result<BitString>)
    ensures r == AddressBits(config, address, fields, |fields|)
  {
    var tempstr := [];
    for k := 0 to |fields|
      invariant AddressBits(config, address, fields, k) == Ok(tempstr)
    {
      var bits := FieldBits(config, address, fields[k]);
      if bits.Err? {
        ErrorSticks(config, address, fields, k + 1, |fields|);
        return bits;
      }
      tempstr := tempstr + bits.value;
    }
    return Ok(tempstr);
  }

  lemma {:induction false} ErrorSticks(tree: Tree, address: string, fields: seq<Field>, j: nat, k: nat)
    requires j <= k <= |fields| && AddressBits(tree, address, fields, j).Err?
    ensures AddressBits(tree, address, fields, k) == AddressBits(tree, address, fields, j)
    decreases k
  {
    if j < k { ErrorSticks(tree, address, fields, j, k - 1); }
  }

  /** One entry of `buildPartialConfig`: the register as one number. */
  function PartialBits(layout: AddressRegisterMap, address: string, value: nat): Result<BitString> {
    if !Writable(address) then Err(WriteToReadOnlyRegister)
    else if value >= TWO_32 then Err(BadData)
    else if address !in layout || TotalSize(layout[address]) > 128 then Err(OutOfRange)
    else Ok(ToBits(value, TotalSize(layout[address])))
  }

  ghost predicate IsPartialConfig(layout: AddressRegisterMap, tree: Tree, r: Result<AddressBitstreamMap>) {
    match r
    case Ok(streams) =>
      && streams.Keys == tree.Keys
      && (forall a | a in streams :: PartialBits(layout, a, tree[a]) == Ok(streams[a]))
    case Err(e) =>
      exists a :: a in tree && PartialBits(layout, a, tree[a]) == Err(e)
  }

  method BuildPartialConfig(layout: AddressRegisterMap, config: Tree) returns (r: Result<AddressBitstreamMap>)
    ensures IsPartialConfig(layout, config, r)
    ensures r.Ok? ==>
      forall a | a in config :: a in layout && !exists x: string, y: string :: a == x + "READONLY" + y
  {
    hide PartialBits;
    var bitstreams: AddressBitstreamMap := map[];
    var rest := config.Keys;
    while rest != {}
      invariant rest <= config.Keys
      invariant bitstreams.Keys == config.Keys - rest
      invariant forall a | a in bitstreams :: PartialBits(layout, a, config[a]) == Ok(bitstreams[a])
      decreases |rest|
    {
      var address :| address in rest;
      rest := rest - {address};
      var bits := PartialBits(layout, address, config[address]);
      if bits.Err? { return Err(bits.error); }
      bitstreams := bitstreams[address := bits.value];
    }
    PartialNames(layout, config, bitstreams);
    return Ok(bitstreams);
  }

  // ----- What the built strings contain -----

  /** Building fails exactly when some field is missing or out of range. */
  lemma {:induction false} BuiltIffFieldsOk(tree: Tree, address: string, fields: seq<Field>, n: nat)
    requires n <= |fields|
    ensures AddressBits(tree, address, fields, n).Ok?
      <==> forall k | 0 <= k < n :: FieldBits(tree, address, fields[k]).Ok?
    ensures AddressBits(tree, address, fields, n).Ok? ==>
      |AddressBits(tree, address, fields, n).value| == Offset(fields, n)
  {
    if n > 0 { BuiltIffFieldsOk(tree, address, fields, n - 1); }
  }

  /** A built address can be cut at the computed offsets: field `k` sits there. */
  lemma {:induction false} BuiltSlice(tree: Tree, address: string, fields: seq<Field>, n: nat, k: nat)
    requires k < n <= |fields| && AddressBits(tree, address, fields, n).Ok?
    ensures FieldBits(tree, address, fields[k]).Ok?
    ensures
      var bits := AddressBits(tree, address, fields, n).value;
      && Offset(fields, k) + fields[k].size <= |bits|
      && bits[Offset(fields, k)..Offset(fields, k) + fields[k].size] == FieldBits(tree, address, fields[k]).value
  {
    BuiltIffFieldsOk(tree, address, fields, n);
    BuiltIffFieldsOk(tree, address, fields, n - 1);
    if k < n - 1 {
      BuiltSlice(tree, address, fields, n - 1, k);
      SliceOfPrefix(AddressBits(tree, address, fields, n - 1).value, FieldBits(tree, address, fields[n - 1]).value,
                    Offset(fields, k), Offset(fields, k) + fields[k].size);
    }
  }

  lemma {:induction false} SliceOfPrefix(a: BitString, b: BitString, i: nat, j: nat)
    requires i <= j <= |a|
    ensures (a + b)[i..j] == a[i..j]
  {
  }

  // ----- Read-only addresses -----

  lemma {:induction false} ReadOnlyIff()
    ensures forall a :: Writable(a) <==> !exists x: string, y: string :: a == x + "READONLY" + y
  {
    forall a ensures Writable(a) <==> !exists x: string, y: string :: a == x + "READONLY" + y {
      ContainsIff(a, "READONLY");
    }
  }

  lemma {:induction false} ReadOnlyInside(x: string, y: string)
    ensures !Writable(x + "READONLY" + y)
  {
    ContainsIff(x + "READONLY" + y, "READONLY");
  }

  lemma {:induction false} FullNames(layout: AddressRegisterMap, tree: Tree, streams: AddressBitstreamMap)
    requires IsFullConfig(layout, tree, Ok(streams))
    ensures forall a :: a in streams <==> a in layout && !exists x: string, y: string :: a == x + "READONLY" + y
  {
    hide BuildAddress, Writable;
    ReadOnlyIff();
  }

  lemma {:induction false} PartialNames(layout: AddressRegisterMap, tree: Tree, streams: AddressBitstreamMap)
    requires IsPartialConfig(layout, tree, Ok(streams))
    ensures forall a | a in tree :: a in layout && !exists x: string, y: string :: a == x + "READONLY" + y
  {
    hide Writable;
    ReadOnlyIff();
    forall a | a in tree ensures a in layout && Writable(a) { assert PartialBits(layout, a, tree[a]).Ok?; }
  }

  /** An address with READONLY in its name is in no full configuration, and the configuration is the same without it. */
  lemma {:induction false} ReadOnlyAddressIgnored(
    layout: AddressRegisterMap, tree: Tree, a: string, b: string, r: Result<AddressBitstreamMap>)
    ensures IsFullConfig(layout, tree, r) && r.Ok? ==> a + "READONLY" + b !in r.value
    ensures IsFullConfig(layout - {a + "READONLY" + b}, tree, r) <==> IsFullConfig(layout, tree, r)
  {
    hide Writable, BuildAddress;
    ReadOnlyInside(a, b);
    var address := a + "READONLY" + b;
    var rest := layout - {address};
    assert forall x :: x in rest && Writable(x) <==> x in layout && Writable(x);
    assert forall x | x in rest :: rest[x] == layout[x];
  }

  /** A partial configuration that names one is refused, whatever its number. */
  lemma {:induction false} ReadOnlyAddressRefused(
    layout: AddressRegisterMap, tree: Tree, a: string, b: string, r: Result<AddressBitstreamMap>)
    requires a + "READONLY" + b in tree && IsPartialConfig(layout, tree, r)
    ensures PartialBits(layout, a + "READONLY" + b, tree[a + "READONLY" + b]) == Err(WriteToReadOnlyRegister)
    ensures r.Err?
  {
    ReadOnlyInside(a, b);
  }

  /** Every other address of the layout is in the full configuration. */
  lemma {:induction false} OtherAddressBuilt(
    layout: AddressRegisterMap, tree: Tree, address: string, streams: AddressBitstreamMap)
    requires address in layout && IsFullConfig(layout, tree, Ok(streams))
    requires forall a: string, b: string :: address != a + "READONLY" + b
    ensures address in streams
  {
    ReadOnlyIff();
  }

  // ----- One address in plain terms -----

  /** The bits of a field can be made: unused ones always, those of a register from a number in range. */
  predicate FieldFits(tree: Tree, address: string, f: Field) {
    && f.size <= 32
    && (f.name != "NOT_USED" ==> address + "." + f.name in tree && tree[address + "." + f.name] < Pow2(f.size))
  }

  lemma {:induction false} FieldInRange(tree: Tree, address: string, f: Field)
    ensures FieldBits(tree, address, f).Ok? <==> FieldFits(tree, address, f)
    ensures FieldBits(tree, address, f).Ok? ==> |FieldBits(tree, address, f).value| == f.size
  {
    Pow2Of32();
    if f.size <= 32 { Pow2Monotone(f.size, 32); }
    assert Path(address, f.name) == address + "." + f.name;
  }

  /** An address is built exactly when the tree has a node for it and all its fields fit. Unused bits are zeros, and a
      register stands most significant bit first. */
  lemma {:induction false} BuiltAddress(tree: Tree, address: string, fields: seq<Field>)
    ensures BuildAddress(tree, address, fields).Ok? <==>
      && (exists p :: p in tree && (p == address || address + "." <= p))
      && forall k | 0 <= k < |fields| :: FieldFits(tree, address, fields[k])
    ensures BuildAddress(tree, address, fields).Ok? ==>
      && |BuildAddress(tree, address, fields).value| == TotalSize(fields)
      && forall k: nat, j: nat | k < |fields| && j < fields[k].size ::
        BuiltBit(tree, address, fields, BuildAddress(tree, address, fields).value, k, j)
  {
    hide FieldBits, AddressBits, FieldFits, BuiltBit;
    BuiltIffFieldsOk(tree, address, fields, |fields|);
    forall k | 0 <= k < |fields|
      ensures FieldBits(tree, address, fields[k]).Ok? <==> FieldFits(tree, address, fields[k])
    {
      FieldInRange(tree, address, fields[k]);
    }
    if BuildAddress(tree, address, fields).Ok? {
      forall k: nat, j: nat | k < |fields| && j < fields[k].size
        ensures BuiltBit(tree, address, fields, BuildAddress(tree, address, fields).value, k, j)
      {
        FieldStands(tree, address, fields, k, j);
      }
    }
  }

  /** Bit `j` of field `k`, counted from its most significant one. */
  predicate BuiltBit(tree: Tree, address: string, fields: seq<Field>, bits: BitString, k: nat, j: nat)
    requires k < |fields| && j < fields[k].size
  {
    var name := address + "." + fields[k].name;
    && Offset(fields, k) + j < |bits|
    && (fields[k].name == "NOT_USED" ==> !bits[Offset(fields, k) + j])
    && (fields[k].name != "NOT_USED" ==>
         name in tree && bits[Offset(fields, k) + j] == Bit(tree[name], fields[k].size - 1 - j))
  }

  lemma {:induction false} FieldStands(tree: Tree, address: string, fields: seq<Field>, k: nat, j: nat)
    requires AddressBits(tree, address, fields, |fields|).Ok? && k < |fields| && j < fields[k].size
    ensures BuiltBit(tree, address, fields, AddressBits(tree, address, fields, |fields|).value, k, j)
  {
    hide AddressBits, Offset, ToBits, Bit;
    BuiltSlice(tree, address, fields, |fields|, k);
    FieldInRange(tree, address, fields[k]);
    assert Path(address, fields[k].name) == address + "." + fields[k].name;
    var bits, o := AddressBits(tree, address, fields, |fields|).value, Offset(fields, k);
    assert bits[o..o + fields[k].size][j] == bits[o + j];
    BitOfZero(fields[k].size - 1 - j);
    hide FieldFits;
    if fields[k].name == "NOT_USED" {
      ToBitsAt(0, fields[k].size, j);
    } else {
      ToBitsAt(tree[Path(address, fields[k].name)], fields[k].size, j);
    }
  }

  /** If an address cannot be built, it has no node, or the first field that does not fit says why. */
  lemma {:induction false} AddressError(tree: Tree, address: string, fields: seq<Field>) returns (k: nat)
    requires BuildAddress(tree, address, fields).Err?
    ensures (forall p | p in tree :: p != address && !(address + "." <= p)) ==>
      BuildAddress(tree, address, fields) == Err(MissingI2cAddress)
    ensures (exists p :: p in tree && (p == address || address + "." <= p)) ==>
      && k < |fields| && !FieldFits(tree, address, fields[k])
      && (forall j | 0 <= j < k :: FieldFits(tree, address, fields[j]))
      && BuildAddress(tree, address, fields) == Err(
        var name := address + "." + fields[k].name;
        if fields[k].name == "NOT_USED" then OutOfRange
        else if name !in tree then MissingI2cRegister
        else if tree[name] >= 0x1_0000_0000 then BadData
        else if tree[name] >= Pow2(fields[k].size) then RegisterOverflow
        else OutOfRange)
  {
    hide FieldBits, AddressBits, FieldFits;
    if HasAddress(tree, address) {
      k := FirstBadField(tree, address, fields, |fields|);
      FieldError(tree, address, fields[k]);
    } else {
      k := 0;
    }
  }

  lemma {:induction false} FirstBadField(tree: Tree, address: string, fields: seq<Field>, n: nat) returns (k: nat)
    requires n <= |fields| && AddressBits(tree, address, fields, n).Err?
    ensures k < n && !FieldFits(tree, address, fields[k])
    ensures forall j | 0 <= j < k :: FieldFits(tree, address, fields[j])
    ensures AddressBits(tree, address, fields, n) == FieldBits(tree, address, fields[k])
  {
    hide FieldBits, FieldFits;
    if AddressBits(tree, address, fields, n - 1).Err? {
      k := FirstBadField(tree, address, fields, n - 1);
    } else {
      k := n - 1;
      FieldInRange(tree, address, fields[k]);
      BuiltIffFieldsOk(tree, address, fields, n - 1);
      forall j | 0 <= j < k ensures FieldFits(tree, address, fields[j]) { FieldInRange(tree, address, fields[j]); }
    }
  }

  lemma {:induction false} FieldError(tree: Tree, address: string, f: Field)
    requires !FieldFits(tree, address, f)
    ensures FieldBits(tree, address, f) == Err(
      var name := address + "." + f.name;
      if f.name == "NOT_USED" then OutOfRange
      else if name !in tree then MissingI2cRegister
      else if tree[name] >= 0x1_0000_0000 then BadData
      else if tree[name] >= Pow2(f.size) then RegisterOverflow
      else OutOfRange)
  {
    assert Path(address, f.name) == address + "." + f.name;
  }

  /** A node of a partial configuration in plain terms: which ones are accepted, why not, and their bits. */
  lemma {:induction false} PartialAddress(layout: AddressRegisterMap, address: string, value: nat)
    ensures
      var r := PartialBits(layout, address, value);
      if exists x: string, y: string :: address == x + "READONLY" + y then r == Err(WriteToReadOnlyRegister)
      else if value >= 0x1_0000_0000 then r == Err(BadData)
      else if address !in layout || TotalSize(layout[address]) > 128 then r == Err(OutOfRange)
      else
        && r.Ok? && |r.value| == TotalSize(layout[address])
        && forall j | 0 <= j < |r.value| :: r.value[j] == Bit(value, |r.value| - 1 - j)
  {
    ReadOnlyIff();
    hide Writable;
    var r := PartialBits(layout, address, value);
    if r.Ok? {
      forall j | 0 <= j < |r.value| ensures r.value[j] == Bit(value, |r.value| - 1 - j) {
        ToBitsAt(value, |r.value|, j);
      }
    }
  }
}
