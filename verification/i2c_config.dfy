/** The codec object with its position tables, and the configuration object whose fields are edited in
    place (src/I2cMasterConfig.cpp). The specification of an edit is `SetStep` on the plain bit-string
    map; what whole sequences of edits do to the fields is proved about it. */
module I2cConfig {
  import opened Bits
  import opened Utility
  import opened I2cMaster

  method CalculateSizesAndPositions(
    arMap: AddressRegisterMap)
    returns (totals: map<string, nat>, tables: map<string, Tables>)
    ensures totals.Keys == tables.Keys == arMap.Keys
    ensures forall a | a in arMap :: totals[a] == TotalSize(arMap[a])
    ensures forall a | a in arMap :: tables[a] == TablesUpTo(arMap[a], |arMap[a]|)
  {
    totals, tables := map[], map[];
    var rest := arMap.Keys;
    while rest != {}
      invariant rest <= arMap.Keys
      invariant totals.Keys == tables.Keys == arMap.Keys - rest
      invariant forall a | a in totals :: totals[a] == TotalSize(arMap[a])
      invariant forall a | a in tables :: tables[a] == TablesUpTo(arMap[a], |arMap[a]|)
      decreases |rest|
    {
      var address :| address in rest;
      rest := rest - {address};
      var total, table := SizesAndPositions(arMap[address]);
      totals, tables := totals[address := total], tables[address := table];
    }
  }

  class I2cMasterCodec {
    const addrReg: AddressRegisterMap
    const addrSize: map<string, nat>
    const tables: map<string, Tables>  // addr_reg_pos and addr_reg_size

    ghost predicate Valid() {
      && addrSize.Keys == tables.Keys == addrReg.Keys
      && (forall a | a in addrReg :: addrSize[a] == TotalSize(addrReg[a]))
      && (forall a | a in addrReg :: tables[a] == TablesUpTo(addrReg[a], |addrReg[a]|))
    }

    constructor (arMap: AddressRegisterMap)
      ensures Valid() && addrReg == arMap
    {
      var totals, tables := CalculateSizesAndPositions(arMap);
      addrReg, addrSize, this.tables := arMap, totals, tables;
    }

    /** Both lookups that precede every field access. */
    function Find(address: string, register: string): Result<(nat, nat)> {
      if address !in tables then Err(NoSuchI2cAddress)
      else if register !in tables[address].position then Err(NoSuchI2cRegister)
      else if register !in tables[address].size then Err(OutOfRange)
      else Ok((tables[address].position[register], tables[address].size[register]))
    }

    function GetTotalSize(address: string): Result<nat> {
      if address in addrSize then Ok(addrSize[address]) else Err(NoSuchI2cAddress)
    }
  }

  /** A lookup in the tables finds the field of that name. */
  lemma {:induction false} FindField(c: I2cMasterCodec, address: string, register: string)
    requires c.Valid() && address in c.addrReg
    ensures
      var k := IndexOf(c.addrReg[address], register);
      c.Find(address, register) ==
        if k < 0 then Err(NoSuchI2cRegister) else Ok((Offset(c.addrReg[address], k), c.addrReg[address][k].size))
  {
    TablesLocate(c.addrReg[address], |c.addrReg[address]|, register);
  }

  // ----- Reading and writing one field -----

  /** `std::stoul` in base two. */
  function Stoul(s: BitString): Result<nat> {
    if s == [] then Err(InvalidArgument)
    else if FromBits(s) >= TWO_64 then Err(OutOfRange)
    else Ok(FromBits(s))
  }

  /** `std::string::substr`: throws when the position is beyond the end, shortens the length otherwise. */
  function Substr(s: BitString, pos: nat, len: nat): Result<BitString> {
    if pos > |s| then Err(OutOfRange) else Ok(s[pos..Min(pos + len, |s|)])
  }

  function GetStep(c: I2cMasterCodec, bs: AddressBitstreamMap, address: string, register: string): Result<nat>
  {
    var found := c.Find(address, register);
    if found.Err? then Err(found.error)
    else if address !in bs then Err(OutOfRange)
    else
      var tmp := Substr(bs[address], found.value.0, found.value.1);
      if tmp.Err? then Err(tmp.error)
      else
        var n := Stoul(tmp.value);
        if n.Err? then n else Ok(n.value % TWO_32)
  }

  datatype SetOp = SetOp(address: string, register: string, value: nat)

  datatype SetResult = SetResult(error: Option<Error>, streams: AddressBitstreamMap)

  /** `operator[]` creates the entry it does not find, also when the replacement then throws. */
  function SetStep(c: I2cMasterCodec, bs: AddressBitstreamMap, op: SetOp): SetResult
  {
    var found := c.Find(op.address, op.register);
    if found.Err? then SetResult(Some(found.error), bs)
    else
      var (pos, size) := found.value;
      if Overflows(size, op.value) then SetResult(Some(RegisterOverflow), bs)
      else if size > MAX_REGISTER_SIZE then SetResult(Some(OutOfRange), bs)
      else
        var entry := if op.address in bs then bs[op.address] else [];
        if pos > |entry| then SetResult(Some(OutOfRange), bs[op.address := entry])
        else SetResult(None, bs[op.address := Replace(entry, pos, size, ToBits(op.value, size))])
  }

  /** `std::string::replace` */
  function Replace(s: BitString, pos: nat, len: nat, with: BitString): BitString
    requires pos <= |s|
  {
    s[..pos] + with + s[Min(pos + len, |s|)..]
  }

  class I2cMasterConfig {
    const codec: I2cMasterCodec
    var addressBitstream: AddressBitstreamMap

    constructor (codec: I2cMasterCodec, streams: AddressBitstreamMap)
      ensures this.codec == codec && addressBitstream == streams
    {
      this.codec := codec;
      addressBitstream := streams;
    }

    /** The constructor of the source: build the codec, then the full or the partial bit strings. */
    static method Create(config: Tree, reg: AddressRegisterMap, partial: bool) returns (r: Result<I2cMasterConfig>)
      ensures r.Ok? ==> fresh(r.value) && r.value.codec.Valid() && r.value.codec.addrReg == reg
      ensures r.Ok? ==> !partial ==> IsFullConfig(reg, config, Ok(r.value.addressBitstream))
      ensures r.Ok? ==> partial ==> IsPartialConfig(reg, config, Ok(r.value.addressBitstream))
      ensures r.Err? ==> !partial ==> IsFullConfig(reg, config, Err(r.error))
      ensures r.Err? ==> partial ==> IsPartialConfig(reg, config, Err(r.error))
    {
      var c := new I2cMasterCodec(reg);
      var streams: Result<AddressBitstreamMap>;
      if partial {
        streams := BuildPartialConfig(reg, config);
      } else {
        streams := BuildConfig(reg, config);
      }
      if streams.Err? { return Err(streams.error); }
      var master := new I2cMasterConfig(c, streams.value);
      return Ok(master);
    }

    method GetRegisterValue(address: string, register: string) returns (r: Result<nat>)
      ensures r == GetStep(codec, addressBitstream, address, register)
    {
      var found := codec.Find(address, register);
      if found.Err? { return Err(found.error); }
      if address !in addressBitstream { return Err(OutOfRange); }
      var tmp := Substr(addressBitstream[address], found.value.0, found.value.1);
      if tmp.Err? { return Err(tmp.error); }
      var n := Stoul(tmp.value);
      return if n.Err? then n else Ok(n.value % TWO_32);
    }

    method SetRegisterValue(address: string, register: string, value: nat) returns (error: Option<Error>)
      requires value < TWO_32
      modifies this`addressBitstream
      ensures SetResult(error, addressBitstream)
        == SetStep(codec, old(addressBitstream), SetOp(address, register, value))
    {
      var found := codec.Find(address, register);
      if found.Err? { return Some(found.error); }
      var pos, size := found.value.0, found.value.1;
      if Overflows(size, value) { return Some(RegisterOverflow); }
      if size > MAX_REGISTER_SIZE { return Some(OutOfRange); }
      if address !in addressBitstream { addressBitstream := addressBitstream[address := []]; }
      var entry := addressBitstream[address];
      if pos > |entry| {
        assert addressBitstream == old(addressBitstream)[address := entry];
        return Some(OutOfRange);
      }
      addressBitstream := addressBitstream[address := Replace(entry, pos, size, ToBits(value, size))];
      assert addressBitstream == old(addressBitstream)[address := Replace(entry, pos, size, ToBits(value, size))];
      return None;
    }

    /** The values printed for a vector read back from the device. */
    method DecodeVector(address: string, vec: seq<Byte>) returns (r: Result<map<string, nat>>)
      requires codec.Valid()
      ensures address !in codec.addrReg ==> r == Err(NoSuchI2cAddress)
      ensures address in codec.addrReg && 8 * |vec| != TotalSize(codec.addrReg[address]) ==> r == Err(I2cSizeMismatch)
      ensures address in codec.addrReg && 8 * |vec| == TotalSize(codec.addrReg[address]) ==>
        Decodes(codec, address, vec, r)
    {
      if address !in codec.tables { return Err(NoSuchI2cAddress); }
      if 8 * |vec| != codec.GetTotalSize(address).value { return Err(I2cSizeMismatch); }
      r := DecodeFields(codec, address, vec);
    }
  }

  /** Every named field of the vector, or the error of one of them. */
  ghost predicate Decodes(c: I2cMasterCodec, address: string, vec: seq<Byte>, r: Result<map<string, nat>>)
    requires address in c.tables
  {
    match r
    case Ok(values) =>
      && values.Keys == c.tables[address].size.Keys
      && forall n | n in values :: DecodedField(c, address, n, vec) == Ok(values[n])
    case Err(e) =>
      exists n :: n in c.tables[address].size && DecodedField(c, address, n, vec) == Err(e)
  }

  method DecodeFields(c: I2cMasterCodec, address: string, vec: seq<Byte>) returns (r: Result<map<string, nat>>)
    requires address in c.tables
    ensures Decodes(c, address, vec, r)
  {
    var printed: map<string, nat> := map[];
    var rest := c.tables[address].size.Keys;
    while rest != {}
      invariant rest <= c.tables[address].size.Keys
      invariant printed.Keys == c.tables[address].size.Keys - rest
      invariant forall n | n in printed :: DecodedField(c, address, n, vec) == Ok(printed[n])
      decreases |rest|
    {
      var name :| name in rest;
      rest := rest - {name};
      var value := DecodedField(c, address, name, vec);
      if value.Err? { return Err(value.error); }
      printed := printed[name := value.value];
    }
    return Ok(printed);
  }

  function DecodedField(c: I2cMasterCodec, address: string, name: string, vec: seq<Byte>): Result<nat> {
    var found := c.Find(address, name);
    if found.Err? then Err(found.error)
    else
      var tmp := Substr(VectorToBits(vec), found.value.0, found.value.1);
      if tmp.Err? then Err(tmp.error) else Stoul(tmp.value)
  }

  // ----- What a sequence of edits does -----

  ghost predicate FieldsWellFormed(c: I2cMasterCodec) {
    forall a | a in c.addrReg :: WellFormed(c.addrReg[a])
  }

  /** Field `k` of a bit string laid out as `fields`. */
  function FieldValue(fields: seq<Field>, bits: BitString, k: nat): nat
    requires k < |fields| && |bits| == TotalSize(fields)
  {
    OffsetMonotone(fields, k, |fields|);
    FromBits(bits[Offset(fields, k)..Offset(fields, k) + fields[k].size])
  }

  predicate InField(fields: seq<Field>, k: nat, i: nat)
    requires k < |fields|
  {
    Offset(fields, k) <= i < Offset(fields, k) + fields[k].size
  }

  function Run(c: I2cMasterCodec, bs: AddressBitstreamMap, ops: seq<SetOp>): AddressBitstreamMap
  {
    if ops == [] then bs else SetStep(c, Run(c, bs, ops[..|ops| - 1]), ops[|ops| - 1]).streams
  }

  /** The plain map: the last accepted write of a field wins, anything else leaves it alone. */
  function LastWrite(fields: seq<Field>, address: string, k: nat, initial: nat, ops: seq<SetOp>): nat
    requires k < |fields|
  {
    if ops == [] then initial
    else
      var op := ops[|ops| - 1];
      if op.address == address && Accepts(fields, k, op) then op.value
      else LastWrite(fields, address, k, initial, ops[..|ops| - 1])
  }

  /** Nothing but accepted writes touches position `i`. */
  ghost predicate NeverWritten(fields: seq<Field>, address: string, i: nat, ops: seq<SetOp>) {
    forall j, k | 0 <= j < |ops| && ops[j].address == address && Accepts(fields, k, ops[j]) :: !InField(fields, k, i)
  }

  lemma {:induction false} FieldsApart(fields: seq<Field>, j: nat, k: nat)
    requires j < |fields| && k < |fields| && j != k
    ensures Offset(fields, j) + fields[j].size <= Offset(fields, k)
      || Offset(fields, k) + fields[k].size <= Offset(fields, j)
  {
    if j < k { OffsetMonotone(fields, j, k); } else { OffsetMonotone(fields, k, j); }
  }

  lemma {:induction false} SetFound(c: I2cMasterCodec, bs: AddressBitstreamMap, op: SetOp, pos: nat, size: nat)
    requires c.Find(op.address, op.register) == Ok((pos, size))
    requires op.address in bs && pos + size <= |bs[op.address]| && size <= MAX_REGISTER_SIZE
    ensures
      SetStep(c, bs, op) ==
        if Overflows(size, op.value) then SetResult(Some(RegisterOverflow), bs)
        else SetResult(None, bs[op.address := Replace(bs[op.address], pos, size, ToBits(op.value, size))])
  {
  }

  lemma {:induction false} Replaced(s: BitString, pos: nat, bits: BitString)
    requires pos + |bits| <= |s|
    ensures
      var r := Replace(s, pos, |bits|, bits);
      && |r| == |s|
      && r[pos..pos + |bits|] == bits
      && forall i | 0 <= i < |s| && !(pos <= i < pos + |bits|) :: r[i] == s[i]
  {
  }

  /** `end` is `mid` with field `k` overwritten by `value`. */
  ghost predicate Wrote(fields: seq<Field>, mid: BitString, end: BitString, k: nat, value: nat)
    requires k < |fields| && |mid| == TotalSize(fields)
  {
    && |end| == |mid|
    && FieldValue(fields, end, k) == value
    && forall i | 0 <= i < |mid| && !InField(fields, k, i) :: end[i] == mid[i]
  }

  /** The edit names field `k` and its value fits there. */
  predicate Accepts(fields: seq<Field>, k: int, op: SetOp) {
    Named(fields, k) && fields[k].name == op.register && !Overflows(fields[k].size, op.value)
  }

  lemma {:induction false} AcceptsIndexed(fields: seq<Field>, op: SetOp)
    ensures forall j | Accepts(fields, j, op) :: IndexOf(fields, op.register) >= j
  {
    forall j | Accepts(fields, j, op) ensures IndexOf(fields, op.register) >= j {
      IndexIsLast(fields, |fields|, op.register, j);
    }
  }

  /** One edit on an address that is present: only the named field changes, to exactly the new value. */
  lemma {:induction false} SetOneField(c: I2cMasterCodec, bs: AddressBitstreamMap, op: SetOp)
    requires c.Valid() && op.address in c.addrReg && WellFormed(c.addrReg[op.address])
    requires op.address in bs && |bs[op.address]| == TotalSize(c.addrReg[op.address])
    ensures
      var fields := c.addrReg[op.address];
      var res := SetStep(c, bs, op);
      && (res.error.None? <==> exists k :: Accepts(fields, k, op))
      && (res.error.Some? ==> res.streams == bs)
      && res.streams.Keys == bs.Keys
      && (forall k | Accepts(fields, k, op) :: Wrote(fields, bs[op.address], res.streams[op.address], k, op.value))
  {
    var fields := c.addrReg[op.address];
    FindField(c, op.address, op.register);
    var k := IndexOf(fields, op.register);
    if k >= 0 {
      var pos, size := Offset(fields, k), fields[k].size;
      OffsetMonotone(fields, k, |fields|);
      SetFound(c, bs, op, pos, size);
      if !Overflows(size, op.value) {
        assert Accepts(fields, k, op);
        FromToBits(op.value, size);
        Replaced(bs[op.address], pos, ToBits(op.value, size));
      }
    }
    AcceptsIndexed(fields, op);
  }

  /** The state of one address that was present at the start, after any sequence of edits at all:
      every field holds its last accepted value and every other bit is as it was. */
  ghost predicate Refines(fields: seq<Field>, address: string, before: BitString, after: BitString, ops: seq<SetOp>)
    requires |before| == TotalSize(fields)
  {
    && |after| == TotalSize(fields)
    && (forall k | Named(fields, k) ::
         FieldValue(fields, after, k) == LastWrite(fields, address, k, FieldValue(fields, before, k), ops))
    && (forall i | 0 <= i < |before| && NeverWritten(fields, address, i, ops) :: after[i] == before[i])
  }

  lemma {:induction false} EditsRefinePlainMap(
    c: I2cMasterCodec, bs: AddressBitstreamMap, ops: seq<SetOp>, address: string)
    requires c.Valid() && FieldsWellFormed(c)
    requires address in bs && address in c.addrReg && |bs[address]| == TotalSize(c.addrReg[address])
    ensures address in Run(c, bs, ops)
    ensures Refines(c.addrReg[address], address, bs[address], Run(c, bs, ops)[address], ops)
  {
    if ops != [] {
      var init, op := ops[..|ops| - 1], ops[|ops| - 1];
      assert init + [op] == ops;
      EditsRefinePlainMap(c, bs, init, address);
      var mid := Run(c, bs, init);
      if op.address == address {
        SetOneField(c, mid, op);
        StepRefines(c.addrReg[address], address, bs[address], mid[address], SetStep(c, mid, op).streams[address], init,
          op);
      } else {
        SetElsewhere(c, mid, op, address);
        ElsewhereRefines(c.addrReg[address], address, bs[address], mid[address], init, op);
      }
    }
  }

  lemma {:induction false} SetElsewhere(c: I2cMasterCodec, bs: AddressBitstreamMap, op: SetOp, address: string)
    requires op.address != address && address in bs
    ensures address in SetStep(c, bs, op).streams && SetStep(c, bs, op).streams[address] == bs[address]
  {
  }

  lemma {:induction false} ElsewhereRefines(
    fields: seq<Field>, address: string, before: BitString, after: BitString, init: seq<SetOp>, op: SetOp)
    requires |before| == TotalSize(fields) && op.address != address
    requires Refines(fields, address, before, after, init)
    ensures Refines(fields, address, before, after, init + [op])
  {
    assert (init + [op])[..|init|] == init;
    forall i | 0 <= i < |before| && NeverWritten(fields, address, i, init + [op])
      ensures after[i] == before[i]
    {
      NeverWrittenPrefix(fields, address, i, init, op);
    }
  }

  lemma {:induction false} NeverWrittenPrefix(fields: seq<Field>, address: string, i: nat, init: seq<SetOp>, op: SetOp)
    requires NeverWritten(fields, address, i, init + [op])
    ensures NeverWritten(fields, address, i, init)
    ensures op.address == address ==> forall k | Accepts(fields, k, op) :: !InField(fields, k, i)
  {
    forall j, k | 0 <= j < |init| && init[j].address == address && Accepts(fields, k, init[j])
      ensures !InField(fields, k, i)
    {
      assert (init + [op])[j] == init[j];
    }
    assert (init + [op])[|init|] == op;
  }

  lemma {:induction false} StepRefines(
    fields: seq<Field>, address: string, before: BitString, mid: BitString, end: BitString, init: seq<SetOp>,
    op: SetOp)
    requires WellFormed(fields) && op.address == address
    requires |before| == TotalSize(fields) && Refines(fields, address, before, mid, init)
    requires |end| == TotalSize(fields)
    requires (forall k :: !Accepts(fields, k, op)) ==> end == mid
    requires forall k | Accepts(fields, k, op) :: Wrote(fields, mid, end, k, op.value)
    ensures Refines(fields, address, before, end, init + [op])
  {
    hide FromBits;
    var ops := init + [op];
    assert ops[..|ops| - 1] == init;
    forall k | Named(fields, k)
      ensures FieldValue(fields, end, k) == LastWrite(fields, address, k, FieldValue(fields, before, k), ops)
    {
      if m :| Accepts(fields, m, op) {
        if m != k {
          FieldsApart(fields, m, k);
          OffsetMonotone(fields, k, |fields|);
          var lo, hi := Offset(fields, k), Offset(fields, k) + fields[k].size;
          assert end[lo..hi] == mid[lo..hi];
        }
      }
    }
    forall i | 0 <= i < |before| && NeverWritten(fields, address, i, ops)
      ensures end[i] == before[i]
    {
      NeverWrittenPrefix(fields, address, i, init, op);
    }
  }

  lemma {:induction false} GetFound(
    c: I2cMasterCodec, bs: AddressBitstreamMap, address: string, register: string, pos: nat, size: nat)
    requires c.Find(address, register) == Ok((pos, size))
    requires address in bs && pos + size <= |bs[address]| && 1 <= size <= MAX_REGISTER_SIZE
    ensures GetStep(c, bs, address, register) == Ok(FromBits(bs[address][pos..pos + size]))
  {
    var slice := bs[address][pos..pos + size];
    FitsWord(slice);
    assert slice != [];
  }

  lemma {:induction false} GetField(c: I2cMasterCodec, bs: AddressBitstreamMap, address: string, k: nat)
    requires c.Valid() && address in c.addrReg && WellFormed(c.addrReg[address])
    requires address in bs && |bs[address]| == TotalSize(c.addrReg[address])
    requires Named(c.addrReg[address], k)
    ensures GetStep(c, bs, address, c.addrReg[address][k].name) == Ok(FieldValue(c.addrReg[address], bs[address], k))
  {
    var fields := c.addrReg[address];
    FindField(c, address, fields[k].name);
    OffsetMonotone(fields, k, |fields|);
    GetFound(c, bs, address, fields[k].name, Offset(fields, k), fields[k].size);
  }

  /** Reading a field after any sequence of edits returns its last accepted write. */
  lemma {:induction false} GetAfterEdits(
    c: I2cMasterCodec, bs: AddressBitstreamMap, ops: seq<SetOp>, address: string, k: nat)
    requires c.Valid() && FieldsWellFormed(c)
    requires address in bs && address in c.addrReg && |bs[address]| == TotalSize(c.addrReg[address])
    requires Named(c.addrReg[address], k)
    ensures
      var fields := c.addrReg[address];
      GetStep(c, Run(c, bs, ops), address, fields[k].name)
        == Ok(LastWrite(fields, address, k, FieldValue(fields, bs[address], k), ops))
  {
    EditsRefinePlainMap(c, bs, ops, address);
    GetField(c, Run(c, bs, ops), address, k);
  }

  lemma {:induction false} FitsWord(s: BitString)
    requires |s| <= MAX_REGISTER_SIZE
    ensures FromBits(s) < TWO_32
  {
    ToFromBits(s);
    Pow2Monotone(|s|, 32);
    Pow2Of32();
  }

  /** A failing edit leaves the bit strings alone, except in exactly one case: the address is known to
      the codec but absent from the bit strings (read-only, or not part of a partial configuration), and
      the field does not start the register. Then an empty entry stays behind. */
  lemma {:induction false} FailingEditChangesSomething(c: I2cMasterCodec, bs: AddressBitstreamMap, op: SetOp)
    requires c.Valid() && FieldsWellFormed(c)
    ensures SetStep(c, bs, op).error.Some? && SetStep(c, bs, op).streams != bs <==>
      && op.address !in bs && op.address in c.addrReg
      && exists k :: Accepts(c.addrReg[op.address], k, op) && Offset(c.addrReg[op.address], k) > 0
  {
    if op.address !in bs && op.address in c.addrReg {
      FindField(c, op.address, op.register);
      var fields := c.addrReg[op.address];
      AcceptsIndexed(fields, op);
      var k := IndexOf(fields, op.register);
      if k >= 0 {
        SetMissing(c, bs, op, Offset(fields, k), fields[k].size);
        assert Accepts(fields, k, op) <==> !Overflows(fields[k].size, op.value);
        assert forall j | Accepts(fields, j, op) :: j == k;
      }
    }
  }

  lemma {:induction false} SetMissing(c: I2cMasterCodec, bs: AddressBitstreamMap, op: SetOp, pos: nat, size: nat)
    requires c.Find(op.address, op.register) == Ok((pos, size))
    requires op.address !in bs && size <= MAX_REGISTER_SIZE
    ensures SetStep(c, bs, op).error.Some? && SetStep(c, bs, op).streams != bs
      <==> !Overflows(size, op.value) && pos > 0
  {
    assert op.address in bs[op.address := []];
  }

  /** Bytes made from a built configuration decode to the very values it was built from. */
  lemma {:induction false} DecodeRecoversConfig(c: I2cMasterCodec, tree: Tree, address: string, k: nat)
    requires c.Valid() && FieldsWellFormed(c) && address in c.addrReg && Named(c.addrReg[address], k)
    requires BuildAddress(tree, address, c.addrReg[address]).Ok?
    requires TotalSize(c.addrReg[address]) % 8 == 0
    ensures
      var vec := StringToBytes(BuildAddress(tree, address, c.addrReg[address]).value);
      && 8 * |vec| == TotalSize(c.addrReg[address])
      && Path(address, c.addrReg[address][k].name) in tree
      && DecodedField(c, address, c.addrReg[address][k].name, vec)
        == Ok(tree[Path(address, c.addrReg[address][k].name)])
  {
    hide ToBits, FromBits, Pow2, StringToBytes, VectorToBits, Path;
    var fields := c.addrReg[address];
    var bits := BuildAddress(tree, address, fields).value;
    BuiltIffFieldsOk(tree, address, fields, |fields|);
    BitsSurviveBytes(bits);
    BuiltSlice(tree, address, fields, |fields|, k);
    FindField(c, address, fields[k].name);
    var value := tree[Path(address, fields[k].name)];
    FromToBits(value, fields[k].size);
    assert FieldBits(tree, address, fields[k]).value != [];
  }

  // ----- Single calls in plain terms -----

  /** A register is printed as the number in its digits, for every vector of the right size. */
  lemma {:induction false} DecodedMeans(c: I2cMasterCodec, address: string, k: nat, vec: seq<Byte>)
    requires c.Valid() && FieldsWellFormed(c) && address in c.addrReg && Named(c.addrReg[address], k)
    requires 8 * |vec| == TotalSize(c.addrReg[address])
    ensures
      var f, pos := c.addrReg[address][k], Offset(c.addrReg[address], k);
      && pos + f.size <= |VectorToBits(vec)|
      && DecodedField(c, address, f.name, vec) == Ok(FromBits(VectorToBits(vec)[pos..pos + f.size]))
  {
    hide FromBits, VectorToBits, Pow2;
    var fields := c.addrReg[address];
    FindField(c, address, fields[k].name);
    OffsetMonotone(fields, k, |fields|);
    FitsWord(VectorToBits(vec)[Offset(fields, k)..Offset(fields, k) + fields[k].size]);
  }

  /** An address or a register that the layout does not have is refused, reading and writing, and changes nothing.
      Unused bits have no name. */
  lemma {:induction false} UnknownNames(
    c: I2cMasterCodec, bs: AddressBitstreamMap, address: string, register: string, value: nat)
    requires c.Valid()
    ensures address !in c.addrReg ==>
      && GetStep(c, bs, address, register) == Err(NoSuchI2cAddress)
      && SetStep(c, bs, SetOp(address, register, value)) == SetResult(Some(NoSuchI2cAddress), bs)
    ensures
      && address in c.addrReg
      && (register == "NOT_USED" || forall k | 0 <= k < |c.addrReg[address]| :: c.addrReg[address][k].name != register)
      ==>
      && GetStep(c, bs, address, register) == Err(NoSuchI2cRegister)
      && SetStep(c, bs, SetOp(address, register, value)) == SetResult(Some(NoSuchI2cRegister), bs)
  {
    hide Stoul, Substr, Replace;
    if address in c.addrReg { FindField(c, address, register); }
  }

  /** A register that the layout has: what reading it does with the bit string at hand, be it absent or too short. */
  lemma {:induction false} ReadKnown(c: I2cMasterCodec, bs: AddressBitstreamMap, address: string, k: nat)
    requires c.Valid() && FieldsWellFormed(c) && address in c.addrReg && Named(c.addrReg[address], k)
    ensures
      var f, pos := c.addrReg[address][k], Offset(c.addrReg[address], k);
      GetStep(c, bs, address, f.name) ==
        if address !in bs || pos > |bs[address]| then Err(OutOfRange)
        else if pos == |bs[address]| then Err(InvalidArgument)
        else if pos + f.size <= |bs[address]| then Ok(FromBits(bs[address][pos..pos + f.size]))
        else Ok(FromBits(bs[address][pos..]))
  {
    hide FromBits, Offset, Pow2;
    FindField(c, address, c.addrReg[address][k].name);
    var f, pos := c.addrReg[address][k], Offset(c.addrReg[address], k);
    if address in bs && pos <= |bs[address]| {
      var slice := bs[address][pos..Min(pos + f.size, |bs[address]|)];
      FitsWord(slice);
      assert slice == [] <==> pos == |bs[address]|;
      assert pos + f.size > |bs[address]| ==> slice == bs[address][pos..];
    }
  }

  /** And writing it. */
  lemma {:induction false} WriteKnown(
    c: I2cMasterCodec, bs: AddressBitstreamMap, address: string, k: nat, value: nat)
    requires c.Valid() && FieldsWellFormed(c) && address in c.addrReg && Named(c.addrReg[address], k)
    ensures
      var f, pos := c.addrReg[address][k], Offset(c.addrReg[address], k);
      SetStep(c, bs, SetOp(address, f.name, value)) ==
        if value >= Pow2(f.size) then SetResult(Some(RegisterOverflow), bs)
        else if address !in bs then
          if pos > 0 then SetResult(Some(OutOfRange), bs[address := []])
          else SetResult(None, bs[address := ToBits(value, f.size)])
        else if pos > |bs[address]| then SetResult(Some(OutOfRange), bs)
        else if pos + f.size <= |bs[address]| then
          SetResult(None, bs[address := bs[address][..pos] + ToBits(value, f.size) + bs[address][pos + f.size..]])
        else SetResult(None, bs[address := bs[address][..pos] + ToBits(value, f.size)])
  {
    hide ToBits, Offset, Pow2;
    FindField(c, address, c.addrReg[address][k].name);
    var f, pos := c.addrReg[address][k], Offset(c.addrReg[address], k);
    var entry, bits := if address in bs then bs[address] else [], ToBits(value, f.size);
    assert address in bs ==> bs[address := entry] == bs;
    if pos <= |entry| {
      assert pos + f.size > |entry| ==> Replace(entry, pos, f.size, bits) == entry[..pos] + bits;
      assert entry == [] ==> entry[..pos] + bits == bits;
    }
  }
}
