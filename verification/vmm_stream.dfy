/** The whole VMM stream (src/VMMCodec.cpp, buildConfig) and what can be read back from it. */
module VmmStream {
  import opened Bits
  import opened I2cMaster
  import opened VmmCodec

  const NBITS_TOTAL: nat := 1728
  const GLOBAL_0_START: nat := 1632
  const CHANNELS_START: nat := 96

  /** All channel registers of the tree. */
  function ChannelRegisters(config: Config): (r: Built<ChannelRegisterMap>)
    ensures r.Good? ==> Filled(r.value, CHANNEL_FIELDS)
  {
    ChannelMapIff(config, CHANNEL_FIELDS, |CHANNEL_FIELDS|);
    ChannelMap(config, CHANNEL_FIELDS, |CHANNEL_FIELDS|)
  }

  function BuildStream(config: Config): Built<BitString> {
    var g1 := GlobalBits(config, GLOBAL_FIELDS_1, |GLOBAL_FIELDS_1|);
    if g1.Bad? then g1
    else
      var regs := ChannelRegisters(config);
      if regs.Bad? then Bad(regs.error)
      else
        var g0 := GlobalBits(config, GLOBAL_FIELDS_0, |GLOBAL_FIELDS_0|);
        if g0.Bad? then g0
        else Good(g1.value + ChannelStream(regs.value, CHANNEL_FIELDS, NUM_CH_PER_VMM) + g0.value)
  }

  method Build(config: Config) returns (r: Built<BitString>)
    ensures r == BuildStream(config)
  {
    hide GlobalBits, ChannelStream, Filled;
    var g1 := BuildGlobalConfig(config, GLOBAL_FIELDS_1);
    if g1.Bad? { return g1; }
    var regs := BuildChannelRegisterMap(config);
    if regs.Bad? { return Bad(regs.error); }
    assert Filled(ChannelRegisters(config).value, CHANNEL_FIELDS);
    var channels := BuildChannels(regs.value, CHANNEL_FIELDS);
    var g0 := BuildGlobalConfig(config, GLOBAL_FIELDS_0);
    if g0.Bad? { return g0; }
    r := Good(g1.value + channels + g0.value);
  }

  /** The stream is built exactly when every register of the tree is there and in range. */
  ghost predicate Encodable(config: Config) {
    && (forall k | 0 <= k < |GLOBAL_FIELDS_1| :: GlobalOk(config, GLOBAL_FIELDS_1[k]))
    && (forall k | 0 <= k < |GLOBAL_FIELDS_0| :: GlobalOk(config, GLOBAL_FIELDS_0[k]))
    && (forall k | 0 <= k < |CHANNEL_FIELDS| :: ChannelOk(config, CHANNEL_FIELDS[k]))
  }

  predicate GlobalOk(config: Config, f: Field) {
    f.name != NOT_USED ==>
      f.name in config && config[f.name].data.Some?
      && config[f.name].data.value < TWO_32 && config[f.name].data.value < Pow2(f.size)
  }

  ghost predicate ChannelOk(config: Config, f: Field) {
    f.name != NOT_USED ==> f.name in config && Acceptable(config[f.name], f.size)
  }

  lemma {:induction false} BuiltIffEncodable(config: Config)
    ensures BuildStream(config).Good? <==> Encodable(config)
  {
    GlobalsOkIff(config, GLOBAL_FIELDS_1);
    GlobalsOkIff(config, GLOBAL_FIELDS_0);
    ChannelsOkIff(config, CHANNEL_FIELDS);
    hide GlobalBits, ChannelMap, ChannelStream, Filled, GlobalOk, ChannelOk;
  }

  lemma {:induction false} GlobalsOkIff(config: Config, fields: seq<Field>)
    ensures GlobalBits(config, fields, |fields|).Good? <==> forall k | 0 <= k < |fields| :: GlobalOk(config, fields[k])
  {
    GlobalGoodIff(config, fields, |fields|);
    forall k | 0 <= k < |fields| ensures GlobalOk(config, fields[k]) <==> GlobalField(config, fields[k]).Good? {}
  }

  lemma {:induction false} ChannelsOkIff(config: Config, fields: seq<Field>)
    ensures ChannelMap(config, fields, |fields|).Good? <==> forall k | 0 <= k < |fields| :: ChannelOk(config, fields[k])
  {
    ChannelMapIff(config, fields, |fields|);
    forall k | 0 <= k < |fields|
      ensures ChannelOk(config, fields[k]) <==> (Named(fields, k) ==> ChannelValues(config, fields[k]).Good?)
    {
      hide ChannelValues, Acceptable;
      ChannelValuesIff(config, fields[k]);
    }
  }

  // ----- Reading the stream -----

  /** The register a global block starting at `start` holds in field `k`. */
  function ReadGlobal(s: BitString, start: nat, fields: seq<Field>, k: nat): nat
    requires k < |fields| && start + Offset(fields, k) + fields[k].size <= |s|
  {
    var o := start + Offset(fields, k);
    var bits := s[o..o + fields[k].size];
    FromBits(if fields[k].name in BIT_REVERSED then Reverse(bits) else bits)
  }

  /** First bit of field `k` of a channel: channels and fields both stand in opposite order. */
  function ChannelPosition(channel: nat, k: nat): int
    requires k < |CHANNEL_FIELDS|
  {
    CHANNELS_START + 24 * (NUM_CH_PER_VMM - 1 - channel) + 24 - Offset(CHANNEL_FIELDS, k) - CHANNEL_FIELDS[k].size
  }

  function ReadChannel(s: BitString, channel: nat, k: nat): nat
    requires k < |CHANNEL_FIELDS| && 0 <= ChannelPosition(channel, k)
    requires ChannelPosition(channel, k) + CHANNEL_FIELDS[k].size <= |s|
  {
    var o := ChannelPosition(channel, k);
    FromBits(s[o..o + CHANNEL_FIELDS[k].size])
  }

  lemma {:induction false} ReverseTwice(s: BitString)
    ensures Reverse(Reverse(s)) == s
  {
  }

  lemma {:induction false} PlacedReadsBack(name: string, value: nat, size: nat)
    requires value < Pow2(size)
    ensures FromBits(if name in BIT_REVERSED then Reverse(Placed(name, value, size)) else Placed(name, value, size))
      == value
  {
    ReverseTwice(ToBits(value, size));
    FromToBits(value, size);
  }

  /** The three parts of a built stream. */
  lemma {:induction false} StreamParts(config: Config)
    requires BuildStream(config).Good?
    ensures
      var s := BuildStream(config).value;
      && |s| == NBITS_TOTAL
      && GlobalBits(config, GLOBAL_FIELDS_1, |GLOBAL_FIELDS_1|) == Good(s[..CHANNELS_START])
      && ChannelRegisters(config).Good?
      && ChannelStream(ChannelRegisters(config).value, CHANNEL_FIELDS, NUM_CH_PER_VMM)
        == s[CHANNELS_START..GLOBAL_0_START]
      && GlobalBits(config, GLOBAL_FIELDS_0, |GLOBAL_FIELDS_0|) == Good(s[GLOBAL_0_START..])
  {
    Global1Size();
    Global0Size();
    ChannelSize();
    GlobalLength(config, GLOBAL_FIELDS_1, |GLOBAL_FIELDS_1|);
    GlobalLength(config, GLOBAL_FIELDS_0, |GLOBAL_FIELDS_0|);
    StreamLength(ChannelRegisters(config).value, CHANNEL_FIELDS, NUM_CH_PER_VMM);
    hide GlobalBits, ChannelMap, ChannelStream, Filled, Offset;
    ThreeParts(
      GlobalBits(config, GLOBAL_FIELDS_1, |GLOBAL_FIELDS_1|).value,
      ChannelStream(ChannelRegisters(config).value, CHANNEL_FIELDS, NUM_CH_PER_VMM),
      GlobalBits(config, GLOBAL_FIELDS_0, |GLOBAL_FIELDS_0|).value);
  }

  lemma {:induction false} ThreeParts(a: BitString, b: BitString, c: BitString)
    ensures (a + b + c)[..|a|] == a && (a + b + c)[|a|..|a| + |b|] == b && (a + b + c)[|a| + |b|..] == c
  {
  }

  lemma {:induction false} SliceOfSlice(s: BitString, a: nat, b: nat, i: nat, j: nat)
    requires a <= b <= |s| && i <= j <= b - a
    ensures s[a..b][i..j] == s[a + i..a + j]
  {
    var x, y := s[a..b][i..j], s[a + i..a + j];
    assert |x| == |y| && forall t | 0 <= t < |x| :: x[t] == y[t];
  }

  /** A field's bits tell the register's number. */
  lemma {:induction false} FieldReadsBack(config: Config, f: Field, bits: BitString)
    requires f.name != NOT_USED && GlobalField(config, f) == Good(bits)
    ensures GetUnsigned(config, f.name) == Good(FromBits(if f.name in BIT_REVERSED then Reverse(bits) else bits))
  {
    PlacedReadsBack(f.name, GetUnsigned(config, f.name).value, f.size);
  }

  /** Every global register is read back from the block it stands in. */
  lemma {:induction false} GlobalReadsBack(config: Config, fields: seq<Field>, k: nat, s: BitString, start: nat)
    requires k < |fields| && fields[k].name != NOT_USED
    requires GlobalBits(config, fields, |fields|).Good? && start + TotalSize(fields) <= |s|
    requires GlobalBits(config, fields, |fields|).value == s[start..start + TotalSize(fields)]
    ensures start + Offset(fields, k) + fields[k].size <= |s|
    ensures GetUnsigned(config, fields[k].name) == Good(ReadGlobal(s, start, fields, k))
  {
    hide GlobalBits, GlobalField, GetUnsigned, FromBits, Reverse, TotalSize, Offset;
    GlobalStands(config, fields, k, s, start);
    var o := start + Offset(fields, k);
    FieldReadsBack(config, fields[k], s[o..o + fields[k].size]);
  }

  lemma {:induction false} GlobalStands(config: Config, fields: seq<Field>, k: nat, s: BitString, start: nat)
    requires k < |fields|
    requires GlobalBits(config, fields, |fields|).Good? && start + TotalSize(fields) <= |s|
    requires GlobalBits(config, fields, |fields|).value == s[start..start + TotalSize(fields)]
    ensures
      var o := start + Offset(fields, k);
      o + fields[k].size <= |s| && GlobalField(config, fields[k]) == Good(s[o..o + fields[k].size])
  {
    hide GlobalBits, GlobalField, TotalSize, Offset;
    GlobalSlice(config, fields, |fields|, k);
    var o := Offset(fields, k);
    SliceOfSlice(s, start, start + TotalSize(fields), o, o + fields[k].size);
  }

  /** Every channel register is read back at its computed position, unused bits as zeros. */
  lemma {:induction false} ChannelReadsBack(config: Config, channel: nat, k: nat)
    requires BuildStream(config).Good? && k < |CHANNEL_FIELDS| && channel < NUM_CH_PER_VMM
    ensures |BuildStream(config).value| == NBITS_TOTAL
    ensures CHANNELS_START <= ChannelPosition(channel, k) <= GLOBAL_0_START - CHANNEL_FIELDS[k].size
    ensures ChannelRegisters(config).Good?
    ensures ReadChannel(BuildStream(config).value, channel, k)
      == ValueAt(ChannelRegisters(config).value, CHANNEL_FIELDS, k, channel)
  {
    ChannelSliceStands(config, channel, k);
    var regs, f := ChannelRegisters(config).value, CHANNEL_FIELDS;
    ChannelValueFits(config, channel, k);
    FromToBits(ValueAt(regs, f, k, channel), f[k].size);
  }

  lemma {:induction false} ChannelValueFits(config: Config, channel: nat, k: nat)
    requires ChannelRegisters(config).Good? && k < |CHANNEL_FIELDS| && channel < NUM_CH_PER_VMM
    ensures ValueAt(ChannelRegisters(config).value, CHANNEL_FIELDS, k, channel) < Pow2(CHANNEL_FIELDS[k].size)
  {
    ChannelMapIff(config, CHANNEL_FIELDS, |CHANNEL_FIELDS|);
    var f := CHANNEL_FIELDS[k];
    if f.name != NOT_USED {
      assert Named(CHANNEL_FIELDS, k);
      ChannelValuesIff(config, f);
    }
  }

  /** What a channel register's node gives one channel stands at that channel's position. */
  lemma {:induction false} ChannelRegisterReadsBack(config: Config, channel: nat, k: nat)
    requires BuildStream(config).Good? && k < |CHANNEL_FIELDS| && channel < NUM_CH_PER_VMM
    requires CHANNEL_FIELDS[k].name != NOT_USED
    ensures |BuildStream(config).value| == NBITS_TOTAL
    ensures CHANNELS_START <= ChannelPosition(channel, k) <= GLOBAL_0_START - CHANNEL_FIELDS[k].size
    ensures CHANNEL_FIELDS[k].name in config && |Spread(config[CHANNEL_FIELDS[k].name])| == NUM_CH_PER_VMM
    ensures ReadChannel(BuildStream(config).value, channel, k) == Spread(config[CHANNEL_FIELDS[k].name])[channel]
  {
    hide Spread, BuildStream;
    ChannelReadsBack(config, channel, k);
    ChannelMapIff(config, CHANNEL_FIELDS, |CHANNEL_FIELDS|);
    assert Named(CHANNEL_FIELDS, k);
  }

  // ----- The stream bit by bit -----

  /** Bit `j` of field `k` of the global block at `start`: zero if unused, otherwise a bit of the register, counted from
      its most significant one, or from its least significant one for the five that are reversed. */
  predicate GlobalBitIs(config: Config, s: BitString, start: nat, fields: seq<Field>, k: nat, j: nat)
    requires k < |fields| && j < fields[k].size
  {
    var o, name := start + Offset(fields, k) + j, fields[k].name;
    && o < |s|
    && (name == "NOT_USED" ==> !s[o])
    && (name != "NOT_USED" ==>
         && name in config && config[name].data.Some?
         && s[o] == Bit(config[name].data.value,
                        if name in {"sm", "st", "sg", "sdt_dac", "sdp_dac"} then j else fields[k].size - 1 - j))
  }

  /** Bit `j` of field `k` of a channel: the channels stand from 63 down to 0, the fields of one in opposite order, and
      each most significant bit first. */
  predicate ChannelBitIs(config: Config, s: BitString, channel: nat, k: nat, j: nat)
    requires channel < 64 && k < |CHANNEL_FIELDS| && j < CHANNEL_FIELDS[k].size
  {
    var f := CHANNEL_FIELDS[k];
    var o := 96 + 24 * (63 - channel) + 24 - Offset(CHANNEL_FIELDS, k) - f.size + j;
    && 0 <= o < |s|
    && (f.name == "NOT_USED" ==> !s[o])
    && (f.name != "NOT_USED" ==>
         && f.name in config
         && var node := config[f.name];
         && (node.children == [] ==> node.data.Some? && s[o] == Bit(node.data.value, f.size - 1 - j))
         && (node.children != [] ==> |node.children| == 64 && s[o] == Bit(node.children[channel], f.size - 1 - j)))
  }

  lemma {:induction false} FieldBitIs(config: Config, f: Field, bits: BitString, j: nat)
    requires GlobalField(config, f) == Good(bits) && j < f.size
    ensures f.name == "NOT_USED" ==> !bits[j]
    ensures f.name != "NOT_USED" ==>
      && f.name in config && config[f.name].data.Some?
      && bits[j] == Bit(config[f.name].data.value,
                        if f.name in {"sm", "st", "sg", "sdt_dac", "sdp_dac"} then j else f.size - 1 - j)
  {
    hide Bit, ToBits;
    if f.name == "NOT_USED" {
      ToBitsAt(0, f.size, j);
      BitOfZero(f.size - 1 - j);
    } else {
      ToBitsAt(config[f.name].data.value, f.size, j);
      ToBitsAt(config[f.name].data.value, f.size, f.size - 1 - j);
    }
  }

  /** Every bit of every built stream; unused bits are zeros. */
  lemma {:induction false} GlobalBitStands(config: Config, k: nat, j: nat)
    requires BuildStream(config).Good?
    ensures k < |GLOBAL_FIELDS_1| && j < GLOBAL_FIELDS_1[k].size ==>
      GlobalBitIs(config, BuildStream(config).value, 0, GLOBAL_FIELDS_1, k, j)
    ensures k < |GLOBAL_FIELDS_0| && j < GLOBAL_FIELDS_0[k].size ==>
      GlobalBitIs(config, BuildStream(config).value, 1632, GLOBAL_FIELDS_0, k, j)
  {
    hide BuildStream, GlobalBits, ChannelStream, Offset, TotalSize, GlobalBitIs;
    StreamParts(config);
    Global1Size();
    Global0Size();
    var s := BuildStream(config).value;
    assert s[..CHANNELS_START] == s[0..0 + TotalSize(GLOBAL_FIELDS_1)];
    assert s[GLOBAL_0_START..] == s[GLOBAL_0_START..GLOBAL_0_START + TotalSize(GLOBAL_FIELDS_0)];
    if k < |GLOBAL_FIELDS_1| && j < GLOBAL_FIELDS_1[k].size { BlockBitStands(config, GLOBAL_FIELDS_1, k, j, s, 0); }
    if k < |GLOBAL_FIELDS_0| && j < GLOBAL_FIELDS_0[k].size {
      BlockBitStands(config, GLOBAL_FIELDS_0, k, j, s, GLOBAL_0_START);
    }
  }

  lemma {:induction false} BlockBitStands(
    config: Config, fields: seq<Field>, k: nat, j: nat, s: BitString, start: nat)
    requires k < |fields| && j < fields[k].size
    requires GlobalBits(config, fields, |fields|).Good? && start + TotalSize(fields) <= |s|
    requires GlobalBits(config, fields, |fields|).value == s[start..start + TotalSize(fields)]
    ensures GlobalBitIs(config, s, start, fields, k, j)
  {
    hide GlobalBits, GlobalField, TotalSize, Offset, Bit;
    GlobalStands(config, fields, k, s, start);
    var o := start + Offset(fields, k);
    assert s[o..o + fields[k].size][j] == s[o + j];
    FieldBitIs(config, fields[k], s[o..o + fields[k].size], j);
  }

  lemma {:induction false} ChannelBitStands(config: Config, channel: nat, k: nat, j: nat)
    requires BuildStream(config).Good? && channel < 64 && k < |CHANNEL_FIELDS| && j < CHANNEL_FIELDS[k].size
    ensures ChannelBitIs(config, BuildStream(config).value, channel, k, j)
  {
    hide BuildStream, Offset, ToBits, Bit, ChannelMap;
    ChannelSliceStands(config, channel, k);
    var s, f, o := BuildStream(config).value, CHANNEL_FIELDS[k], ChannelPosition(channel, k);
    var value := ValueAt(ChannelRegisters(config).value, CHANNEL_FIELDS, k, channel);
    assert s[o..o + f.size][j] == s[o + j];
    ToBitsAt(value, f.size, j);
    BitOfZero(f.size - 1 - j);
    hide ValueAt;
    ValueMeans(config, k, channel);
  }

  /** The number a channel register's node gives a channel, and zero for unused bits. */
  lemma {:induction false} ValueMeans(config: Config, k: nat, channel: nat)
    requires ChannelRegisters(config).Good? && channel < 64 && k < |CHANNEL_FIELDS|
    ensures
      var name, value := CHANNEL_FIELDS[k].name, ValueAt(ChannelRegisters(config).value, CHANNEL_FIELDS, k, channel);
      && (name == "NOT_USED" ==> value == 0)
      && (name != "NOT_USED" ==>
           && name in config
           && (config[name].children == [] ==> config[name].data.Some? && value == config[name].data.value)
           && (config[name].children != [] ==>
                |config[name].children| == 64 && value == config[name].children[channel]))
  {
    var f := CHANNEL_FIELDS[k];
    ChannelMapIff(config, CHANNEL_FIELDS, |CHANNEL_FIELDS|);
    hide ChannelMap, ChannelValues;
    if f.name != "NOT_USED" {
      assert Named(CHANNEL_FIELDS, k);
      ChannelValuesIff(config, f);
    }
  }

  lemma {:induction false} ChannelSliceStands(config: Config, channel: nat, k: nat)
    requires BuildStream(config).Good? && k < |CHANNEL_FIELDS| && channel < NUM_CH_PER_VMM
    ensures ChannelRegisters(config).Good? && |BuildStream(config).value| == NBITS_TOTAL
    ensures CHANNELS_START <= ChannelPosition(channel, k) <= GLOBAL_0_START - CHANNEL_FIELDS[k].size
    ensures
      var s, o := BuildStream(config).value, ChannelPosition(channel, k);
      s[o..o + CHANNEL_FIELDS[k].size]
      == ToBits(ValueAt(ChannelRegisters(config).value, CHANNEL_FIELDS, k, channel), CHANNEL_FIELDS[k].size)
  {
    StreamParts(config);
    ChannelSize();
    var regs, s, f := ChannelRegisters(config).value, BuildStream(config).value, CHANNEL_FIELDS;
    ChannelSlice(regs, f, channel, k);
    StreamSlice(regs, f, NUM_CH_PER_VMM, channel);
    var a, o, w := 24 * (NUM_CH_PER_VMM - 1 - channel), 24 - Offset(f, k) - f[k].size, f[k].size;
    SliceOfSlice(s, CHANNELS_START, GLOBAL_0_START, a, a + 24);
    SliceOfSlice(s, CHANNELS_START + a, CHANNELS_START + a + 24, o, o + w);
  }

  // ----- Why a stream cannot be built -----

  /** What a global register that is not right is reported as. */
  function GlobalProblem(config: Config, f: Field): VmmError {
    if f.name !in config then MissingVmmRegister
    else if config[f.name].data.None? || config[f.name].data.value >= 0x1_0000_0000 then BadNumber
    else TooLarge
  }

  /** What a channel register that is not right is reported as. */
  function ChannelProblem(config: Config, f: Field): VmmError {
    if f.name !in config then BadPath
    else if config[f.name].children == [] then
      if config[f.name].data.None? || config[f.name].data.value >= 0x1_0000_0000 then BadNumber else TooLarge
    else ArrayProblem(config[f.name].children, f.size, 0)
  }

  /** The first element that is not right, the 65th element, or in the end the wrong number of elements. */
  function ArrayProblem(children: seq<nat>, size: nat, i: nat): VmmError
    requires i <= |children|
    decreases |children| - i
  {
    if i == |children| then WrongChannelCount
    else if children[i] >= 0x1_0000_0000 then BadNumber
    else if children[i] >= Pow2(size) then TooLarge
    else if i == 64 then ArrayIndex
    else ArrayProblem(children, size, i + 1)
  }

  lemma {:induction false} FirstBadGlobal(config: Config, fields: seq<Field>, n: nat) returns (k: nat)
    requires n <= |fields| && GlobalBits(config, fields, n).Bad?
    ensures k < n && !GlobalOk(config, fields[k]) && forall j | 0 <= j < k :: GlobalOk(config, fields[j])
    ensures GlobalBits(config, fields, n) == Bad(GlobalProblem(config, fields[k]))
  {
    hide GlobalField, GlobalOk, GlobalProblem;
    if GlobalBits(config, fields, n - 1).Bad? {
      k := FirstBadGlobal(config, fields, n - 1);
    } else {
      k := n - 1;
      GlobalGoodIff(config, fields, k);
      forall j | 0 <= j <= k
        ensures GlobalOk(config, fields[j]) <==> GlobalField(config, fields[j]).Good?
        ensures !GlobalOk(config, fields[j]) ==>
          GlobalField(config, fields[j]) == Bad(GlobalProblem(config, fields[j]))
      {
        GlobalFieldProblem(config, fields[j]);
      }
    }
  }

  lemma {:induction false} GlobalFieldProblem(config: Config, f: Field)
    ensures GlobalOk(config, f) <==> GlobalField(config, f).Good?
    ensures !GlobalOk(config, f) ==> GlobalField(config, f) == Bad(GlobalProblem(config, f))
  {
  }

  lemma {:induction false} FirstBadChannel(config: Config, fields: seq<Field>, n: nat) returns (k: nat)
    requires n <= |fields| && ChannelMap(config, fields, n).Bad?
    ensures k < n && !ChannelOk(config, fields[k]) && forall j | 0 <= j < k :: ChannelOk(config, fields[j])
    ensures ChannelMap(config, fields, n) == Bad(ChannelProblem(config, fields[k]))
  {
    hide ChannelValues, ChannelOk, ChannelProblem;
    if ChannelMap(config, fields, n - 1).Bad? {
      k := FirstBadChannel(config, fields, n - 1);
    } else {
      k := n - 1;
      ChannelMapIff(config, fields, k);
      forall j | 0 <= j <= k
        ensures ChannelOk(config, fields[j]) <==> (Named(fields, j) ==> ChannelValues(config, fields[j]).Good?)
        ensures !ChannelOk(config, fields[j]) ==>
          ChannelValues(config, fields[j]) == Bad(ChannelProblem(config, fields[j]))
      {
        ChannelFieldProblem(config, fields[j]);
      }
    }
  }

  lemma {:induction false} ChannelFieldProblem(config: Config, f: Field)
    ensures ChannelOk(config, f) <==> (f.name != NOT_USED ==> ChannelValues(config, f).Good?)
    ensures !ChannelOk(config, f) ==> ChannelValues(config, f) == Bad(ChannelProblem(config, f))
  {
    ChannelValuesIff(config, f);
    hide Acceptable;
    if f.name in config && config[f.name].children != [] {
      ArrayError(config[f.name].children, f.size, 0);
    }
  }

  /** Once the first `i` elements are right, the outcome is that of the rest. */
  lemma {:induction false} ArrayError(children: seq<nat>, size: nat, i: nat)
    requires i <= |children| && i <= 64 && ArrayValues(children, size, i).Good?
    ensures
      var all := ArrayValues(children, size, |children|);
      && (all.Bad? ==> all.error == ArrayProblem(children, size, i))
      && (all.Good? && |children| != 64 ==> ArrayProblem(children, size, i) == WrongChannelCount)
    decreases |children| - i
  {
    if i < |children| {
      if ArrayValues(children, size, i + 1).Good? {
        ArrayError(children, size, i + 1);
      } else {
        BadArrayStays(children, size, i + 1, |children|);
      }
    }
  }

  /** The three parts are built in order, and the first register in them that is not right says why there is no
      stream. */
  lemma {:induction false} StreamError(config: Config) returns (k: nat)
    requires BuildStream(config).Bad?
    ensures
      var e := BuildStream(config).error;
      if exists j :: 0 <= j < |GLOBAL_FIELDS_1| && !GlobalOk(config, GLOBAL_FIELDS_1[j]) then
        && k < |GLOBAL_FIELDS_1| && !GlobalOk(config, GLOBAL_FIELDS_1[k])
        && (forall j | 0 <= j < k :: GlobalOk(config, GLOBAL_FIELDS_1[j]))
        && e == GlobalProblem(config, GLOBAL_FIELDS_1[k])
      else if exists j :: 0 <= j < |CHANNEL_FIELDS| && !ChannelOk(config, CHANNEL_FIELDS[j]) then
        && k < |CHANNEL_FIELDS| && !ChannelOk(config, CHANNEL_FIELDS[k])
        && (forall j | 0 <= j < k :: ChannelOk(config, CHANNEL_FIELDS[j]))
        && e == ChannelProblem(config, CHANNEL_FIELDS[k])
      else
        && k < |GLOBAL_FIELDS_0| && !GlobalOk(config, GLOBAL_FIELDS_0[k])
        && (forall j | 0 <= j < k :: GlobalOk(config, GLOBAL_FIELDS_0[j]))
        && e == GlobalProblem(config, GLOBAL_FIELDS_0[k])
  {
    hide GlobalBits, ChannelMap, ChannelStream, Filled, GlobalOk, ChannelOk, GlobalProblem, ChannelProblem;
    GlobalsOkIff(config, GLOBAL_FIELDS_1);
    ChannelsOkIff(config, CHANNEL_FIELDS);
    if GlobalBits(config, GLOBAL_FIELDS_1, |GLOBAL_FIELDS_1|).Bad? {
      k := FirstBadGlobal(config, GLOBAL_FIELDS_1, |GLOBAL_FIELDS_1|);
    } else if ChannelMap(config, CHANNEL_FIELDS, |CHANNEL_FIELDS|).Bad? {
      k := FirstBadChannel(config, CHANNEL_FIELDS, |CHANNEL_FIELDS|);
    } else {
      k := FirstBadGlobal(config, GLOBAL_FIELDS_0, |GLOBAL_FIELDS_0|);
    }
  }

  /** Same numbers for every register of the chip. */
  ghost predicate SameRegisters(c: Config, d: Config) {
    && SameGlobals(c, d, GLOBAL_FIELDS_1)
    && SameGlobals(c, d, GLOBAL_FIELDS_0)
    && SameChannels(c, d, CHANNEL_FIELDS)
  }

  ghost predicate SameGlobals(c: Config, d: Config, fields: seq<Field>) {
    forall k | 0 <= k < |fields| && fields[k].name != NOT_USED ::
      GetUnsigned(c, fields[k].name) == GetUnsigned(d, fields[k].name)
  }

  ghost predicate SameChannels(c: Config, d: Config, fields: seq<Field>) {
    forall k | 0 <= k < |fields| && fields[k].name != NOT_USED ::
      && fields[k].name in c && fields[k].name in d && Spread(c[fields[k].name]) == Spread(d[fields[k].name])
  }

  /** Two trees the codec accepts give the same stream exactly when they agree on every register. */
  lemma {:induction false} EqualStreamsIff(c: Config, d: Config)
    requires BuildStream(c).Good? && BuildStream(d).Good?
    ensures BuildStream(c) == BuildStream(d) <==> SameRegisters(c, d)
  {
    if BuildStream(c) == BuildStream(d) {
      StreamsTellGlobals(c, d);
      StreamsTellChannels(c, d);
    }
    if SameRegisters(c, d) {
      SameRegistersSameStream(c, d);
    }
  }

  lemma {:induction false} StreamsTellGlobals(c: Config, d: Config)
    requires BuildStream(c).Good? && BuildStream(c) == BuildStream(d)
    ensures SameGlobals(c, d, GLOBAL_FIELDS_1) && SameGlobals(c, d, GLOBAL_FIELDS_0)
  {
    hide GetUnsigned, ReadGlobal, GlobalBits, ChannelMap, ChannelStream, Filled, Offset, BuildStream;
    var s := BuildStream(c).value;
    StreamParts(c);
    StreamParts(d);
    Global1Size();
    Global0Size();
    assert s[..CHANNELS_START] == s[0..0 + TotalSize(GLOBAL_FIELDS_1)];
    assert s[GLOBAL_0_START..] == s[GLOBAL_0_START..GLOBAL_0_START + TotalSize(GLOBAL_FIELDS_0)];
    BlockTellsGlobals(c, d, GLOBAL_FIELDS_1, s, 0);
    BlockTellsGlobals(c, d, GLOBAL_FIELDS_0, s, GLOBAL_0_START);
  }

  lemma {:induction false} BlockTellsGlobals(c: Config, d: Config, fields: seq<Field>, s: BitString, start: nat)
    requires start + TotalSize(fields) <= |s|
    requires GlobalBits(c, fields, |fields|) == GlobalBits(d, fields, |fields|)
      == Good(s[start..start + TotalSize(fields)])
    ensures SameGlobals(c, d, fields)
  {
    hide GetUnsigned, ReadGlobal, GlobalBits;
    forall k | 0 <= k < |fields| && fields[k].name != NOT_USED
      ensures GetUnsigned(c, fields[k].name) == GetUnsigned(d, fields[k].name)
    {
      GlobalReadsBack(c, fields, k, s, start);
      GlobalReadsBack(d, fields, k, s, start);
    }
  }

  lemma {:induction false} StreamsTellChannels(c: Config, d: Config)
    requires BuildStream(c).Good? && BuildStream(c) == BuildStream(d)
    ensures SameChannels(c, d, CHANNEL_FIELDS)
  {
    hide BuildStream, Spread, ReadChannel, ChannelPosition;
    var fields := CHANNEL_FIELDS;
    forall k | 0 <= k < |fields| && fields[k].name != NOT_USED
      ensures fields[k].name in c && fields[k].name in d && Spread(c[fields[k].name]) == Spread(d[fields[k].name])
    {
      ChannelRegisterReadsBack(c, 0, k);
      ChannelRegisterReadsBack(d, 0, k);
      var x, y := Spread(c[fields[k].name]), Spread(d[fields[k].name]);
      forall channel | 0 <= channel < NUM_CH_PER_VMM ensures x[channel] == y[channel] {
        ChannelRegisterReadsBack(c, channel, k);
        ChannelRegisterReadsBack(d, channel, k);
      }
    }
  }

  lemma {:induction false} SameRegistersSameStream(c: Config, d: Config)
    requires BuildStream(c).Good? && BuildStream(d).Good? && SameRegisters(c, d)
    ensures BuildStream(c) == BuildStream(d)
  {
    hide SameGlobals, SameChannels;
    BlockFromGlobals(c, d, GLOBAL_FIELDS_1, |GLOBAL_FIELDS_1|);
    BlockFromGlobals(c, d, GLOBAL_FIELDS_0, |GLOBAL_FIELDS_0|);
    StreamFromChannels(c, d, NUM_CH_PER_VMM);
    hide GlobalBits, ChannelMap, ChannelStream, Filled;
  }

  lemma {:induction false} BlockFromGlobals(c: Config, d: Config, fields: seq<Field>, n: nat)
    requires n <= |fields| && SameGlobals(c, d, fields)
    requires GlobalBits(c, fields, n).Good? && GlobalBits(d, fields, n).Good?
    ensures GlobalBits(c, fields, n) == GlobalBits(d, fields, n)
  {
    if n > 0 {
      BlockFromGlobals(c, d, fields, n - 1);
      assert fields[n - 1].name != NOT_USED ==>
        GetUnsigned(c, fields[n - 1].name) == GetUnsigned(d, fields[n - 1].name);
    }
  }

  lemma {:induction false} StreamFromChannels(c: Config, d: Config, count: nat)
    requires ChannelRegisters(c).Good? && ChannelRegisters(d).Good? && SameChannels(c, d, CHANNEL_FIELDS)
    requires count <= NUM_CH_PER_VMM
    ensures ChannelStream(ChannelRegisters(c).value, CHANNEL_FIELDS, count)
         == ChannelStream(ChannelRegisters(d).value, CHANNEL_FIELDS, count)
  {
    hide ChannelMap, Filled;
    if count > 0 {
      StreamFromChannels(c, d, count - 1);
      MapHolds(c, CHANNEL_FIELDS);
      MapHolds(d, CHANNEL_FIELDS);
      SameChannelBits(ChannelRegisters(c).value, ChannelRegisters(d).value, CHANNEL_FIELDS, NUM_CH_PER_VMM - count,
        |CHANNEL_FIELDS|);
    }
  }

  /** The map has the numbers the tree spreads, for every named field. */
  lemma {:induction false} MapHolds(config: Config, fields: seq<Field>)
    requires ChannelRegisters(config).Good? && fields == CHANNEL_FIELDS
    ensures Holds(ChannelRegisters(config).value, config, fields, |fields|)
  {
    ChannelMapIff(config, CHANNEL_FIELDS, |CHANNEL_FIELDS|);
  }

  lemma {:induction false} SameChannelBits(
    r: ChannelRegisterMap, q: ChannelRegisterMap, fields: seq<Field>, channel: nat, n: nat)
    requires Filled(r, fields) && Filled(q, fields) && channel < NUM_CH_PER_VMM && n <= |fields|
    requires forall k | 0 <= k < |fields|
      && fields[k].name != NOT_USED :: r[fields[k].name][channel] == q[fields[k].name][channel]
    ensures ChannelPrefix(r, fields, channel, n) == ChannelPrefix(q, fields, channel, n)
  {
    if n > 0 { SameChannelBits(r, q, fields, channel, n - 1); }
  }
}
