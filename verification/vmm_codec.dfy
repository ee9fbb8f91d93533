/** The 1728-bit configuration stream of a VMM (src/VMMCodec.cpp, NSWConfiguration/VMMCodec.h): second
    global block, 64 channel blocks from channel 63 down to 0, first global block. */
module VmmCodec {
  import opened Bits
  import opened Utility
  import opened I2cMaster

  const NUM_CH_PER_VMM: nat := 64

  /** A node of the configuration tree: its own number, and the numbers of its children if it is an array. */
  datatype Node = Node(data: Option<nat>, children: seq<nat>)

  type Config = map<string, Node>

  datatype VmmError =
    | MissingVmmRegister
    | BadPath              // no such node
    | BadNumber            // node without a number an unsigned int can hold
    | TooLarge             // RegisterOverflow
    | WrongChannelCount    // VmmCodecIssue
    | ArrayIndex           // std::out_of_range
    | NoSuchVmmRegister
    | VmmChannelOutOfRange
    | VmmConfigIssue

  datatype Built<+T> = Good(value: T) | Bad(error: VmmError)

  // ----- Field layouts -----

  /** A run of single-bit registers. */
  function Flags(names: seq<string>): (fields: seq<Field>)
    ensures |fields| == |names|
  {
    seq(|names|, k requires 0 <= k < |names| => Field(names[k], 1))
  }

  const FLAGS_B: seq<string> := ["stgc", "slxh", "slh", "sL0enaV", "slvs6b", "slvsena", "slvstki"]
  const FLAGS_C: seq<string> := ["slvsart", "slvsdt", "slvstk", "slvstp", "slvsbc", "sfrst", "srat"]
  const FLAGS_D: seq<string> := ["sbip", "stlc", "srec", "ssart", "stcr", "s32", "slvs"]
  const FLAGS_F: seq<string> := ["res00", "stpp", "sdrv", "sdck6b", "sdcka", "sdcks", "s10b", "s6b", "s8b"]
  const FLAGS_H: seq<string> := ["ssh", "sttt", "stot", "sng"]
  const FLAGS_J: seq<string> := ["sfam", "sfa", "scmx"]
  const FLAGS_L: seq<string> := ["slg", "sbfm", "sbfp", "sbft", "sbmx", "sdp", "sp"]

  const FIELDS_A: seq<Field> := [Field("reset", 2), Field(NOT_USED, 5)]
  const FIELDS_E: seq<Field> := [Field("res", 4)]
  const FIELDS_G: seq<Field> := [
    Field("sc6b", 3), Field("sc8b", 2), Field("sc10b", 2), Field("sdp_dac", 10), Field("sdt_dac", 10), Field("stc", 2)]
  const FIELDS_I: seq<Field> := [Field("sg", 3), Field("sfm", 1), Field("st", 2)]
  const FIELDS_K: seq<Field> := [Field("sm", 6)]

  const GLOBAL_FIELDS_0: seq<Field> :=
    FIELDS_A + Flags(FLAGS_B) + Flags(FLAGS_C) + Flags(FLAGS_D) + FIELDS_E + Flags(FLAGS_F) + FIELDS_G + Flags(FLAGS_H)
    + FIELDS_I + Flags(FLAGS_J) + FIELDS_K + Flags(FLAGS_L)

  const GLOBAL_FIELDS_1: seq<Field> := [
    Field(NOT_USED, 8), Field("offset", 12), Field("l0offset", 12), Field("rollover", 12),
    Field("window", 3), Field("nskip", 7), Field("truncate", 6), Field("sL0ena", 1),
    Field("sL0ckinv", 1), Field("sL0dckinv", 1), Field("sL0cktest", 1), Field("nskipm", 1),
    Field(NOT_USED, 31)]

  const CHANNEL_FIELDS: seq<Field> := [
    Field("channel_sc", 1), Field("channel_sl", 1), Field("channel_st", 1), Field("channel_sth", 1),
    Field("channel_sm", 1), Field("channel_smx", 1), Field("channel_sd", 5), Field("channel_sz10b", 5),
    Field("channel_sz8b", 4), Field("channel_sz6b", 3), Field(NOT_USED, 1)]

  /** Registers whose bits are reversed in the stream. */
  const BIT_REVERSED: set<string> := {"sm", "st", "sg", "sdt_dac", "sdp_dac"}

  /** No channel register has such a name: all of theirs begin with "ch". */
  predicate GlobalName(name: string) { |name| >= 2 && !(name[0] == 'c' && name[1] == 'h') }

  /** Number of fields and their total size; every name is one of a global register. */
  ghost predicate Sized(fields: seq<Field>, count: nat, total: nat) {
    && |fields| == count && TotalSize(fields) == total
    && (forall k | 0 <= k < |fields| :: GlobalName(fields[k].name))
  }

  lemma {:induction false} SizedConcat(f: seq<Field>, g: seq<Field>, m: nat, n: nat, x: nat, y: nat)
    requires Sized(f, m, x) && Sized(g, n, y)
    ensures Sized(f + g, m + n, x + y)
  {
    OffsetOfConcat(f, g, m + n);
  }

  lemma {:induction false} OffsetOfConcat(f: seq<Field>, g: seq<Field>, k: nat)
    requires k <= |f| + |g|
    ensures Offset(f + g, k) == if k <= |f| then Offset(f, k) else TotalSize(f) + Offset(g, k - |f|)
  {
    if k > 0 { OffsetOfConcat(f, g, k - 1); }
  }

  lemma {:induction false} FlagsSized(names: seq<string>)
    requires forall k | 0 <= k < |names| :: GlobalName(names[k])
    ensures Sized(Flags(names), |names|, |names|)
  {
    FlagsOffset(names, |names|);
  }

  lemma {:induction false} FlagsOffset(names: seq<string>, k: nat)
    requires k <= |names|
    ensures Offset(Flags(names), k) == k
  {
    if k > 0 { FlagsOffset(names, k - 1); }
  }

  lemma {:induction false} ChannelSize()
    ensures |CHANNEL_FIELDS| == 11 && TotalSize(CHANNEL_FIELDS) == 24
  {
    var f := CHANNEL_FIELDS;
    assert Offset(f, 1) == 1; assert Offset(f, 2) == 2; assert Offset(f, 4) == 4; assert Offset(f, 6) == 6;
    assert Offset(f, 8) == 16; assert Offset(f, 10) == 23;
  }

  lemma {:induction false} Global1Size()
    ensures Sized(GLOBAL_FIELDS_1, 13, 96)
  {
    var f := GLOBAL_FIELDS_1;
    assert Offset(f, 1) == 8; assert Offset(f, 2) == 20; assert Offset(f, 4) == 44; assert Offset(f, 6) == 54;
    assert Offset(f, 8) == 61; assert Offset(f, 10) == 63; assert Offset(f, 12) == 65;
  }

  lemma {:induction false} Global0Parts()
    ensures Sized(FIELDS_A, 2, 7) && Sized(FIELDS_E, 1, 4) && Sized(FIELDS_G, 6, 29)
    ensures Sized(FIELDS_I, 3, 6) && Sized(FIELDS_K, 1, 6)
  {
    assert Offset(FIELDS_A, 1) == 2;
    assert Offset(FIELDS_G, 1) == 3; assert Offset(FIELDS_G, 3) == 7; assert Offset(FIELDS_G, 5) == 27;
    assert Offset(FIELDS_I, 1) == 3;
  }

  lemma {:induction false} Global0Flags()
    ensures Sized(Flags(FLAGS_B), 7, 7) && Sized(Flags(FLAGS_C), 7, 7) && Sized(Flags(FLAGS_D), 7, 7)
    ensures Sized(Flags(FLAGS_F), 9, 9) && Sized(Flags(FLAGS_H), 4, 4) && Sized(Flags(FLAGS_J), 3, 3)
    ensures Sized(Flags(FLAGS_L), 7, 7)
  {
    hide Sized;
    FlagsSized(FLAGS_B); FlagsSized(FLAGS_C); FlagsSized(FLAGS_D); FlagsSized(FLAGS_F); FlagsSized(FLAGS_H);
    FlagsSized(FLAGS_J); FlagsSized(FLAGS_L);
  }

  lemma {:induction false} Global0Size()
    ensures Sized(GLOBAL_FIELDS_0, 57, 96)
  {
    hide Sized, Flags;
    Global0Parts();
    Global0Flags();
    SizedConcat(FIELDS_A, Flags(FLAGS_B), 2, 7, 7, 7);
    var ab := FIELDS_A + Flags(FLAGS_B);
    SizedConcat(ab, Flags(FLAGS_C), 9, 7, 14, 7);
    SizedConcat(ab + Flags(FLAGS_C), Flags(FLAGS_D), 16, 7, 21, 7);
    var abcd := ab + Flags(FLAGS_C) + Flags(FLAGS_D);
    SizedConcat(abcd, FIELDS_E, 23, 1, 28, 4);
    SizedConcat(abcd + FIELDS_E, Flags(FLAGS_F), 24, 9, 32, 9);
    var af := abcd + FIELDS_E + Flags(FLAGS_F);
    SizedConcat(af, FIELDS_G, 33, 6, 41, 29);
    SizedConcat(af + FIELDS_G, Flags(FLAGS_H), 39, 4, 70, 4);
    var ah := af + FIELDS_G + Flags(FLAGS_H);
    SizedConcat(ah, FIELDS_I, 43, 3, 74, 6);
    SizedConcat(ah + FIELDS_I, Flags(FLAGS_J), 46, 3, 80, 3);
    var aj := ah + FIELDS_I + Flags(FLAGS_J);
    SizedConcat(aj, FIELDS_K, 49, 1, 83, 6);
    SizedConcat(aj + FIELDS_K, Flags(FLAGS_L), 50, 7, 89, 7);
  }

  // ----- Reading the tree -----

  function NumberIn(data: Option<nat>): Built<nat> {
    if data.None? || data.value >= TWO_32 then Bad(BadNumber) else Good(data.value)
  }

  /** `config.get<unsigned>(name)` */
  function GetUnsigned(config: Config, name: string): Built<nat> {
    if name !in config then Bad(BadPath) else NumberIn(config[name].data)
  }

  /** A number that has passed `checkOverflow`. */
  function InRange(number: Built<nat>, size: nat): Built<nat> {
    if number.Good? && Overflows(size, number.value) then Bad(TooLarge) else number
  }

  // ----- Global registers -----

  function Reverse(s: BitString): (r: BitString)
    ensures |r| == |s|
  {
    seq(|s|, k requires 0 <= k < |s| => s[|s| - 1 - k])
  }

  /** How a register's value stands in its global block. */
  function Placed(name: string, value: nat, size: nat): (s: BitString)
    ensures |s| == size
  {
    if name in BIT_REVERSED then Reverse(ToBits(value, size)) else ToBits(value, size)
  }

  function GlobalField(config: Config, f: Field): (r: Built<BitString>)
    ensures r.Good? ==> |r.value| == f.size
  {
    if f.name == NOT_USED then Good(ToBits(0, f.size))
    else if f.name !in config then Bad(MissingVmmRegister)
    else
      var v := InRange(GetUnsigned(config, f.name), f.size);
      if v.Bad? then Bad(v.error) else Good(Placed(f.name, v.value, f.size))
  }

  /** The first `n` fields of a global block. */
  function GlobalBits(config: Config, fields: seq<Field>, n: nat): Built<BitString>
    requires n <= |fields|
  {
    if n == 0 then Good([])
    else
      var prefix := GlobalBits(config, fields, n - 1);
      if prefix.Bad? then prefix
      else
        var bits := GlobalField(config, fields[n - 1]);
        if bits.Bad? then bits else Good(prefix.value + bits.value)
  }

  method BuildGlobalConfig(config: Config, fields: seq<Field>) returns (r: Built<BitString>)
    ensures r == GlobalBits(config, fields, |fields|)
  {
    var ss: BitString := [];
    for i := 0 to |fields|
      invariant GlobalBits(config, fields, i) == Good(ss)
    {
      var bits := GlobalField(config, fields[i]);
      if bits.Bad? {
        BadStays(config, fields, i + 1, |fields|);
        return bits;
      }
      ss := ss + bits.value;
    }
    r := Good(ss);
  }

  lemma {:induction false} BadStays(config: Config, fields: seq<Field>, i: nat, n: nat)
    requires i <= n <= |fields| && GlobalBits(config, fields, i).Bad?
    ensures GlobalBits(config, fields, n) == GlobalBits(config, fields, i)
  {
    if i < n { BadStays(config, fields, i, n - 1); }
  }

  /** A built block holds every field at its offset. */
  lemma {:induction false} GlobalSlice(config: Config, fields: seq<Field>, n: nat, k: nat)
    requires k < n <= |fields| && GlobalBits(config, fields, n).Good?
    ensures
      var s, o := GlobalBits(config, fields, n).value, Offset(fields, k);
      && |s| == Offset(fields, n) && o + fields[k].size <= |s|
      && GlobalField(config, fields[k]) == Good(s[o..o + fields[k].size])
  {
    hide GlobalField;
    GlobalLength(config, fields, n - 1);
    var prefix, last := GlobalBits(config, fields, n - 1).value, GlobalField(config, fields[n - 1]).value;
    if k < n - 1 {
      GlobalSlice(config, fields, n - 1, k);
      SliceOfPrefix(prefix, last, Offset(fields, k), Offset(fields, k) + fields[k].size);
    } else {
      SliceOfEnd(prefix, last);
    }
  }

  lemma {:induction false} SliceOfEnd(a: BitString, b: BitString)
    ensures (a + b)[|a|..|a| + |b|] == b
  {
  }

  lemma {:induction false} GlobalLength(config: Config, fields: seq<Field>, n: nat)
    requires n <= |fields| && GlobalBits(config, fields, n).Good?
    ensures |GlobalBits(config, fields, n).value| == Offset(fields, n)
  {
    if n > 0 { GlobalLength(config, fields, n - 1); }
  }

  lemma {:induction false} GlobalGoodIff(config: Config, fields: seq<Field>, n: nat)
    requires n <= |fields|
    ensures GlobalBits(config, fields, n).Good? <==> forall k | 0 <= k < n :: GlobalField(config, fields[k]).Good?
  {
    if n > 0 { GlobalGoodIff(config, fields, n - 1); }
  }

  // ----- Channel registers -----

  type ChannelRegisterMap = map<string, seq<nat>>

  /** The first `n` elements of an array register; the array they are copied to has 64 places. */
  function ArrayValues(children: seq<nat>, size: nat, n: nat): (r: Built<seq<nat>>)
    requires n <= |children|
    ensures r.Good? ==> r.value == children[..n]
  {
    if n == 0 then Good([])
    else
      var prefix := ArrayValues(children, size, n - 1);
      if prefix.Bad? then prefix
      else
        var v := InRange(NumberIn(Some(children[n - 1])), size);
        if v.Bad? then Bad(v.error)
        else if n > NUM_CH_PER_VMM then Bad(ArrayIndex)
        else Good(prefix.value + [v.value])
  }

  /** The 64 values of one channel register. */
  function ChannelValues(config: Config, f: Field): (r: Built<seq<nat>>)
    ensures r.Good? ==> |r.value| == NUM_CH_PER_VMM
  {
    if f.name !in config then Bad(BadPath)
    else if config[f.name].children == [] then
      var v := InRange(GetUnsigned(config, f.name), f.size);
      if v.Bad? then Bad(v.error) else Good(seq(NUM_CH_PER_VMM, _ => v.value))
    else
      var children := config[f.name].children;
      var values := ArrayValues(children, f.size, |children|);
      if values.Bad? then values
      else if |children| != NUM_CH_PER_VMM then Bad(WrongChannelCount)
      else values
  }

  function ChannelMap(config: Config, fields: seq<Field>, n: nat): Built<ChannelRegisterMap>
    requires n <= |fields|
  {
    if n == 0 then Good(map[])
    else
      var prefix := ChannelMap(config, fields, n - 1);
      if prefix.Bad? || fields[n - 1].name == NOT_USED then prefix
      else
        var values := ChannelValues(config, fields[n - 1]);
        if values.Bad? then Bad(values.error) else Good(prefix.value[fields[n - 1].name := values.value])
  }

  method ReadArray(children: seq<nat>, size: nat) returns (r: Built<seq<nat>>)
    ensures r == ArrayValues(children, size, |children|)
  {
    var values: seq<nat> := [];
    for i := 0 to |children|
      invariant ArrayValues(children, size, i) == Good(values)
    {
      var v := InRange(NumberIn(Some(children[i])), size);
      if v.Bad? || i >= NUM_CH_PER_VMM {
        r := Bad(if v.Bad? then v.error else ArrayIndex);
        BadArrayStays(children, size, i + 1, |children|);
        return;
      }
      values := values + [v.value];
    }
    r := Good(values);
  }

  lemma {:induction false} BadArrayStays(children: seq<nat>, size: nat, i: nat, n: nat)
    requires i <= n <= |children| && ArrayValues(children, size, i).Bad?
    ensures ArrayValues(children, size, n) == ArrayValues(children, size, i)
  {
    if i < n { BadArrayStays(children, size, i, n - 1); }
  }

  method BuildChannelRegisterMap(config: Config) returns (r: Built<ChannelRegisterMap>)
    ensures r == ChannelMap(config, CHANNEL_FIELDS, |CHANNEL_FIELDS|)
  {
    r := CollectChannels(config, CHANNEL_FIELDS);
  }

  method CollectChannels(config: Config, fields: seq<Field>) returns (r: Built<ChannelRegisterMap>)
    ensures r == ChannelMap(config, fields, |fields|)
  {
    var regs: ChannelRegisterMap := map[];
    for i := 0 to |fields|
      invariant ChannelMap(config, fields, i) == Good(regs)
    {
      if fields[i].name == NOT_USED { continue; }
      var values := ReadOneRegister(config, fields[i]);
      if values.Bad? {
        BadMapStays(config, fields, i + 1, |fields|);
        return Bad(values.error);
      }
      regs := regs[fields[i].name := values.value];
    }
    r := Good(regs);
  }

  method ReadOneRegister(config: Config, f: Field) returns (values: Built<seq<nat>>)
    ensures values == ChannelValues(config, f)
  {
    if f.name !in config { return Bad(BadPath); }
    var node := config[f.name];
    if node.children == [] {
      var v := InRange(GetUnsigned(config, f.name), f.size);
      if v.Bad? { return Bad(v.error); }
      values := Good(seq(NUM_CH_PER_VMM, _ => v.value));
    } else {
      values := ReadArray(node.children, f.size);
      if values.Good? && |node.children| != NUM_CH_PER_VMM { return Bad(WrongChannelCount); }
    }
  }

  lemma {:induction false} BadMapStays(config: Config, fields: seq<Field>, i: nat, n: nat)
    requires i <= n <= |fields| && ChannelMap(config, fields, i).Bad?
    ensures ChannelMap(config, fields, n) == ChannelMap(config, fields, i)
  {
    if i < n { BadMapStays(config, fields, i, n - 1); }
  }

  /** The numbers a node gives the 64 channels. */
  function Spread(node: Node): seq<nat> {
    if node.children == [] && node.data.Some? then seq(NUM_CH_PER_VMM, _ => node.data.value) else node.children
  }

  /** What a channel register's node must be for the codec to accept it. */
  ghost predicate Acceptable(node: Node, size: nat) {
    && (node.children == [] ==> node.data.Some?)
    && |Spread(node)| == NUM_CH_PER_VMM
    && forall c | 0 <= c < NUM_CH_PER_VMM :: Spread(node)[c] < TWO_32 && Spread(node)[c] < Pow2(size)
  }

  lemma {:induction false} ChannelValuesIff(config: Config, f: Field)
    ensures ChannelValues(config, f).Good? <==> f.name in config && Acceptable(config[f.name], f.size)
    ensures ChannelValues(config, f).Good? ==> ChannelValues(config, f).value == Spread(config[f.name])
  {
    if f.name in config {
      var node := config[f.name];
      if node.children == [] {
        if Acceptable(node, f.size) { assert Spread(node)[0] == node.data.value; }
      } else {
        ArrayGoodIff(node.children, f.size, |node.children|);
      }
    }
  }

  lemma {:induction false} ArrayGoodIff(children: seq<nat>, size: nat, n: nat)
    requires n <= |children|
    ensures ArrayValues(children, size, n).Good? <==>
      n <= NUM_CH_PER_VMM && forall c | 0 <= c < n :: children[c] < TWO_32 && children[c] < Pow2(size)
  {
    if n > 0 { ArrayGoodIff(children, size, n - 1); }
  }

  /** The map is complete exactly when every named field is acceptable, and then holds every field's values. */
  lemma {:induction false} ChannelMapIff(config: Config, fields: seq<Field>, n: nat)
    requires n <= |fields|
    ensures ChannelMap(config, fields, n).Good? <==>
      forall k | 0 <= k < n && Named(fields, k) :: ChannelValues(config, fields[k]).Good?
    ensures ChannelMap(config, fields, n).Good? ==> Holds(ChannelMap(config, fields, n).value, config, fields, n)
  {
    if n > 0 {
      ChannelMapIff(config, fields, n - 1);
      ChannelValuesIff(config, fields[n - 1]);
    }
  }

  /** Each of the first `n` named fields is in the map with the values its node spreads. */
  ghost predicate Holds(regs: ChannelRegisterMap, config: Config, fields: seq<Field>, n: nat)
    requires n <= |fields|
  {
    forall k | 0 <= k < n && Named(fields, k) ::
      && fields[k].name in regs && fields[k].name in config
      && regs[fields[k].name] == Spread(config[fields[k].name]) && |regs[fields[k].name]| == NUM_CH_PER_VMM
  }

  // ----- Channel stream -----

  /** Every named field has its 64 values. */
  predicate Filled(regs: ChannelRegisterMap, fields: seq<Field>) {
    forall k | 0 <= k < |fields| && Named(fields, k) ::
      fields[k].name in regs && |regs[fields[k].name]| == NUM_CH_PER_VMM
  }

  function ValueAt(regs: ChannelRegisterMap, fields: seq<Field>, k: nat, channel: nat): nat
    requires Filled(regs, fields) && k < |fields| && channel < NUM_CH_PER_VMM
  {
    if fields[k].name == NOT_USED then 0 else regs[fields[k].name][channel]
  }

  /** The first `n` fields of a channel, each reversed, before the channel as a whole is reversed. */
  function ChannelPrefix(regs: ChannelRegisterMap, fields: seq<Field>, channel: nat, n: nat): (s: BitString)
    requires Filled(regs, fields) && n <= |fields| && channel < NUM_CH_PER_VMM
    ensures |s| == Offset(fields, n)
  {
    if n == 0 then []
    else
      ChannelPrefix(regs, fields, channel, n - 1)
      + Reverse(ToBits(ValueAt(regs, fields, n - 1, channel), fields[n - 1].size))
  }

  function ChannelBits(regs: ChannelRegisterMap, fields: seq<Field>, channel: nat): (s: BitString)
    requires Filled(regs, fields) && channel < NUM_CH_PER_VMM
    ensures |s| == TotalSize(fields)
  {
    Reverse(ChannelPrefix(regs, fields, channel, |fields|))
  }

  /** The `count` channels from 63 downwards. */
  function ChannelStream(regs: ChannelRegisterMap, fields: seq<Field>, count: nat): BitString
    requires Filled(regs, fields) && count <= NUM_CH_PER_VMM
  {
    if count == 0 then []
    else ChannelStream(regs, fields, count - 1) + ChannelBits(regs, fields, NUM_CH_PER_VMM - count)
  }

  method BuildOneChannel(regs: ChannelRegisterMap, fields: seq<Field>, channel: nat) returns (bits: BitString)
    requires Filled(regs, fields) && channel < NUM_CH_PER_VMM
    ensures bits == ChannelBits(regs, fields, channel)
  {
    var tempstr: BitString := [];
    for i := 0 to |fields|
      invariant tempstr == ChannelPrefix(regs, fields, channel, i)
    {
      tempstr := tempstr + Reverse(ToBits(ValueAt(regs, fields, i, channel), fields[i].size));
    }
    bits := Reverse(tempstr);
  }

  method BuildChannels(regs: ChannelRegisterMap, fields: seq<Field>) returns (bitstr: BitString)
    requires Filled(regs, fields)
    ensures bitstr == ChannelStream(regs, fields, NUM_CH_PER_VMM)
  {
    bitstr := [];
    var channel := NUM_CH_PER_VMM - 1;
    while true
      invariant 0 <= channel < NUM_CH_PER_VMM
      invariant bitstr == ChannelStream(regs, fields, NUM_CH_PER_VMM - 1 - channel)
      decreases channel
    {
      var bits := BuildOneChannel(regs, fields, channel);
      bitstr := bitstr + bits;
      if channel == 0 { break; }
      channel := channel - 1;
    }
  }

  /** Reversing every field and then the whole channel leaves each field most significant bit first, the fields
      in opposite order. */
  lemma {:induction false} ChannelSlice(
    regs: ChannelRegisterMap, fields: seq<Field>, channel: nat, k: nat)
    requires Filled(regs, fields) && channel < NUM_CH_PER_VMM && k < |fields|
    ensures
      var s, o := ChannelBits(regs, fields, channel), TotalSize(fields) - Offset(fields, k) - fields[k].size;
      && 0 <= o && o + fields[k].size <= |s|
      && s[o..o + fields[k].size] == ToBits(ValueAt(regs, fields, k, channel), fields[k].size)
  {
    var size, start := fields[k].size, Offset(fields, k);
    var p := ChannelPrefix(regs, fields, channel, |fields|);
    PrefixSlice(regs, fields, channel, |fields|, k);
    var s, o := Reverse(p), TotalSize(fields) - start - size;
    var bits := ToBits(ValueAt(regs, fields, k, channel), size);
    forall i | 0 <= i < size ensures s[o + i] == bits[i] {
      assert p[start..start + size][size - 1 - i] == Reverse(bits)[size - 1 - i];
    }
  }

  lemma {:induction false} PrefixSlice(
    regs: ChannelRegisterMap, fields: seq<Field>, channel: nat, n: nat, k: nat)
    requires Filled(regs, fields) && channel < NUM_CH_PER_VMM && k < n <= |fields|
    ensures
      var p, o := ChannelPrefix(regs, fields, channel, n), Offset(fields, k);
      && o + fields[k].size <= |p|
      && p[o..o + fields[k].size] == Reverse(ToBits(ValueAt(regs, fields, k, channel), fields[k].size))
  {
    hide Filled;
    var p, o, size := ChannelPrefix(regs, fields, channel, n - 1), Offset(fields, k), fields[k].size;
    var last := Reverse(ToBits(ValueAt(regs, fields, n - 1, channel), fields[n - 1].size));
    if k < n - 1 {
      PrefixSlice(regs, fields, channel, n - 1, k);
      assert (p + last)[o..o + size] == p[o..o + size];
    } else {
      assert (p + last)[|p|..|p| + size] == last;
    }
  }

  lemma {:induction false} StreamSlice(regs: ChannelRegisterMap, fields: seq<Field>, count: nat, channel: nat)
    requires Filled(regs, fields) && TotalSize(fields) == 24
    requires NUM_CH_PER_VMM - count <= channel < NUM_CH_PER_VMM && count <= NUM_CH_PER_VMM
    ensures
      var s, o := ChannelStream(regs, fields, count), (NUM_CH_PER_VMM - 1 - channel) * 24;
      && |s| == count * 24 && 0 <= o && o + 24 <= |s|
      && s[o..o + 24] == ChannelBits(regs, fields, channel)
  {
    hide ChannelBits, Filled;
    StreamLength(regs, fields, count - 1);
    var s, o := ChannelStream(regs, fields, count - 1), (NUM_CH_PER_VMM - 1 - channel) * 24;
    var last := ChannelBits(regs, fields, NUM_CH_PER_VMM - count);
    if NUM_CH_PER_VMM - count < channel {
      StreamSlice(regs, fields, count - 1, channel);
      assert (s + last)[o..o + 24] == s[o..o + 24];
    } else {
      assert (s + last)[|s|..|s| + 24] == last;
    }
  }

  lemma {:induction false} StreamLength(regs: ChannelRegisterMap, fields: seq<Field>, count: nat)
    requires Filled(regs, fields) && count <= NUM_CH_PER_VMM && TotalSize(fields) == 24
    ensures |ChannelStream(regs, fields, count)| == count * 24
  {
    hide ChannelBits, Filled;
    if count > 0 { StreamLength(regs, fields, count - 1); }
  }
}
