/** The editable configuration of one VMM (src/VMMConfig.cpp): a tree of registers and the stream built from it. */
module VmmConfiguration {
  import opened Bits
  import opened Utility
  import opened I2cMaster
  import opened VmmCodec
  import opened VmmStream

  type Word32 = w: nat | w < 0x1_0000_0000

  predicate HasName(fields: seq<Field>, name: string) {
    exists k :: 0 <= k < |fields| && fields[k].name == name
  }

  predicate GlobalRegisterExists(name: string) { HasName(GLOBAL_FIELDS_0, name) || HasName(GLOBAL_FIELDS_1, name) }

  predicate ChannelRegisterExists(name: string) { HasName(CHANNEL_FIELDS, name) }

  // ----- New trees -----

  /** `put` replaces the number of a node and leaves its children. */
  function PutGlobal(config: Config, name: string, value: Word32): Config {
    config[name := Node(Some(value), if name in config then config[name].children else [])]
  }

  function PutAllChannels(config: Config, name: string, value: Word32): Config {
    config[name := Node(Some(value), [])]
  }

  /** The register becomes an array even if it was a single number; a name without entry starts from zeros. */
  function PutOneChannel(config: Config, name: string, value: Word32, channel: nat): Config
    requires ChannelRegisters(config).Good? && channel < NUM_CH_PER_VMM
  {
    config[name := Node(None, OldValues(config, name)[channel := value])]
  }

  function OldValues(config: Config, name: string): (values: seq<nat>)
    requires ChannelRegisters(config).Good?
    ensures |values| == NUM_CH_PER_VMM
  {
    var regs := ChannelRegisters(config).value;
    if name in regs && |regs[name]| == NUM_CH_PER_VMM then regs[name] else seq(NUM_CH_PER_VMM, _ => 0)
  }

  // ----- The class -----

  class VmmConfig {
    var config: Config
    var bitstring: BitString

    /** The stream is the tree's, if the tree has one. */
    ghost predicate Valid()
      reads this
    {
      Current(config, bitstring)
    }

    constructor (tree: Config, bits: BitString)
      ensures config == tree && bitstring == bits
    {
      config, bitstring := tree, bits;
    }

    /** Construction from a tree; it throws what `buildConfig` throws. */
    static method Create(tree: Config) returns (r: Built<VmmConfig>)
      ensures r.Good? <==> BuildStream(tree).Good?
      ensures r.Bad? ==> Bad(r.error) == BuildStream(tree)
      ensures r.Good? ==> fresh(r.value) && r.value.config == tree && BuildStream(tree) == Good(r.value.bitstring)
    {
      var built := Build(tree);
      if built.Bad? { return Bad(built.error); }
      var c := new VmmConfig(tree, built.value);
      r := Good(c);
    }

    method GetByteVector() returns (bytes: seq<Byte>)
      ensures bytes == StringToBytes(bitstring)
    {
      bytes := StringToByteVector(bitstring);
    }

    /** The tree's number, even if the tree has no stream; if it has one, every register is read, as the stream holds
        it. */
    method GetGlobalRegister(name: string) returns (r: Built<nat>)
      ensures r == ReadGlobalRegister(config, name)
      ensures GlobalRegisterExists(name) && name != NOT_USED && BuildStream(config) == Good(bitstring) ==>
        r.Good? && GlobalStreamHolds(bitstring, name, r.value)
    {
      if GlobalRegisterExists(name) && name != NOT_USED && BuildStream(config) == Good(bitstring) {
        ReadsTheGlobalStream(config, name);
      }
      if !GlobalRegisterExists(name) { return Bad(NoSuchVmmRegister); }
      r := GetUnsigned(config, name);
    }

    /** The map of all channel registers is built before anything is checked. The answer is what the stream holds for
        every channel, if the tree has a stream; a tree whose global registers are wrong still answers. */
    method GetChannelRegisterAllChannels(name: string) returns (r: Built<seq<nat>>)
      ensures r == ReadAllChannels(config, name)
      ensures r.Good? <==> ChannelRegisterExists(name) && name != NOT_USED && ChannelsEncodable(config)
      ensures r.Good? ==> |r.value| == NUM_CH_PER_VMM
      ensures r.Good? && BuildStream(config) == Good(bitstring) ==>
        forall c: nat | c < NUM_CH_PER_VMM :: StreamHolds(bitstring, name, c, r.value[c])
    {
      ReadsTheTree(config, name);
      if BuildStream(config) == Good(bitstring) { ReadsTheStream(config, name); }
      var regs := BuildChannelRegisterMap(config);
      assert regs == ChannelRegisters(config);
      if regs.Bad? { return Bad(regs.error); }
      if !ChannelRegisterExists(name) { return Bad(NoSuchVmmRegister); }
      r := if name in regs.value then Good(regs.value[name]) else Bad(ArrayIndex);
    }

    method GetChannelRegisterOneChannel(name: string, channel: Word32) returns (r: Built<nat>)
      ensures r == ReadOneChannel(config, name, channel)
      ensures r.Good? <==>
        channel < NUM_CH_PER_VMM && ChannelRegisterExists(name) && name != NOT_USED && ChannelsEncodable(config)
      ensures r.Good? && BuildStream(config) == Good(bitstring) ==> StreamHolds(bitstring, name, channel, r.value)
    {
      ReadsTheTree(config, name);
      if BuildStream(config) == Good(bitstring) { ReadsTheStream(config, name); }
      var regs := BuildChannelRegisterMap(config);
      assert regs == ChannelRegisters(config);
      if regs.Bad? { return Bad(regs.error); }
      if !ChannelRegisterExists(name) { return Bad(NoSuchVmmRegister); }
      if channel >= NUM_CH_PER_VMM { return Bad(VmmChannelOutOfRange); }
      r := if name in regs.value && channel < |regs.value[name]|
        then Good(regs.value[name][channel])
        else Bad(ArrayIndex);
    }

    method SetGlobalRegister(name: string, value: Word32) returns (error: Option<VmmError>)
      requires Valid()
      modifies this
      ensures Valid()
      ensures !GlobalRegisterExists(name) ==>
        error == Some(NoSuchVmmRegister) && config == old(config) && bitstring == old(bitstring)
      ensures GlobalRegisterExists(name) ==>
        var built := BuildStream(PutGlobal(old(config), name, value));
        && config == PutGlobal(old(config), name, value)
        && error == (if built.Good? then None else Some(VmmConfigIssue))
        && bitstring == (if built.Good? then built.value else old(bitstring))
      ensures State(config, bitstring, error.Some?)
        == Step(State(old(config), old(bitstring), false), SetGlobal(name, value))
    {
      if !GlobalRegisterExists(name) { return Some(NoSuchVmmRegister); }
      config := PutGlobal(config, name, value);
      var built := Build(config);
      if built.Bad? { return Some(VmmConfigIssue); }
      bitstring := built.value;
      error := None;
    }

    /** The only setter that does not ask whether the register exists. */
    method SetChannelRegisterAllChannels(name: string, value: Word32) returns (error: Option<VmmError>)
      requires Valid()
      modifies this
      ensures Valid()
      ensures config == PutAllChannels(old(config), name, value)
      ensures
        var built := BuildStream(config);
        && error == (if built.Good? then None else Some(built.error))
        && bitstring == (if built.Good? then built.value else old(bitstring))
      ensures State(config, bitstring, error.Some?)
        == Step(State(old(config), old(bitstring), false), SetAll(name, value))
    {
      config := PutAllChannels(config, name, value);
      var built := Build(config);
      if built.Bad? { return Some(built.error); }
      bitstring := built.value;
      error := None;
    }

    method SetChannelRegisterOneChannel(name: string, value: Word32, channel: Word32) returns (error: Option<VmmError>)
      requires Valid()
      modifies this
      ensures Valid()
      ensures
        var refusal := OneChannelRefusal(old(config), name, channel);
        if refusal.Some? then error == refusal && config == old(config) && bitstring == old(bitstring)
        else
          var built := BuildStream(PutOneChannel(old(config), name, value, channel));
          && config == PutOneChannel(old(config), name, value, channel)
          && error == (if built.Good? then None else Some(built.error))
          && bitstring == (if built.Good? then built.value else old(bitstring))
      ensures
        State(config, bitstring, error.Some?)
        == Step(State(old(config), old(bitstring), false), SetOne(name, value, channel))
    {
      if !ChannelRegisterExists(name) { return Some(NoSuchVmmRegister); }
      if channel >= NUM_CH_PER_VMM { return Some(VmmChannelOutOfRange); }
      var regs := BuildChannelRegisterMap(config);
      assert regs == ChannelRegisters(config);
      if regs.Bad? { return Some(regs.error); }
      var values := if name in regs.value
        && |regs.value[name]| == NUM_CH_PER_VMM then regs.value[name] else seq(NUM_CH_PER_VMM, _ => 0);
      config := config[name := Node(None, values[channel := value])];
      var built := Build(config);
      if built.Bad? { return Some(built.error); }
      bitstring := built.value;
      error := None;
    }
  }

  predicate Current(config: Config, bits: BitString) {
    BuildStream(config).Good? ==> bits == BuildStream(config).value
  }

  function ReadGlobalRegister(config: Config, name: string): Built<nat> {
    if GlobalRegisterExists(name) then GetUnsigned(config, name) else Bad(NoSuchVmmRegister)
  }

  /** Every field of this name in the two global blocks of the stream holds the value. */
  ghost predicate GlobalStreamHolds(bits: BitString, name: string, value: nat) {
    BlockHolds(bits, 0, GLOBAL_FIELDS_1, name, value) && BlockHolds(bits, GLOBAL_0_START, GLOBAL_FIELDS_0, name, value)
  }

  ghost predicate BlockHolds(bits: BitString, start: nat, fields: seq<Field>, name: string, value: nat) {
    forall k: nat | k < |fields| && fields[k].name == name ::
      start + Offset(fields, k) + fields[k].size <= |bits| && ReadGlobal(bits, start, fields, k) == value
  }

  lemma {:induction false} ReadsTheGlobalStream(config: Config, name: string)
    requires BuildStream(config).Good? && GlobalRegisterExists(name) && name != NOT_USED
    ensures GetUnsigned(config, name).Good?
    ensures GlobalStreamHolds(BuildStream(config).value, name, GetUnsigned(config, name).value)
  {
    hide BuildStream, GlobalBits, ChannelStream, GetUnsigned, TotalSize, Offset, ReadGlobal;
    GlobalSizes();
    StreamParts(config);
    GlobalRegisterName(name);
    var s := BuildStream(config).value;
    assert s[..CHANNELS_START] == s[0..0 + 96];
    assert s[GLOBAL_0_START..] == s[GLOBAL_0_START..GLOBAL_0_START + 96];
    GlobalBlockHolds(config, GLOBAL_FIELDS_1, s, 0, name);
    GlobalBlockHolds(config, GLOBAL_FIELDS_0, s, GLOBAL_0_START, name);
  }

  lemma {:induction false} GlobalBlockHolds(config: Config, fields: seq<Field>, s: BitString, start: nat, name: string)
    requires name != NOT_USED && start + TotalSize(fields) <= |s|
    requires GlobalBits(config, fields, |fields|) == Good(s[start..start + TotalSize(fields)])
    ensures (exists k :: 0 <= k < |fields| && fields[k].name == name) ==> GetUnsigned(config, name).Good?
    ensures GetUnsigned(config, name).Good? ==> BlockHolds(s, start, fields, name, GetUnsigned(config, name).value)
  {
    hide GlobalBits, GetUnsigned, TotalSize, Offset, ReadGlobal;
    forall k: nat | k < |fields| && fields[k].name == name
      ensures start + Offset(fields, k) + fields[k].size <= |s|
      ensures GetUnsigned(config, name) == Good(ReadGlobal(s, start, fields, k))
    {
      GlobalReadsBack(config, fields, k, s, start);
    }
  }

  function ReadAllChannels(config: Config, name: string): Built<seq<nat>> {
    var regs := ChannelRegisters(config);
    if regs.Bad? then Bad(regs.error)
    else if !ChannelRegisterExists(name) then Bad(NoSuchVmmRegister)
    else if name in regs.value then Good(regs.value[name]) else Bad(ArrayIndex)
  }

  function ReadOneChannel(config: Config, name: string, channel: nat): Built<nat> {
    var regs := ChannelRegisters(config);
    if regs.Bad? then Bad(regs.error)
    else if !ChannelRegisterExists(name) then Bad(NoSuchVmmRegister)
    else if channel >= NUM_CH_PER_VMM then Bad(VmmChannelOutOfRange)
    else if name in regs.value && channel < |regs.value[name]| then Good(regs.value[name][channel]) else Bad(ArrayIndex)
  }

  ghost predicate ChannelsEncodable(config: Config) {
    forall k | 0 <= k < |CHANNEL_FIELDS| :: ChannelOk(config, CHANNEL_FIELDS[k])
  }

  /** The field of this name in this channel of the stream holds the value. */
  ghost predicate StreamHolds(bits: BitString, name: string, channel: nat, value: nat) {
    exists k: nat :: k < |CHANNEL_FIELDS| && CHANNEL_FIELDS[k].name == name && FieldHolds(bits, k, channel, value)
  }

  predicate FieldHolds(bits: BitString, k: nat, channel: nat, value: nat)
    requires k < |CHANNEL_FIELDS|
  {
    var o := ChannelPosition(channel, k);
    0 <= o && o + CHANNEL_FIELDS[k].size <= |bits| && ReadChannel(bits, channel, k) == value
  }

  /** A channel register is read exactly when all of them are acceptable, and then as the tree spreads it. */
  lemma {:induction false} ReadsTheTree(config: Config, name: string)
    ensures
      var r := ReadAllChannels(config, name);
      && (r.Good? <==> ChannelRegisterExists(name) && name != NOT_USED && ChannelsEncodable(config))
      && (r.Good? ==> name in config && r.value == Spread(config[name]) && |r.value| == NUM_CH_PER_VMM)
    ensures ChannelRegisters(config).Good? <==> ChannelsEncodable(config)
    ensures forall channel: nat ::
      ReadOneChannel(config, name, channel).Good? <==> channel < NUM_CH_PER_VMM && ReadAllChannels(config, name).Good?
    ensures forall channel: nat | ReadOneChannel(config, name, channel).Good? ::
      ReadOneChannel(config, name, channel).value == ReadAllChannels(config, name).value[channel]
  {
    hide ChannelOk, Spread;
    ChannelsOkIff(config, CHANNEL_FIELDS);
    MapNames(config, CHANNEL_FIELDS, |CHANNEL_FIELDS|);
    if ChannelRegisters(config).Good? {
      MapHolds(config, CHANNEL_FIELDS);
      if ChannelRegisterExists(name) && name != NOT_USED {
        var k :| 0 <= k < |CHANNEL_FIELDS| && CHANNEL_FIELDS[k].name == name;
        assert Named(CHANNEL_FIELDS, k);
      }
    }
    hide ChannelMap;
  }

  lemma {:induction false} MapNames(config: Config, fields: seq<Field>, n: nat)
    requires n <= |fields|
    ensures ChannelMap(config, fields, n).Good? ==> NOT_USED !in ChannelMap(config, fields, n).value
  {
    if n > 0 { MapNames(config, fields, n - 1); }
  }

  /** And when the tree has a stream, as the stream holds it. */
  lemma {:induction false} ReadsTheStream(config: Config, name: string)
    requires BuildStream(config).Good?
    ensures ReadAllChannels(config, name).Good? ==> |ReadAllChannels(config, name).value| == NUM_CH_PER_VMM
    ensures ReadAllChannels(config, name).Good? ==>
      forall c: nat | c < NUM_CH_PER_VMM ::
        StreamHolds(BuildStream(config).value, name, c, ReadAllChannels(config, name).value[c])
  {
    hide BuildStream, Spread, ReadAllChannels, ChannelsEncodable, ReadChannel, ChannelPosition;
    ReadsTheTree(config, name);
    if ReadAllChannels(config, name).Good? {
      var k :| 0 <= k < |CHANNEL_FIELDS| && CHANNEL_FIELDS[k].name == name;
      forall c: nat | c < NUM_CH_PER_VMM
        ensures StreamHolds(BuildStream(config).value, name, c, ReadAllChannels(config, name).value[c])
      {
        ChannelRegisterReadsBack(config, c, k);
        assert FieldHolds(BuildStream(config).value, k, c, ReadAllChannels(config, name).value[c]);
      }
    }
  }

  function OneChannelRefusal(config: Config, name: string, channel: nat): (refusal: Option<VmmError>)
    ensures refusal.None? ==> ChannelRegisters(config).Good? && channel < NUM_CH_PER_VMM
  {
    if !ChannelRegisterExists(name) then Some(NoSuchVmmRegister)
    else if channel >= NUM_CH_PER_VMM then Some(VmmChannelOutOfRange)
    else if ChannelRegisters(config).Bad? then Some(ChannelRegisters(config).error)
    else None
  }

  // ----- What is refused -----

  /** The name is that of a field, of one of the global layouts or of the channel layout. */
  ghost predicate IsGlobal(name: string) {
    || (exists k :: 0 <= k < |GLOBAL_FIELDS_0| && GLOBAL_FIELDS_0[k].name == name)
    || (exists k :: 0 <= k < |GLOBAL_FIELDS_1| && GLOBAL_FIELDS_1[k].name == name)
  }

  ghost predicate IsChannel(name: string) {
    exists k :: 0 <= k < |CHANNEL_FIELDS| && CHANNEL_FIELDS[k].name == name
  }

  /** What the reading calls and the setter of one channel answer when they refuse, in the order of the checks: the
      channel registers come before the name when reading, and after it when setting. */
  lemma {:induction false} Refusals(config: Config, name: string, channel: nat)
    ensures ReadGlobalRegister(config, name) ==
      if !IsGlobal(name) then Bad(NoSuchVmmRegister)
      else if name !in config then Bad(BadPath)
      else if config[name].data.None? || config[name].data.value >= 0x1_0000_0000 then Bad(BadNumber)
      else Good(config[name].data.value)
    ensures
      var r := ReadAllChannels(config, name);
      if ChannelRegisters(config).Bad? then r == Bad(ChannelRegisters(config).error)
      else if !IsChannel(name) then r == Bad(NoSuchVmmRegister)
      else if name == "NOT_USED" then r == Bad(ArrayIndex)
      else r.Good?
    ensures
      var r := ReadOneChannel(config, name, channel);
      if ChannelRegisters(config).Bad? then r == Bad(ChannelRegisters(config).error)
      else if !IsChannel(name) then r == Bad(NoSuchVmmRegister)
      else if channel >= 64 then r == Bad(VmmChannelOutOfRange)
      else if name == "NOT_USED" then r == Bad(ArrayIndex)
      else r.Good?
    ensures OneChannelRefusal(config, name, channel) ==
      if !IsChannel(name) then Some(NoSuchVmmRegister)
      else if channel >= 64 then Some(VmmChannelOutOfRange)
      else if ChannelRegisters(config).Bad? then Some(ChannelRegisters(config).error)
      else None
    ensures GlobalRegisterExists(name) <==> IsGlobal(name)
  {
    ReadsTheTree(config, name);
    MapNames(config, CHANNEL_FIELDS, |CHANNEL_FIELDS|);
    hide ChannelMap, ChannelOk;
    assert ChannelRegisterExists(name) <==> IsChannel(name);
  }

  // ----- Runs -----

  datatype SetOp =
    | SetGlobal(name: string, value: Word32)
    | SetAll(name: string, value: Word32)
    | SetOne(name: string, value: Word32, channel: Word32)

  datatype State = State(config: Config, bits: BitString, failed: bool)

  /** One setter call, as the methods of the class specify it. */
  function Step(s: State, op: SetOp): State {
    match op
    case SetGlobal(name, value) =>
      if GlobalRegisterExists(name) then Rebuilt(s, PutGlobal(s.config, name, value)) else s.(failed := true)
    case SetAll(name, value) => Rebuilt(s, PutAllChannels(s.config, name, value))
    case SetOne(name, value, channel) =>
      if OneChannelRefusal(s.config, name, channel).Some? then s.(failed := true)
      else Rebuilt(s, PutOneChannel(s.config, name, value, channel))
  }

  function Rebuilt(s: State, config: Config): State {
    var built := BuildStream(config);
    State(config, if built.Good? then built.value else s.bits, built.Bad?)
  }

  function Run(s: State, ops: seq<SetOp>): State {
    if ops == [] then s else Step(Run(s, ops[..|ops| - 1]), ops[|ops| - 1])
  }

  /** After any calls at all, failing or not: the stream is the tree's whenever the tree has one, and whenever the
      last call returned normally the tree has one. */
  lemma {:induction false} TreeAndStreamAgree(s: State, ops: seq<SetOp>)
    requires BuildStream(s.config) == Good(s.bits) && !s.failed
    ensures
      var t := Run(s, ops);
      && Current(t.config, t.bits)
      && (!t.failed ==> BuildStream(t.config) == Good(t.bits))
      && |t.bits| == NBITS_TOTAL
  {
    hide BuildStream;
    if ops == [] {
      StreamParts(s.config);
    } else {
      TreeAndStreamAgree(s, ops[..|ops| - 1]);
      RebuiltAgrees(Run(s, ops[..|ops| - 1]), ops[|ops| - 1]);
    }
  }

  lemma {:induction false} RebuiltAgrees(s: State, op: SetOp)
    requires Current(s.config, s.bits) && |s.bits| == NBITS_TOTAL
    ensures
      var t := Step(s, op);
      && Current(t.config, t.bits)
      && (!t.failed ==> BuildStream(t.config) == Good(t.bits))
      && |t.bits| == NBITS_TOTAL
  {
    hide BuildStream;
    var t := Step(s, op);
    if BuildStream(t.config).Good? { StreamParts(t.config); }
  }

  // ----- What one setter changes -----

  lemma {:induction false} GlobalNamesOnly(k: nat)
    ensures k < |GLOBAL_FIELDS_0| ==> GlobalName(GLOBAL_FIELDS_0[k].name)
    ensures k < |GLOBAL_FIELDS_1| ==> GlobalName(GLOBAL_FIELDS_1[k].name)
  {
    Global0Size();
    Global1Size();
  }

  lemma {:induction false} ChannelNamesOnly(k: nat)
    requires k < |CHANNEL_FIELDS|
    ensures CHANNEL_FIELDS[k].name != NOT_USED ==> !GlobalName(CHANNEL_FIELDS[k].name)
  {
  }

  lemma {:induction false} ChannelNamesDistinct(j: nat, k: nat)
    requires j < k < |CHANNEL_FIELDS|
    ensures CHANNEL_FIELDS[j].name != CHANNEL_FIELDS[k].name
  {
  }

  /** The same tree except for the node of one name. */
  ghost predicate OnlyNode(c: Config, d: Config, name: string) {
    forall n :: n != name ==> (n in c <==> n in d) && (n in c ==> c[n] == d[n])
  }

  /** A node no global register has leaves both global blocks as they were. */
  lemma {:induction false} BlocksUnchanged(c: Config, d: Config, name: string)
    requires OnlyNode(c, d, name) && !GlobalName(name)
    requires BuildStream(c).Good? && BuildStream(d).Good?
    ensures
      var s, t := BuildStream(c).value, BuildStream(d).value;
      && |s| == |t| == NBITS_TOTAL
      && t[..CHANNELS_START] == s[..CHANNELS_START] && t[GLOBAL_0_START..] == s[GLOBAL_0_START..]
  {
    hide BuildStream, GlobalBits, ChannelStream;
    StreamParts(c);
    StreamParts(d);
    Global0Size();
    Global1Size();
    hide Sized;
    UntouchedBlock(c, d, name, GLOBAL_FIELDS_0, 57, 96);
    UntouchedBlock(c, d, name, GLOBAL_FIELDS_1, 13, 96);
  }

  lemma {:induction false} UntouchedBlock(
    c: Config, d: Config, name: string, fields: seq<Field>, count: nat, total: nat)
    requires OnlyNode(c, d, name) && !GlobalName(name) && Sized(fields, count, total)
    ensures GlobalBits(c, fields, |fields|) == GlobalBits(d, fields, |fields|)
  {
    SameFieldsSameBits(c, d, fields, |fields|);
  }

  lemma {:induction false} SameFieldsSameBits(c: Config, d: Config, fields: seq<Field>, n: nat)
    requires n <= |fields|
    requires forall k | 0 <= k < n :: GlobalField(c, fields[k]) == GlobalField(d, fields[k])
    ensures GlobalBits(c, fields, n) == GlobalBits(d, fields, n)
  {
    if n > 0 { SameFieldsSameBits(c, d, fields, n - 1); }
  }

  /** The number field `k` of a channel has in the tree; unused bits count as zero. */
  function InTree(config: Config, k: nat, channel: nat): nat
    requires k < |CHANNEL_FIELDS|
  {
    var name := CHANNEL_FIELDS[k].name;
    if name == NOT_USED || name !in config || channel >= |Spread(config[name])| then 0
    else Spread(config[name])[channel]
  }

  lemma {:induction false} StreamTellsTree(config: Config, channel: nat, k: nat)
    requires BuildStream(config).Good? && k < |CHANNEL_FIELDS| && channel < NUM_CH_PER_VMM
    ensures |BuildStream(config).value| == NBITS_TOTAL
    ensures CHANNELS_START <= ChannelPosition(channel, k) <= GLOBAL_0_START - CHANNEL_FIELDS[k].size
    ensures ReadChannel(BuildStream(config).value, channel, k) == InTree(config, k, channel)
  {
    hide BuildStream, Spread, ChannelPosition, ReadChannel;
    ChannelReadsBack(config, channel, k);
    if CHANNEL_FIELDS[k].name != NOT_USED { ChannelRegisterReadsBack(config, channel, k); }
  }

  /** One channel, or all of them. */
  predicate Selected(which: Option<nat>, channel: nat) { which.None? || which.value == channel }

  /** The selected channels read `value` in field `k`; every other field of every channel, and both global blocks,
      are as before. */
  ghost predicate OnlyThoseChange(before: BitString, after: BitString, k: nat, which: Option<nat>, value: nat)
    requires |before| == |after| == NBITS_TOTAL && k < |CHANNEL_FIELDS|
  {
    && after[..CHANNELS_START] == before[..CHANNELS_START]
    && after[GLOBAL_0_START..] == before[GLOBAL_0_START..]
    && forall c: nat, j: nat | c < NUM_CH_PER_VMM
         && j < |CHANNEL_FIELDS| :: FieldAfter(before, after, c, j, k, which, value)
  }

  predicate FieldAfter(before: BitString, after: BitString, c: nat, j: nat, k: nat, which: Option<nat>, value: nat)
    requires j < |CHANNEL_FIELDS|
  {
    var o := ChannelPosition(c, j);
    && 0 <= o && o + CHANNEL_FIELDS[j].size <= |before| == |after|
    && ReadChannel(after, c, j) == (if j == k && Selected(which, c) then value else ReadChannel(before, c, j))
  }

  /** Setting one channel overwrites that channel's field and no other bit that belongs to a field, whether the
      register was a number for all channels or an array; it is refused exactly when the value does not fit. */
  lemma {:induction false} SetOneChangesOneField(config: Config, k: nat, value: Word32, channel: nat)
    requires BuildStream(config).Good? && k < |CHANNEL_FIELDS| && channel < NUM_CH_PER_VMM
    requires CHANNEL_FIELDS[k].name != NOT_USED
    ensures OneChannelRefusal(config, CHANNEL_FIELDS[k].name, channel).None?
    ensures
      var after := BuildStream(PutOneChannel(config, CHANNEL_FIELDS[k].name, value, channel));
      && |BuildStream(config).value| == NBITS_TOTAL
      && (after.Good? <==> value < Pow2(CHANNEL_FIELDS[k].size))
      && (after.Good? ==>
        |after.value| == NBITS_TOTAL
          && OnlyThoseChange(BuildStream(config).value, after.value, k, Some(channel), value))
  {
    hide BuildStream, ChannelMap, OnlyThoseChange, Acceptable, InTree;
    StreamParts(config);
    assert ChannelRegisterExists(CHANNEL_FIELDS[k].name);
    var d := PutOneChannel(config, CHANNEL_FIELDS[k].name, value, channel);
    OneChannelInTree(config, k, value, channel);
    OneNodeStillEncodable(config, d, k, value);
    if BuildStream(d).Good? {
      StreamParts(d);
      ChangedNodes(config, d, k, Some(channel), value);
    }
  }

  lemma {:induction false} OneChannelInTree(config: Config, k: nat, value: Word32, channel: nat)
    requires BuildStream(config).Good? && k < |CHANNEL_FIELDS| && channel < NUM_CH_PER_VMM
    requires CHANNEL_FIELDS[k].name != NOT_USED && ChannelRegisters(config).Good?
    ensures
      var f := CHANNEL_FIELDS[k];
      var d := PutOneChannel(config, f.name, value, channel);
      && OnlyNode(config, d, f.name) && f.name in d
      && (Acceptable(d[f.name], f.size) <==> value < Pow2(f.size))
      && (forall ch: nat | ch < NUM_CH_PER_VMM ::
           InTree(d, k, ch) == if Selected(Some(channel), ch) then value else InTree(config, k, ch))
  {
    BuiltIffEncodable(config);
    hide BuildStream, ChannelMap;
    MapHolds(config, CHANNEL_FIELDS);
    var f := CHANNEL_FIELDS[k];
    assert Named(CHANNEL_FIELDS, k) && ChannelOk(config, f);
    var x, y := Spread(config[f.name]), Spread(PutOneChannel(config, f.name, value, channel)[f.name]);
    assert y == x[channel := value];
    assert y[channel] == value;
  }

  /** Setting all channels does so for all 64 fields of the register, and only for those. */
  lemma {:induction false} SetAllChangesOneRegister(config: Config, k: nat, value: Word32)
    requires BuildStream(config).Good? && k < |CHANNEL_FIELDS| && CHANNEL_FIELDS[k].name != NOT_USED
    ensures
      var after := BuildStream(PutAllChannels(config, CHANNEL_FIELDS[k].name, value));
      && |BuildStream(config).value| == NBITS_TOTAL
      && (after.Good? <==> value < Pow2(CHANNEL_FIELDS[k].size))
      && (after.Good? ==>
        && |after.value| == NBITS_TOTAL
        && OnlyThoseChange(BuildStream(config).value, after.value, k, None, value))
  {
    hide BuildStream, ChannelMap, OnlyThoseChange, Acceptable, InTree;
    StreamParts(config);
    var d := PutAllChannels(config, CHANNEL_FIELDS[k].name, value);
    AllChannelsInTree(config, k, value);
    OneNodeStillEncodable(config, d, k, value);
    if BuildStream(d).Good? {
      StreamParts(d);
      ChangedNodes(config, d, k, None, value);
    }
  }

  lemma {:induction false} AllChannelsInTree(config: Config, k: nat, value: Word32)
    requires k < |CHANNEL_FIELDS| && CHANNEL_FIELDS[k].name != NOT_USED
    ensures
      var f := CHANNEL_FIELDS[k];
      var d := PutAllChannels(config, f.name, value);
      && OnlyNode(config, d, f.name) && f.name in d
      && (Acceptable(d[f.name], f.size) <==> value < Pow2(f.size))
      && (forall ch: nat | ch < NUM_CH_PER_VMM :: InTree(d, k, ch) == value)
  {
    var f := CHANNEL_FIELDS[k];
    var y := Spread(PutAllChannels(config, f.name, value)[f.name]);
    assert y[0] == value;
  }

  /** After a change to the node of field `k` alone, the new tree is encodable exactly when the node is. */
  lemma {:induction false} OneNodeStillEncodable(c: Config, d: Config, k: nat, value: nat)
    requires BuildStream(c).Good? && k < |CHANNEL_FIELDS| && CHANNEL_FIELDS[k].name != NOT_USED
    requires OnlyNode(c, d, CHANNEL_FIELDS[k].name) && CHANNEL_FIELDS[k].name in d
    requires Acceptable(d[CHANNEL_FIELDS[k].name], CHANNEL_FIELDS[k].size) <==> value < Pow2(CHANNEL_FIELDS[k].size)
    ensures BuildStream(d).Good? <==> value < Pow2(CHANNEL_FIELDS[k].size)
  {
    hide BuildStream, Acceptable;
    BuiltIffEncodable(c);
    BuiltIffEncodable(d);
    ChannelNamesOnly(k);
    forall j | 0 <= j < |GLOBAL_FIELDS_0| ensures GlobalOk(d, GLOBAL_FIELDS_0[j]) { GlobalNamesOnly(j); }
    forall j | 0 <= j < |GLOBAL_FIELDS_1| ensures GlobalOk(d, GLOBAL_FIELDS_1[j]) { GlobalNamesOnly(j); }
    OtherChannelsOk(c, d, CHANNEL_FIELDS, k);
  }

  lemma {:induction false} OtherChannelsOk(c: Config, d: Config, fields: seq<Field>, k: nat)
    requires fields == CHANNEL_FIELDS && k < |fields| && OnlyNode(c, d, fields[k].name)
    requires forall j | 0 <= j < |fields| :: ChannelOk(c, fields[j])
    ensures (forall j | 0 <= j < |fields| :: ChannelOk(d, fields[j])) <==> ChannelOk(d, fields[k])
  {
    hide Acceptable;
    forall j | 0 <= j < |fields| && j != k ensures ChannelOk(d, fields[j]) {
      if j < k { ChannelNamesDistinct(j, k); } else { ChannelNamesDistinct(k, j); }
      assert ChannelOk(c, fields[j]);
    }
  }

  lemma {:induction false} ChangedNodes(c: Config, d: Config, k: nat, which: Option<nat>, value: nat)
    requires BuildStream(c).Good? && BuildStream(d).Good? && k < |CHANNEL_FIELDS|
    requires |BuildStream(c).value| == |BuildStream(d).value| == NBITS_TOTAL
    requires CHANNEL_FIELDS[k].name != NOT_USED && OnlyNode(c, d, CHANNEL_FIELDS[k].name)
    requires forall ch: nat | ch < NUM_CH_PER_VMM ::
      InTree(d, k, ch) == if Selected(which, ch) then value else InTree(c, k, ch)
    ensures OnlyThoseChange(BuildStream(c).value, BuildStream(d).value, k, which, value)
  {
    hide BuildStream, InTree, ReadChannel, ChannelPosition;
    ChannelNamesOnly(k);
    BlocksUnchanged(c, d, CHANNEL_FIELDS[k].name);
    forall ch: nat, j: nat | ch < NUM_CH_PER_VMM && j < |CHANNEL_FIELDS|
      ensures FieldAfter(BuildStream(c).value, BuildStream(d).value, ch, j, k, which, value)
    {
      StreamTellsTree(c, ch, j);
      StreamTellsTree(d, ch, j);
      OtherFieldsInTree(c, d, j, k, ch);
    }
  }

  lemma {:induction false} OtherFieldsInTree(c: Config, d: Config, j: nat, k: nat, channel: nat)
    requires j < |CHANNEL_FIELDS| && k < |CHANNEL_FIELDS| && OnlyNode(c, d, CHANNEL_FIELDS[k].name)
    ensures j != k ==> InTree(c, j, channel) == InTree(d, j, channel)
  {
    if j < k { ChannelNamesDistinct(j, k); } else if k < j { ChannelNamesDistinct(k, j); }
  }

  /** The value fits every field of that name. */
  ghost predicate FitsFields(fields: seq<Field>, name: string, value: nat) {
    forall k | 0 <= k < |fields| && fields[k].name == name :: value < Pow2(fields[k].size)
  }

  /** In the block at `start`, the fields of one name read `value`, every other field holds the bits it had. */
  ghost predicate BlockAfter(
    before: BitString, after: BitString, start: nat, fields: seq<Field>, name: string, value: nat)
    requires |before| == |after| == NBITS_TOTAL && start + TotalSize(fields) <= NBITS_TOTAL
  {
    forall k: nat | k < |fields| :: GlobalFieldAfter(before, after, start, fields, k, name, value)
  }

  predicate GlobalFieldAfter(
    before: BitString, after: BitString, start: nat, fields: seq<Field>, k: nat, name: string, value: nat)
    requires k < |fields|
  {
    var o := start + Offset(fields, k);
    && o + fields[k].size <= |before| == |after|
    && (if fields[k].name == name then ReadGlobal(after, start, fields, k) == value
        else after[o..o + fields[k].size] == before[o..o + fields[k].size])
  }

  /** Setting a global register overwrites its field and nothing else, and is refused exactly when the value does not
      fit. */
  lemma {:induction false} SetGlobalChangesOneRegister(config: Config, name: string, value: Word32)
    requires BuildStream(config).Good? && GlobalRegisterExists(name) && name != NOT_USED
    ensures TotalSize(GLOBAL_FIELDS_0) == TotalSize(GLOBAL_FIELDS_1) == 96
    ensures
      var after := BuildStream(PutGlobal(config, name, value));
      && (after.Good? <==> FitsFields(GLOBAL_FIELDS_0, name, value) && FitsFields(GLOBAL_FIELDS_1, name, value))
      && (after.Good? ==>
        var s, t := BuildStream(config).value, after.value;
        && |s| == |t| == NBITS_TOTAL
        && t[CHANNELS_START..GLOBAL_0_START] == s[CHANNELS_START..GLOBAL_0_START]
        && BlockAfter(s, t, 0, GLOBAL_FIELDS_1, name, value)
        && BlockAfter(s, t, GLOBAL_0_START, GLOBAL_FIELDS_0, name, value))
  {
    hide BuildStream, FitsFields, BlockAfter, TotalSize, GlobalBits, ChannelStream, GlobalRegisterExists;
    hide Offset;
    GlobalSizes();
    var d := PutGlobal(config, name, value);
    GlobalStillEncodable(config, name, value);
    StreamParts(config);
    if BuildStream(d).Good? {
      StreamParts(d);
      var s, t := BuildStream(config).value, BuildStream(d).value;
      GlobalRegisterName(name);
      ChannelsUntouched(config, d, name);
      assert s[..CHANNELS_START] == s[0..0 + 96] && t[..CHANNELS_START] == t[0..0 + 96];
      assert s[GLOBAL_0_START..] == s[GLOBAL_0_START..GLOBAL_0_START + 96];
      assert t[GLOBAL_0_START..] == t[GLOBAL_0_START..GLOBAL_0_START + 96];
      BlockChanges(config, name, value, GLOBAL_FIELDS_1, s, t, 0);
      BlockChanges(config, name, value, GLOBAL_FIELDS_0, s, t, GLOBAL_0_START);
    }
  }

  lemma {:induction false} GlobalSizes()
    ensures TotalSize(GLOBAL_FIELDS_0) == 96 && TotalSize(GLOBAL_FIELDS_1) == 96
  {
    Global0Size();
    Global1Size();
  }

  lemma {:induction false} GlobalRegisterName(name: string)
    requires GlobalRegisterExists(name)
    ensures GlobalName(name)
  {
    Global0Size();
    Global1Size();
  }

  lemma {:induction false} GlobalStillEncodable(c: Config, name: string, value: Word32)
    requires BuildStream(c).Good? && GlobalRegisterExists(name) && name != NOT_USED
    ensures
      BuildStream(PutGlobal(c, name, value)).Good?
      <==> FitsFields(GLOBAL_FIELDS_0, name, value) && FitsFields(GLOBAL_FIELDS_1, name, value)
  {
    var d := PutGlobal(c, name, value);
    hide BuildStream, Acceptable, FitsFields, GlobalRegisterExists;
    BuiltIffEncodable(c);
    BuiltIffEncodable(d);
    GlobalRegisterName(name);
    BlockStillOk(c, name, value, GLOBAL_FIELDS_0);
    BlockStillOk(c, name, value, GLOBAL_FIELDS_1);
    forall j | 0 <= j < |CHANNEL_FIELDS| ensures ChannelOk(d, CHANNEL_FIELDS[j]) {
      ChannelNamesOnly(j);
      assert ChannelOk(c, CHANNEL_FIELDS[j]);
    }
  }

  lemma {:induction false} BlockStillOk(c: Config, name: string, value: Word32, fields: seq<Field>)
    requires name != NOT_USED && forall k | 0 <= k < |fields| :: GlobalOk(c, fields[k])
    ensures (forall k | 0 <= k < |fields| :: GlobalOk(PutGlobal(c, name, value), fields[k]))
      <==> FitsFields(fields, name, value)
  {
    forall k | 0 <= k < |fields|
      ensures GlobalOk(PutGlobal(c, name, value), fields[k])
        <==> (fields[k].name == name ==> value < Pow2(fields[k].size))
    {
      assert GlobalOk(c, fields[k]);
    }
  }

  lemma {:induction false} ChannelsUntouched(c: Config, d: Config, name: string)
    requires OnlyNode(c, d, name) && GlobalName(name) && ChannelRegisters(c).Good? && ChannelRegisters(d).Good?
    ensures ChannelStream(ChannelRegisters(c).value, CHANNEL_FIELDS, NUM_CH_PER_VMM)
         == ChannelStream(ChannelRegisters(d).value, CHANNEL_FIELDS, NUM_CH_PER_VMM)
  {
    hide ChannelMap, Spread;
    MapHolds(c, CHANNEL_FIELDS);
    MapHolds(d, CHANNEL_FIELDS);
    forall k | 0 <= k < |CHANNEL_FIELDS| && CHANNEL_FIELDS[k].name != NOT_USED
      ensures CHANNEL_FIELDS[k].name in c && CHANNEL_FIELDS[k].name in d
      ensures Spread(c[CHANNEL_FIELDS[k].name]) == Spread(d[CHANNEL_FIELDS[k].name])
    {
      ChannelNamesOnly(k);
      assert Named(CHANNEL_FIELDS, k);
    }
    StreamFromChannels(c, d, NUM_CH_PER_VMM);
  }

  lemma {:induction false} BlockChanges(
    c: Config, name: string, value: Word32, fields: seq<Field>, s: BitString, t: BitString, start: nat)
    requires |s| == |t| == NBITS_TOTAL && start + TotalSize(fields) <= NBITS_TOTAL && name != NOT_USED
    requires GlobalBits(c, fields, |fields|) == Good(s[start..start + TotalSize(fields)])
    requires GlobalBits(PutGlobal(c, name, value), fields, |fields|) == Good(t[start..start + TotalSize(fields)])
    ensures BlockAfter(s, t, start, fields, name, value)
  {
    var d := PutGlobal(c, name, value);
    hide GlobalBits, ReadGlobal, Offset;
    forall k: nat | k < |fields| ensures GlobalFieldAfter(s, t, start, fields, k, name, value) {
      GlobalSlice(c, fields, |fields|, k);
      GlobalSlice(d, fields, |fields|, k);
      var o := Offset(fields, k);
      SliceOfSlice(s, start, start + TotalSize(fields), o, o + fields[k].size);
      SliceOfSlice(t, start, start + TotalSize(fields), o, o + fields[k].size);
      if fields[k].name == name {
        GlobalReadsBack(d, fields, k, t, start);
      }
    }
  }

  // ----- Reading what was set -----

  /** After setting one channel the getters answer with the value for that channel and as before for all others. */
  lemma {:induction false} ReadAfterSetOne(config: Config, k: nat, value: Word32, channel: nat, c: nat)
    requires BuildStream(config).Good? && k < |CHANNEL_FIELDS| && CHANNEL_FIELDS[k].name != NOT_USED
    requires channel < NUM_CH_PER_VMM && c < NUM_CH_PER_VMM && value < Pow2(CHANNEL_FIELDS[k].size)
    ensures ChannelRegisters(config).Good?
    ensures
      var name := CHANNEL_FIELDS[k].name;
      ReadOneChannel(PutOneChannel(config, name, value, channel), name, c)
      == if c == channel then Good(value) else ReadOneChannel(config, name, c)
  {
    StreamParts(config);
    var name := CHANNEL_FIELDS[k].name;
    var d := PutOneChannel(config, name, value, channel);
    assert ChannelRegisterExists(name);
    OneChannelInTree(config, k, value, channel);
    OneNodeStillEncodable(config, d, k, value);
    StreamParts(d);
    hide BuildStream, PutOneChannel, ReadOneChannel, Acceptable, InTree, OnlyNode;
    ReadIsInTree(config, k, c);
    ReadIsInTree(d, k, c);
    assert InTree(d, k, c) == if Selected(Some(channel), c) then value else InTree(config, k, c);
  }

  lemma {:induction false} ReadIsInTree(config: Config, k: nat, channel: nat)
    requires ChannelRegisters(config).Good? && channel < NUM_CH_PER_VMM
    requires k < |CHANNEL_FIELDS| && CHANNEL_FIELDS[k].name != NOT_USED
    ensures ReadOneChannel(config, CHANNEL_FIELDS[k].name, channel) == Good(InTree(config, k, channel))
  {
    var name := CHANNEL_FIELDS[k].name;
    assert ChannelRegisterExists(name);
    hide ChannelMap, ReadOneChannel, Spread, ChannelOk;
    ReadsTheTree(config, name);
  }

  /** After setting a global register, with the value for that one and as before for all others, even if the value is
      out of range and the stream is not rebuilt. */
  lemma {:induction false} ReadAfterSetGlobal(config: Config, name: string, value: Word32, other: string)
    requires GlobalRegisterExists(name)
    ensures
      ReadGlobalRegister(PutGlobal(config, name, value), other)
      == if other == name then Good(value) else ReadGlobalRegister(config, other)
  {
    hide GlobalRegisterExists;
  }

  /** After setting all channels, with the value for every channel. */
  lemma {:induction false} ReadAfterSetAll(config: Config, k: nat, value: Word32, c: nat)
    requires BuildStream(config).Good? && k < |CHANNEL_FIELDS| && CHANNEL_FIELDS[k].name != NOT_USED
    requires c < NUM_CH_PER_VMM && value < Pow2(CHANNEL_FIELDS[k].size)
    ensures
      var name := CHANNEL_FIELDS[k].name;
      ReadOneChannel(PutAllChannels(config, name, value), name, c) == Good(value)
  {
    var name := CHANNEL_FIELDS[k].name;
    var d := PutAllChannels(config, name, value);
    assert ChannelRegisterExists(name);
    AllChannelsInTree(config, k, value);
    OneNodeStillEncodable(config, d, k, value);
    StreamParts(d);
    hide BuildStream, PutAllChannels, ReadOneChannel, Acceptable, InTree;
    ReadIsInTree(d, k, c);
  }
}
