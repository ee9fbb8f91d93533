/** Training of the GBTx phase aligners (src/GBTxConfig.cpp, src/L1DDCConfig.cpp): which bytes of the image the
    training calls overwrite, and what a run of them leaves behind. */
module GbtxTraining {
  import opened Bits
  import opened Utility
  import opened GbtxConfig

  /** A call of `reset`. */
  datatype Write = Write(name: string, value: nat)

  const RESET_NAMES: seq<string> := [
    "paResetEC", "paResetGroup0", "paResetGroup1", "paResetGroup2", "paResetGroup3", "paResetGroup4", "paResetGroup5",
    "paResetGroup6"]
  const TRAIN_NAMES: seq<string> := [
    "paTrainGroup0", "paTrainGroup1", "paTrainGroup2", "paTrainGroup3", "paTrainGroup4", "paTrainGroup5",
    "paTrainGroup6"]
  const MODE := "paMode"
  const TRAIN_EC := "paTrainEC"

  const RESET_ON: seq<nat> := [0x01, 0x00, 0xFF, 0xFF, 0xFF, 0xFF, 0x00, 0x00]
  const RESET_OFF_MMG: seq<nat> := [0x00, 0x00, 0x01, 0x00, 0x00, 0x00, 0x00, 0x00]
  const RESET_OFF: seq<nat> := [0x00, 0x00, 0x00, 0x00, 0x00, 0x00, 0x00, 0x00]
  const TRAIN_ON: seq<nat> := [0xFF, 0xFF, 0xFF, 0xFF, 0xFF, 0x00, 0x00]
  const TRAIN_OFF: seq<nat> := [0x00, 0x00, 0x00, 0x00, 0x00, 0x00, 0x00]

  // ----- The settings of the compiled register map that training uses -----

  predicate At(maps: RegisterMaps, name: string, rg: RegMap) { name in maps && maps[name] == rg }

  /** Three copies in consecutive registers. */
  function Group(r: nat): RegMap { RegMap([0, 0, 0], [r, r + 1, r + 2]) }

  function ResetRegs(k: nat): RegMap {
    if k == 0 then RegMap([0, 1, 2], [251, 251, 251]) else Group(84 + 24 * (k - 1))
  }

  function TrainRegs(k: nat): RegMap { Group(78 + 24 * k) }

  const MODE_REGS: RegMap := RegMap([0, 2, 4], [62, 62, 62])
  const TRAIN_EC_REGS: RegMap := RegMap([0, 1, 2], [245, 245, 245])

  ghost predicate Compiled(maps: RegisterMaps) {
    && (forall k: nat | k < 8 :: At(maps, RESET_NAMES[k], ResetRegs(k)))
    && (forall k: nat | k < 7 :: At(maps, TRAIN_NAMES[k], TrainRegs(k)))
    && At(maps, MODE, MODE_REGS) && At(maps, TRAIN_EC, TRAIN_EC_REGS)
  }

  // ----- Specification -----

  function Writes(names: seq<string>, values: seq<nat>): (ws: seq<Write>)
    requires |names| == |values|
    ensures |ws| == |names|
  {
    seq(|names|, k requires 0 <= k < |names| => Write(names[k], values[k]))
  }

  /** The image after a list of resets, none of which can fail when the names are compiled in. */
  function Apply(image: Image, maps: RegisterMaps, ws: seq<Write>): Image {
    if ws == [] then image
    else AfterReset(Apply(image, maps, ws[..|ws| - 1]), maps, ws[|ws| - 1].name, ws[|ws| - 1].value).image
  }

  predicate IsType(gbtxType: string, t: string) { Contains(gbtxType, t) }

  predicate Trainable(gbtxType: string) {
    IsType(gbtxType, "mmg") || IsType(gbtxType, "pfeb") || IsType(gbtxType, "sfeb") || IsType(gbtxType, "rim")
  }

  function ResetWrites(gbtxType: string, on: bool): seq<Write> {
    Writes(RESET_NAMES, if on then RESET_ON else if IsType(gbtxType, "mmg") then RESET_OFF_MMG else RESET_OFF)
  }

  /** All the resets of one call for one GBTx, in order. */
  function CallWrites(gbtxType: string, ec: bool, on: bool): seq<Write> {
    ResetWrites(gbtxType, on)
    + (if on then [Write(MODE, 1)] else [])
    + Writes(TRAIN_NAMES, if on then TRAIN_ON else TRAIN_OFF)
    + (if ec then [Write(TRAIN_EC, if on then 1 else 0)] else [])
  }

  /** What `trainGbtxsOn` or `trainGbtxsOff` does to one GBTx. */
  function AfterCall(image: Image, maps: RegisterMaps, gbtxType: string, ec: bool, on: bool): Outcome {
    if Trainable(gbtxType) then Outcome(Apply(image, maps, CallWrites(gbtxType, ec, on)), None)
    else Outcome(image, Some(BadTrainingType))
  }

  // ----- One byte -----

  /** The byte a reset leaves in register `r`: it does not depend on what was there. */
  function ByteOf(rg: RegMap, value: nat, n: nat, r: nat): (b: Byte)
    requires n <= |rg.registers| && n <= |rg.shifts|
  {
    if n == 0 then 0
    else if rg.registers[n - 1] == r then OrByte(ByteOf(rg, value, n - 1, r), Shifted(value, rg.shifts[n - 1]))
    else ByteOf(rg, value, n - 1, r)
  }

  lemma {:induction false} ByteAfterClear(image: Image, registers: seq<nat>, n: nat, r: nat)
    requires n <= |registers| && r < NUM_REGISTERS && forall i | 0 <= i < |registers| :: registers[i] < NUM_REGISTERS
    ensures ClearRegisters(image, registers, n).error.None?
    ensures ClearRegisters(image, registers, n).image[r] == if r in registers[..n] then 0 else image[r]
  {
    if n > 0 {
      ByteAfterClear(image, registers, n - 1, r);
      assert registers[..n] == registers[..n - 1] + [registers[n - 1]];
    }
  }

  lemma {:induction false} ByteAfterCopies(image: Image, rg: RegMap, value: nat, n: nat, r: nat)
    requires n <= |rg.registers| && CopiesOk(rg, n) && r < NUM_REGISTERS
    requires r in rg.registers ==> image[r] == 0
    ensures SetCopies(image, rg, value, n).error.None?
    ensures SetCopies(image, rg, value, n).image[r] == if r in rg.registers then ByteOf(rg, value, n, r) else image[r]
  {
    hide Shifted, OrByte;
    if n > 0 {
      ByteAfterCopies(image, rg, value, n - 1, r);
      assert rg.registers[n - 1] in rg.registers;
    }
  }

  lemma {:induction false} ByteAfterReset(image: Image, maps: RegisterMaps, name: string, value: nat, r: nat)
    requires name in maps && CopiesOk(maps[name], |maps[name].registers|) && r < NUM_REGISTERS
    ensures AfterReset(image, maps, name, value).error.None?
    ensures
      AfterReset(image, maps, name, value).image[r]
      == if r in maps[name].registers then ByteOf(maps[name], value, |maps[name].registers|, r) else image[r]
  {
    var rg := maps[name];
    ByteAfterClear(image, rg.registers, |rg.registers|, r);
    assert rg.registers[..|rg.registers|] == rg.registers;
    ByteAfterCopies(ClearRegisters(image, rg.registers, |rg.registers|).image, rg, value, |rg.registers|, r);
  }

  lemma {:induction false} ClearedIff(image: Image, registers: seq<nat>, n: nat)
    requires n <= |registers|
    ensures ClearRegisters(image, registers, n).error.None? <==> forall i | 0 <= i < n :: registers[i] <= 435
    ensures ClearRegisters(image, registers, n).error in {None, Some(OutOfRange)}
  {
    if n > 0 { ClearedIff(image, registers, n - 1); }
  }

  /** A reset succeeds exactly when every copy of a known setting fits; then the setting's registers hold the low byte
      of the value where the copies put it, and nothing else, and the other registers are as they were. */
  lemma {:induction false} ResetMeans(image: Image, maps: RegisterMaps, name: string, value: nat, r: nat, b: nat)
    requires r < 436
    ensures name !in maps ==> AfterReset(image, maps, name, value) == Outcome(image, Some(OutOfRange))
    ensures name in maps ==>
      (AfterReset(image, maps, name, value).error.None?
       <==> forall i: nat | i < |maps[name].registers| :: CopyFits(maps[name], i))
    ensures AfterReset(image, maps, name, value).error.None? && r !in maps[name].registers ==>
      AfterReset(image, maps, name, value).image[r] == image[r]
    ensures AfterReset(image, maps, name, value).error.None? && r in maps[name].registers ==>
      (Bit(AfterReset(image, maps, name, value).image[r], b)
       <==> exists i ::
         0 <= i < |maps[name].registers| && i < |maps[name].shifts| && CopyHasBit(maps[name], value, i, r, b))
  {
    if name in maps {
      var rg := maps[name];
      var n := |rg.registers|;
      ClearedIff(image, rg.registers, n);
      CopiesFit(rg, n);
      var cleared := ClearRegisters(image, rg.registers, n);
      CopiesOkIff(cleared.image, rg, value, n);
      if CopiesOk(rg, n) {
        ByteAfterReset(image, maps, name, value, r);
        ByteAfterClear(image, rg.registers, n, r);
        assert rg.registers[..n] == rg.registers;
        BitAfterCopies(cleared.image, rg, value, n, r, b);
        BitOfZero(b);
        CopiesHaveBit(rg, value, r, b);
      }
    }
  }

  lemma {:induction false} CopiesHaveBit(rg: RegMap, value: nat, r: nat, b: nat)
    ensures
      CopiesSet(rg, value, |rg.registers|, r, b)
      <==> exists i :: 0 <= i < |rg.registers| && i < |rg.shifts| && CopyHasBit(rg, value, i, r, b)
  {
    hide Truncate, Bit;
    TruncateMod(value);
    assert forall i | 0 <= i < |rg.registers| && i < |rg.shifts| ::
      CopySets(rg, value, i, r, b) <==> CopyHasBit(rg, value, i, r, b);
  }

  /** A GBTx is trained exactly if its type names one of the four kinds of board anywhere; otherwise its image is left
      alone and the type refused. */
  lemma {:induction false} TrainedIff(image: Image, maps: RegisterMaps, gbtxType: string, ec: bool, on: bool)
    ensures
      AfterCall(image, maps, gbtxType, ec, on).error.None?
      <==> || (exists x: string, y: string :: gbtxType == x + "mmg" + y)
           || (exists x: string, y: string :: gbtxType == x + "pfeb" + y)
           || (exists x: string, y: string :: gbtxType == x + "sfeb" + y)
           || (exists x: string, y: string :: gbtxType == x + "rim" + y)
    ensures AfterCall(image, maps, gbtxType, ec, on).error.Some? ==>
      AfterCall(image, maps, gbtxType, ec, on) == Outcome(image, Some(BadTrainingType))
  {
    hide Contains, Apply;
    ContainsIff(gbtxType, "mmg");
    ContainsIff(gbtxType, "pfeb");
    ContainsIff(gbtxType, "sfeb");
    ContainsIff(gbtxType, "rim");
  }

  /** A setting all copies of which can be written. */
  predicate Usable(maps: RegisterMaps, name: string) {
    name in maps && |maps[name].shifts| == |maps[name].registers| && CopiesOk(maps[name], |maps[name].registers|)
  }

  /** A list of resets of distinct registers: register `r` belongs to write `idx`, or to none if `idx` is negative. */
  lemma {:induction false} ByteAfterWrites(
    image: Image, maps: RegisterMaps, names: seq<string>, values: seq<nat>, n: nat, r: nat, idx: int)
    requires |names| == |values| && n <= |names| && r < NUM_REGISTERS && idx < |names|
    requires forall k | 0 <= k < |names| :: Usable(maps, names[k]) && (r in maps[names[k]].registers <==> k == idx)
    ensures 0 <= idx < n ==> Usable(maps, names[idx])
    ensures
      Apply(image, maps, Writes(names, values)[..n])[r]
      == if 0 <= idx < n then ByteOf(maps[names[idx]], values[idx], |maps[names[idx]].registers|, r) else image[r]
  {
    hide AfterReset, CopiesOk;
    if n > 0 {
      var ws := Writes(names, values);
      assert ws[..n][..n - 1] == ws[..n - 1];
      ByteAfterWrites(image, maps, names, values, n - 1, r, idx);
      ByteAfterReset(Apply(image, maps, ws[..n - 1]), maps, names[n - 1], values[n - 1], r);
    }
  }

  lemma {:induction false} ApplyConcat(image: Image, maps: RegisterMaps, a: seq<Write>, b: seq<Write>)
    ensures Apply(image, maps, a + b) == Apply(Apply(image, maps, a), maps, b)
  {
    if b == [] {
      assert a + b == a;
    } else {
      ApplyConcat(image, maps, a, b[..|b| - 1]);
      assert (a + b)[..|a + b| - 1] == a + b[..|b| - 1];
    }
  }

  // ----- The bytes of a call -----

  /** Which reset setting register `r` belongs to, or -1. */
  function ResetIndex(r: nat): (idx: int)
    ensures -1 <= idx < 8
  {
    if r == 251 then 0 else if 84 <= r <= 230 && (r - 84) % 24 < 3 then (r - 84) / 24 + 1 else -1
  }

  function TrainIndex(r: nat): (idx: int)
    ensures -1 <= idx < 7
  {
    if 78 <= r <= 224 && (r - 78) % 24 < 3 then (r - 78) / 24 else -1
  }

  /** The registers a call overwrites. */
  predicate Covered(r: nat, ec: bool, on: bool) {
    ResetIndex(r) >= 0 || TrainIndex(r) >= 0 || (on && r == 62) || (ec && r == 245)
  }

  /** What a call leaves in such a register: an EC setting has its three copies in one byte, 0b111. */
  function ByteOfCall(r: nat, gbtxType: string, on: bool): nat {
    var k, t := ResetIndex(r), TrainIndex(r);
    if r == 62 then 0x15
    else if r == 251 || r == 245 then if on then 7 else 0
    else if k >= 0 then
      if on then if 2 <= k <= 5 then 0xFF else 0
      else if IsType(gbtxType, "mmg") && k == 2 then 1 else 0
    else if on && 0 <= t <= 4 then 0xFF else 0
  }

  lemma {:induction false} GroupByte(start: nat, value: nat, r: nat)
    requires start <= r < start + 3 && value < 256
    ensures ByteOf(Group(start), value, 3, r) == value
  {
    var rg := Group(start);
    assert ByteOf(rg, value, 3, r) == OrByte(0, Shifted(value, 0)) by {
      hide Shifted, OrByte;
      assert ByteOf(rg, value, 1, r) == if r == start then OrByte(0, Shifted(value, 0)) else 0;
      assert ByteOf(rg, value, 2, r) == if r <= start + 1 then OrByte(0, Shifted(value, 0)) else 0;
    }
    forall b: nat ensures Bit(OrByte(0, Shifted(value, 0)), b) == Bit(value, b) {
      BitOfZero(b);
      BitOfTruncate(8, value, b);
      assert Pow2(8) == 256;
      TruncateFits(8, value);
    }
    SameBits(OrByte(0, Shifted(value, 0)), value);
  }

  /** Three copies of a value in one register. */
  lemma {:induction false} TripleByte(rg: RegMap, value: nat, r: nat)
    requires rg.registers == [r, r, r] && |rg.shifts| == 3
    ensures
      ByteOf(rg, value, 3, r)
      == OrByte(OrByte(OrByte(0, Shifted(value, rg.shifts[0])), Shifted(value, rg.shifts[1])),
        Shifted(value, rg.shifts[2]))
  {
    hide Shifted, OrByte;
    assert ByteOf(rg, value, 1, r) == OrByte(0, Shifted(value, rg.shifts[0]));
    assert ByteOf(rg, value, 2, r) == OrByte(ByteOf(rg, value, 1, r), Shifted(value, rg.shifts[1]));
  }

  lemma {:induction false} TripleBytes()
    ensures ByteOf(ResetRegs(0), 1, 3, 251) == 7 && ByteOf(ResetRegs(0), 0, 3, 251) == 0
    ensures ByteOf(TRAIN_EC_REGS, 1, 3, 245) == 7 && ByteOf(TRAIN_EC_REGS, 0, 3, 245) == 0
    ensures ByteOf(MODE_REGS, 1, 3, 62) == 0x15
  {
    TripleByte(ResetRegs(0), 1, 251);
    TripleByte(ResetRegs(0), 0, 251);
    TripleByte(TRAIN_EC_REGS, 1, 245);
    TripleByte(TRAIN_EC_REGS, 0, 245);
    TripleByte(MODE_REGS, 1, 62);
    ShiftedValues();
    hide Shifted, ByteOf;
    OrValues();
  }

  lemma {:induction false} ShiftedValues()
    ensures Shifted(1, 0) == 1 && Shifted(1, 1) == 2 && Shifted(1, 2) == 4 && Shifted(1, 4) == 16
    ensures Shifted(0, 0) == 0 && Shifted(0, 1) == 0 && Shifted(0, 2) == 0
  {
    SmallShifts();
    TruncateFits(8, 0); TruncateFits(8, 1); TruncateFits(8, 2); TruncateFits(8, 4); TruncateFits(8, 16);
    assert Pow2(8) == 256;
    hide Truncate, Shl;
  }

  lemma {:induction false} SmallShifts()
    ensures Shl(1, 0) == 1 && Shl(1, 1) == 2 && Shl(1, 2) == 4 && Shl(1, 4) == 16
    ensures Shl(0, 0) == 0 && Shl(0, 1) == 0 && Shl(0, 2) == 0
  {
  }

  lemma {:induction false} OrValues()
    ensures OrByte(0, 0) == 0 && OrByte(0, 1) == 1 && OrByte(1, 2) == 3 && OrByte(3, 4) == 7
    ensures OrByte(1, 4) == 5 && OrByte(5, 16) == 0x15
  {
    assert Or(0, 1) == 1 && Or(1, 2) == 3 && Or(3, 4) == 7;
    assert Or(1, 4) == 5 && Or(5, 16) == 0x15;
  }

  lemma {:induction false} InGroup(start: nat, r: nat)
    ensures r in Group(start).registers <==> start <= r < start + 3
  {
    assert Group(start).registers[0] == start && Group(start).registers[1] == start + 1
      && Group(start).registers[2] == start + 2;
  }

  lemma {:induction false} ResetMember(k: nat, r: nat)
    requires k < 8
    ensures r in ResetRegs(k).registers <==> k == ResetIndex(r)
    ensures CopiesOk(ResetRegs(k), 3) && |ResetRegs(k).shifts| == |ResetRegs(k).registers| == 3
  {
    if k > 0 { InGroup(84 + 24 * (k - 1), r); }
  }

  lemma {:induction false} TrainMember(k: nat, r: nat)
    requires k < 7
    ensures r in TrainRegs(k).registers <==> k == TrainIndex(r)
    ensures CopiesOk(TrainRegs(k), 3) && |TrainRegs(k).shifts| == |TrainRegs(k).registers| == 3
  {
    InGroup(78 + 24 * k, r);
  }

  lemma {:induction false} ResetByte(image: Image, maps: RegisterMaps, gbtxType: string, on: bool, r: nat)
    requires Compiled(maps) && r < NUM_REGISTERS
    ensures Apply(image, maps, ResetWrites(gbtxType, on))[r]
      == if ResetIndex(r) >= 0 then ByteOfCall(r, gbtxType, on) else image[r]
  {
    hide IsType, ByteOf, Apply, ByteOfCall, ResetRegs, ResetIndex, CopiesOk;
    var values := if on then RESET_ON else if IsType(gbtxType, "mmg") then RESET_OFF_MMG else RESET_OFF;
    var ws, idx := Writes(RESET_NAMES, values), ResetIndex(r);
    forall k | 0 <= k < |RESET_NAMES|
      ensures Usable(maps, RESET_NAMES[k]) && (r in maps[RESET_NAMES[k]].registers <==> k == idx)
    {
      assert At(maps, RESET_NAMES[k], ResetRegs(k));
      ResetMember(k, r);
    }
    ByteAfterWrites(image, maps, RESET_NAMES, values, 8, r, idx);
    assert ws[..8] == ws;
    if idx >= 0 {
      assert At(maps, RESET_NAMES[idx], ResetRegs(idx));
      ResetMember(idx, r);
      ResetValue(gbtxType, on, r, idx);
    }
  }

  lemma {:induction false} ResetValue(gbtxType: string, on: bool, r: nat, idx: nat)
    requires idx == ResetIndex(r)
    ensures
      var values := if on then RESET_ON else if IsType(gbtxType, "mmg") then RESET_OFF_MMG else RESET_OFF;
      ByteOf(ResetRegs(idx), values[idx], 3, r) == ByteOfCall(r, gbtxType, on)
  {
    hide IsType, ByteOf;
    if idx == 0 {
      TripleBytes();
    } else {
      var values := if on then RESET_ON else if IsType(gbtxType, "mmg") then RESET_OFF_MMG else RESET_OFF;
      GroupByte(84 + 24 * (idx - 1), values[idx], r);
    }
  }

  lemma {:induction false} TrainByte(image: Image, maps: RegisterMaps, gbtxType: string, on: bool, r: nat)
    requires Compiled(maps) && r < NUM_REGISTERS
    ensures
      Apply(image, maps, Writes(TRAIN_NAMES, if on then TRAIN_ON else TRAIN_OFF))[r]
      == if TrainIndex(r) >= 0 then ByteOfCall(r, gbtxType, on) else image[r]
  {
    hide IsType, ByteOf, Apply, ByteOfCall, TrainRegs, TrainIndex, CopiesOk;
    var values := if on then TRAIN_ON else TRAIN_OFF;
    var ws, idx := Writes(TRAIN_NAMES, values), TrainIndex(r);
    forall k | 0 <= k < |TRAIN_NAMES|
      ensures Usable(maps, TRAIN_NAMES[k]) && (r in maps[TRAIN_NAMES[k]].registers <==> k == idx)
    {
      assert At(maps, TRAIN_NAMES[k], TrainRegs(k));
      TrainMember(k, r);
    }
    ByteAfterWrites(image, maps, TRAIN_NAMES, values, 7, r, idx);
    assert ws[..7] == ws;
    if idx >= 0 {
      assert At(maps, TRAIN_NAMES[idx], TrainRegs(idx));
      TrainMember(idx, r);
      TrainValue(gbtxType, on, r, idx);
    }
  }

  lemma {:induction false} TrainValue(gbtxType: string, on: bool, r: nat, idx: nat)
    requires idx == TrainIndex(r)
    ensures ByteOf(TrainRegs(idx), (if on then TRAIN_ON else TRAIN_OFF)[idx], 3, r) == ByteOfCall(r, gbtxType, on)
  {
    hide IsType, ByteOf;
    GroupByte(78 + 24 * idx, (if on then TRAIN_ON else TRAIN_OFF)[idx], r);
  }

  lemma {:induction false} SingleByte(
    image: Image, maps: RegisterMaps, name: string, rg: RegMap, value: nat, at: nat, r: nat)
    requires At(maps, name, rg) && rg.registers == [at, at, at] && |rg.shifts| == 3 && CopiesOk(rg, 3)
      && r < NUM_REGISTERS
    ensures Apply(image, maps, [Write(name, value)])[r] == if r == at then ByteOf(rg, value, 3, at) else image[r]
  {
    var ws := [Write(name, value)];
    assert ws[..0] == [];
    assert Apply(image, maps, []) == image;
    ByteAfterReset(image, maps, name, value, r);
  }

  /** The bytes of the image after one call: the covered registers hold fixed bytes, all others what they held. */
  lemma {:induction false} BytesAfterCall(
    image: Image, maps: RegisterMaps, gbtxType: string, ec: bool, on: bool, r: nat)
    requires Compiled(maps) && r < NUM_REGISTERS
    ensures
      Apply(image, maps, CallWrites(gbtxType, ec, on))[r]
      == if Covered(r, ec, on) then ByteOfCall(r, gbtxType, on) else image[r]
  {
    hide IsType, Apply, ByteOf;
    var a, b := ResetWrites(gbtxType, on), if on then [Write(MODE, 1)] else [];
    var c := Writes(TRAIN_NAMES, if on then TRAIN_ON else TRAIN_OFF);
    var d := if ec then [Write(TRAIN_EC, if on then 1 else 0)] else [];
    ApplyConcat(image, maps, a + b + c, d);
    ApplyConcat(image, maps, a + b, c);
    ApplyConcat(image, maps, a, b);
    var x1 := Apply(image, maps, a);
    ResetByte(image, maps, gbtxType, on, r);
    var x2 := Apply(x1, maps, b);
    ModeByte(x1, maps, on, r);
    var x3 := Apply(x2, maps, c);
    TrainByte(x2, maps, gbtxType, on, r);
    EcByte(x3, maps, ec, on, r);
  }

  lemma {:induction false} ModeByte(image: Image, maps: RegisterMaps, on: bool, r: nat)
    requires Compiled(maps) && r < NUM_REGISTERS
    ensures Apply(image, maps, if on then [Write(MODE, 1)] else [])[r] == if on && r == 62 then 0x15 else image[r]
  {
    hide ByteOf;
    TripleBytes();
    if on { SingleByte(image, maps, MODE, MODE_REGS, 1, 62, r); }
  }

  lemma {:induction false} EcByte(image: Image, maps: RegisterMaps, ec: bool, on: bool, r: nat)
    requires Compiled(maps) && r < NUM_REGISTERS
    ensures
      Apply(image, maps, if ec then [Write(TRAIN_EC, if on then 1 else 0)] else [])[r]
      == if ec && r == 245 then if on then 7 else 0 else image[r]
  {
    hide ByteOf;
    TripleBytes();
    if ec { SingleByte(image, maps, TRAIN_EC, TRAIN_EC_REGS, if on then 1 else 0, 245, r); }
  }

  // ----- Runs of calls -----

  /** The image after a run of calls, `true` for `trainGbtxsOn`. */
  function AfterCalls(image: Image, maps: RegisterMaps, gbtxType: string, ec: bool, calls: seq<bool>): Image {
    if calls == [] then image
    else
      AfterCall(
        AfterCalls(image, maps, gbtxType, ec, calls[..|calls| - 1]), maps, gbtxType, ec, calls[|calls| - 1]).image
  }

  /** Training changes the reset, train and mode registers and nothing else, whatever the run. */
  lemma {:induction false} TrainingFrame(
    image: Image, maps: RegisterMaps, gbtxType: string, ec: bool, calls: seq<bool>, r: nat)
    requires Compiled(maps) && r < NUM_REGISTERS && !Covered(r, ec, true)
    ensures AfterCalls(image, maps, gbtxType, ec, calls)[r] == image[r]
  {
    hide Apply, CallWrites;
    if calls != [] {
      var init := calls[..|calls| - 1];
      TrainingFrame(image, maps, gbtxType, ec, init, r);
      BytesAfterCall(AfterCalls(image, maps, gbtxType, ec, init), maps, gbtxType, ec, calls[|calls| - 1], r);
    }
  }

  /** Once training was switched on, every covered byte is known: it is that of the last call, and the mode byte is
      the one the first call set. */
  lemma {:induction false} BytesAfterCalls(
    image: Image, maps: RegisterMaps, gbtxType: string, ec: bool, calls: seq<bool>, r: nat)
    requires Compiled(maps) && Trainable(gbtxType) && r < NUM_REGISTERS && true in calls && Covered(r, ec, true)
    ensures
      AfterCalls(image, maps, gbtxType, ec, calls)[r]
      == ByteOfCall(r, gbtxType, if r == 62 then true else calls[|calls| - 1])
  {
    hide Apply, CallWrites, Trainable, IsType;
    var init, last := calls[..|calls| - 1], calls[|calls| - 1];
    assert calls == init + [last];
    BytesAfterCall(AfterCalls(image, maps, gbtxType, ec, init), maps, gbtxType, ec, last, r);
    if r == 62 && !last {
      BytesAfterCalls(image, maps, gbtxType, ec, init, r);
    }
  }

  /** Two runs that both switch training on and end with the same call leave the same image, if the images they
      start from agree outside the covered registers: neither what the covered registers held nor what was
      called in between matters. */
  lemma {:induction false} LastCallDecides(
    x: Image, y: Image, maps: RegisterMaps, gbtxType: string, ec: bool, u: seq<bool>, v: seq<bool>)
    requires Compiled(maps) && Trainable(gbtxType)
    requires true in u && true in v && u[|u| - 1] == v[|v| - 1]
    requires forall r: nat | r < NUM_REGISTERS && !Covered(r, ec, true) :: x[r] == y[r]
    ensures AfterCalls(x, maps, gbtxType, ec, u) == AfterCalls(y, maps, gbtxType, ec, v)
  {
    hide Trainable, Compiled;
    var a, b := AfterCalls(x, maps, gbtxType, ec, u), AfterCalls(y, maps, gbtxType, ec, v);
    forall r: nat | r < NUM_REGISTERS ensures a[r] == b[r] {
      if Covered(r, ec, true) {
        BytesAfterCalls(x, maps, gbtxType, ec, u, r);
        BytesAfterCalls(y, maps, gbtxType, ec, v, r);
      } else {
        TrainingFrame(x, maps, gbtxType, ec, u, r);
        TrainingFrame(y, maps, gbtxType, ec, v, r);
      }
    }
    assert a == b;
  }

  // ----- Nothing is missing from the compiled map -----

  /** Every setting of the list can be reset. */
  ghost predicate AllUsable(maps: RegisterMaps, ws: seq<Write>) {
    forall k | 0 <= k < |ws| :: Usable(maps, ws[k].name)
  }

  lemma {:induction false} ResetsUsable(maps: RegisterMaps, gbtxType: string, on: bool)
    requires Compiled(maps)
    ensures AllUsable(maps, ResetWrites(gbtxType, on))
  {
    hide IsType, ResetRegs, CopiesOk;
    forall k | 0 <= k < |ResetWrites(gbtxType, on)| ensures Usable(maps, ResetWrites(gbtxType, on)[k].name) {
      assert At(maps, RESET_NAMES[k], ResetRegs(k));
      ResetMember(k, 0);
    }
  }

  lemma {:induction false} TrainsUsable(maps: RegisterMaps, on: bool)
    requires Compiled(maps)
    ensures AllUsable(maps, Writes(TRAIN_NAMES, if on then TRAIN_ON else TRAIN_OFF))
  {
    hide TrainRegs, CopiesOk;
    var ws := Writes(TRAIN_NAMES, if on then TRAIN_ON else TRAIN_OFF);
    forall k | 0 <= k < |ws| ensures Usable(maps, ws[k].name) {
      assert At(maps, TRAIN_NAMES[k], TrainRegs(k));
      TrainMember(k, 0);
    }
  }

  lemma {:induction false} SinglesUsable(maps: RegisterMaps)
    requires Compiled(maps)
    ensures Usable(maps, MODE) && Usable(maps, TRAIN_EC)
  {
  }
}
