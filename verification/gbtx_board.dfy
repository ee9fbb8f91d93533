/** The objects that hold GBTx images (src/GBTxConfig.cpp) and the board that trains up to three of them
    (src/L1DDCConfig.cpp). */
module GbtxBoard {
  import opened Utility
  import opened GbtxConfig
  import opened GbtxTraining

  lemma {:induction false} ApplyNone(image: Image, maps: RegisterMaps, ws: seq<Write>)
    ensures Apply(image, maps, ws[..0]) == image
  {
  }

  lemma {:induction false} ResetsListed(gbtxType: string, on: bool)
    ensures
      var ws, v := ResetWrites(gbtxType, on), if on then 0xFF else 0;
      && |ws| == 8
      && ws[0] == Write("paResetEC", if on then 1 else 0) && ws[1] == Write("paResetGroup0", 0)
      && ws[2] == Write("paResetGroup1", if on then 0xFF else if IsType(gbtxType, "mmg") then 1 else 0)
      && ws[3] == Write("paResetGroup2", v) && ws[4] == Write("paResetGroup3", v) && ws[5] == Write("paResetGroup4", v)
      && ws[6] == Write("paResetGroup5", 0) && ws[7] == Write("paResetGroup6", 0)
  {
    hide IsType;
  }

  lemma {:induction false} TrainsListed(on: bool)
    ensures
      var ws, v := Writes(TRAIN_NAMES, if on then TRAIN_ON else TRAIN_OFF), if on then 0xFF else 0;
      && |ws| == 7
      && ws[0] == Write("paTrainGroup0", v) && ws[1] == Write("paTrainGroup1", v) && ws[2] == Write("paTrainGroup2", v)
      && ws[3] == Write("paTrainGroup3", v) && ws[4] == Write("paTrainGroup4", v) && ws[5] == Write("paTrainGroup5", 0)
      && ws[6] == Write("paTrainGroup6", 0)
  {
  }

  class Gbtx {
    const config: array<Byte>
    const maps: RegisterMaps
    var gbtxType: string

    /** An image of the right size, and the register map that is compiled in. */
    ghost predicate Valid() { config.Length == NUM_REGISTERS && Compiled(maps) }

    constructor (registerMaps: RegisterMaps)
      ensures fresh(config) && config.Length == NUM_REGISTERS && maps == registerMaps && gbtxType == "none"
      ensures config[..] == seq(NUM_REGISTERS, _ => 0)
    {
      config := new Byte[NUM_REGISTERS](_ => 0);
      maps := registerMaps;
      gbtxType := "none";
    }

    method SetRegister(r: nat, value: nat, shift: nat) returns (error: Option<GbtxError>)
      requires config.Length == NUM_REGISTERS
      modifies config
      ensures Outcome(config[..], error) == AfterSetRegister(old(config[..]), r, value, shift)
    {
      if shift >= SIZE_GBTX_REGISTER { return Some(ShiftTooFar); }
      if r >= NUM_REGISTERS { return Some(RegisterTooHigh); }
      config[r] := OrByte(config[r], Shifted(value, shift));
      error := None;
    }

    method Set(name: string, value: nat) returns (error: Option<GbtxError>)
      requires config.Length == NUM_REGISTERS
      modifies config
      ensures Outcome(config[..], error) == AfterSet(old(config[..]), maps, name, value)
    {
      if name !in maps { return Some(NoSuchSetting); }
      var rg := maps[name];
      ghost var start := config[..];
      for i := 0 to |rg.registers|
        invariant Outcome(config[..], None) == SetCopies(start, rg, value, i)
      {
        if i >= |rg.shifts| {
          FailedCopyStays(start, rg, value, i + 1, |rg.registers|);
          return Some(OutOfRange);
        }
        error := SetRegister(rg.registers[i], value, rg.shifts[i]);
        if error.Some? {
          FailedCopyStays(start, rg, value, i + 1, |rg.registers|);
          return;
        }
      }
      error := None;
    }

    method Reset(name: string, value: nat) returns (error: Option<GbtxError>)
      requires config.Length == NUM_REGISTERS
      modifies config
      ensures Outcome(config[..], error) == AfterReset(old(config[..]), maps, name, value)
    {
      if name !in maps { return Some(OutOfRange); }
      var rg := maps[name];
      ghost var start := config[..];
      for i := 0 to |rg.registers|
        invariant Outcome(config[..], None) == ClearRegisters(start, rg.registers, i)
      {
        if rg.registers[i] >= NUM_REGISTERS {
          FailedClearStays(start, rg.registers, i + 1, |rg.registers|);
          return Some(OutOfRange);
        }
        config[rg.registers[i]] := 0;
      }
      error := Set(name, value);
    }

    method SetConfigFromPTree(settings: seq<Setting>) returns (error: Option<GbtxError>)
      requires config.Length == NUM_REGISTERS
      modifies config
      ensures Outcome(config[..], error) == AfterSettings(old(config[..]), maps, settings, |settings|)
    {
      ghost var start := config[..];
      for i := 0 to |settings|
        invariant Outcome(config[..], None) == AfterSettings(start, maps, settings, i)
      {
        error := if IsInt(settings[i].value) then None else Some(BadData);
        if error.None? { error := Set(settings[i].name, AsSize(settings[i].value)); }
        if error.Some? {
          FailedSettingStays(start, maps, settings, i + 1, |settings|);
          return;
        }
      }
      error := None;
    }

    method ConfigAsVector() returns (bytes: seq<Byte>)
      ensures bytes == config[..]
    {
      bytes := config[..];
    }

    /** Write number `k` of a list of resets; none of them can fail. */
    method ResetNext(name: string, value: nat, ghost start: Image, ghost ws: seq<Write>, ghost k: nat)
      requires Valid() && AllUsable(maps, ws)
      requires k < |ws| && ws[k] == Write(name, value) && config[..] == Apply(start, maps, ws[..k])
      modifies config
      ensures config[..] == Apply(start, maps, ws[..k + 1])
    {
      assert ws[..k + 1][..k] == ws[..k];
      ByteAfterReset(config[..], maps, name, value, 0);
      var error := Reset(name, value);
      assert error == None;
    }

    method SetResetChannelsOn() returns (error: Option<GbtxError>)
      requires Valid()
      modifies config
      ensures !Trainable(gbtxType) ==> error == Some(BadTrainingType) && config[..] == old(config[..])
      ensures Trainable(gbtxType) ==>
        error == None && config[..] == Apply(old(config[..]), maps, ResetWrites(gbtxType, true))
    {
      hide IsType, Apply, Writes, ResetWrites, Compiled;
      if !Trainable(gbtxType) { return Some(BadTrainingType); }
      ghost var start, ws := config[..], ResetWrites(gbtxType, true);
      ResetsListed(gbtxType, true);
      ResetsUsable(maps, gbtxType, true);
      ApplyNone(start, maps, ws);
      ResetNext("paResetEC", 0x01, start, ws, 0);
      ResetNext("paResetGroup0", 0x00, start, ws, 1);
      ResetNext("paResetGroup1", 0xFF, start, ws, 2);
      ResetNext("paResetGroup2", 0xFF, start, ws, 3);
      ResetNext("paResetGroup3", 0xFF, start, ws, 4);
      ResetNext("paResetGroup4", 0xFF, start, ws, 5);
      ResetNext("paResetGroup5", 0x00, start, ws, 6);
      ResetNext("paResetGroup6", 0x00, start, ws, 7);
      assert ws[..8] == ws;
      error := None;
    }

    method SetResetChannelsOff() returns (error: Option<GbtxError>)
      requires Valid()
      modifies config
      ensures !Trainable(gbtxType) ==> error == Some(BadTrainingType) && config[..] == old(config[..])
      ensures Trainable(gbtxType) ==>
        error == None && config[..] == Apply(old(config[..]), maps, ResetWrites(gbtxType, false))
    {
      hide IsType, Apply, Writes, ResetWrites, Compiled;
      ghost var start, ws := config[..], ResetWrites(gbtxType, false);
      ResetsListed(gbtxType, false);
      ResetsUsable(maps, gbtxType, false);
      ApplyNone(start, maps, ws);
      if IsType(gbtxType, "mmg") {
        ResetNext("paResetEC", 0x00, start, ws, 0);
        ResetNext("paResetGroup0", 0x00, start, ws, 1);
        ResetNext("paResetGroup1", 0x01, start, ws, 2);
        ResetNext("paResetGroup2", 0x00, start, ws, 3);
        ResetNext("paResetGroup3", 0x00, start, ws, 4);
        ResetNext("paResetGroup4", 0x00, start, ws, 5);
        ResetNext("paResetGroup5", 0x00, start, ws, 6);
        ResetNext("paResetGroup6", 0x00, start, ws, 7);
      } else if Trainable(gbtxType) {
        ResetNext("paResetEC", 0x00, start, ws, 0);
        ResetNext("paResetGroup0", 0x00, start, ws, 1);
        ResetNext("paResetGroup1", 0x00, start, ws, 2);
        ResetNext("paResetGroup2", 0x00, start, ws, 3);
        ResetNext("paResetGroup3", 0x00, start, ws, 4);
        ResetNext("paResetGroup4", 0x00, start, ws, 5);
        ResetNext("paResetGroup5", 0x00, start, ws, 6);
        ResetNext("paResetGroup6", 0x00, start, ws, 7);
      } else {
        return Some(BadTrainingType);
      }
      assert ws[..8] == ws;
      error := None;
    }

    method SetEcTrainingRegisters(on: bool)
      requires Valid()
      modifies config
      ensures config[..] == Apply(old(config[..]), maps, [Write(TRAIN_EC, if on then 1 else 0)])
    {
      ghost var ws := [Write(TRAIN_EC, if on then 1 else 0)];
      SinglesUsable(maps);
      ResetNext("paTrainEC", if on then 1 else 0, config[..], ws, 0);
      assert ws[..1] == ws;
    }

    /** The mode is set before the type is looked at. */
    method SetTrainingRegistersOn() returns (error: Option<GbtxError>)
      requires Valid()
      modifies config
      ensures error == if Trainable(gbtxType) then None else Some(BadTrainingType)
      ensures
        config[..] == Apply(old(config[..]), maps,
          [Write(MODE, 1)] + (if Trainable(gbtxType) then Writes(TRAIN_NAMES, TRAIN_ON) else []))
    {
      hide Trainable, Apply, Writes, Compiled;
      ghost var start, ws := config[..], [Write(MODE, 1)] + Writes(TRAIN_NAMES, TRAIN_ON);
      TrainsListed(true);
      TrainsUsable(maps, true);
      SinglesUsable(maps);
      ApplyNone(start, maps, ws);
      ResetNext("paMode", 0x01, start, ws, 0);
      if !Trainable(gbtxType) {
        assert ws[..1] == [Write(MODE, 1)] + [];
        return Some(BadTrainingType);
      }
      ResetNext("paTrainGroup0", 0xFF, start, ws, 1);
      ResetNext("paTrainGroup1", 0xFF, start, ws, 2);
      ResetNext("paTrainGroup2", 0xFF, start, ws, 3);
      ResetNext("paTrainGroup3", 0xFF, start, ws, 4);
      ResetNext("paTrainGroup4", 0xFF, start, ws, 5);
      ResetNext("paTrainGroup5", 0x00, start, ws, 6);
      ResetNext("paTrainGroup6", 0x00, start, ws, 7);
      assert ws[..8] == ws;
      error := None;
    }

    method SetTrainingRegistersOff() returns (error: Option<GbtxError>)
      requires Valid()
      modifies config
      ensures !Trainable(gbtxType) ==> error == Some(BadTrainingType) && config[..] == old(config[..])
      ensures Trainable(gbtxType) ==>
        error == None && config[..] == Apply(old(config[..]), maps, Writes(TRAIN_NAMES, TRAIN_OFF))
    {
      hide IsType, Apply, Writes, Compiled;
      if !Trainable(gbtxType) { return Some(BadTrainingType); }
      ghost var start, ws := config[..], Writes(TRAIN_NAMES, TRAIN_OFF);
      TrainsListed(false);
      TrainsUsable(maps, false);
      ApplyNone(start, maps, ws);
      ResetNext("paTrainGroup0", 0x00, start, ws, 0);
      ResetNext("paTrainGroup1", 0x00, start, ws, 1);
      ResetNext("paTrainGroup2", 0x00, start, ws, 2);
      ResetNext("paTrainGroup3", 0x00, start, ws, 3);
      ResetNext("paTrainGroup4", 0x00, start, ws, 4);
      ResetNext("paTrainGroup5", 0x00, start, ws, 5);
      ResetNext("paTrainGroup6", 0x00, start, ws, 6);
      assert ws[..7] == ws;
      error := None;
    }
  }

  class GbtxContainer {
    const gbtx: Gbtx
    const configureGBTx: bool
    const ecElinkTrain: bool

    constructor (chip: Gbtx, configure: bool, ecTrain: bool)
      ensures gbtx == chip && configureGBTx == configure && ecElinkTrain == ecTrain
    {
      gbtx, configureGBTx, ecElinkTrain := chip, configure, ecTrain;
    }

    /** One pass of `trainGbtxsOn` or `trainGbtxsOff` over a configured GBTx. */
    method Train(on: bool) returns (error: Option<GbtxError>)
      requires gbtx.Valid()
      modifies gbtx.config
      ensures Outcome(gbtx.config[..], error)
        == AfterCall(old(gbtx.config[..]), gbtx.maps, gbtx.gbtxType, ecElinkTrain, on)
    {
      hide Trainable, Apply;
      ghost var start, maps := gbtx.config[..], gbtx.maps;
      ghost var a := ResetWrites(gbtx.gbtxType, on);
      ghost var b := (if on then [Write(MODE, 1)] else []) + Writes(TRAIN_NAMES, if on then TRAIN_ON else TRAIN_OFF);
      ghost var c := if ecElinkTrain then [Write(TRAIN_EC, if on then 1 else 0)] else [];
      if on { error := gbtx.SetResetChannelsOn(); } else { error := gbtx.SetResetChannelsOff(); }
      if error.Some? { return; }
      if on { error := gbtx.SetTrainingRegistersOn(); } else { error := gbtx.SetTrainingRegistersOff(); }
      ApplyConcat(start, maps, a, b);
      assert on || b == Writes(TRAIN_NAMES, TRAIN_OFF);
      assert gbtx.config[..] == Apply(start, maps, a + b);
      if ecElinkTrain { gbtx.SetEcTrainingRegisters(on); }
      ApplyConcat(start, maps, a + b, c);
      assert a + b + c == CallWrites(gbtx.gbtxType, ecElinkTrain, on);
      assert !ecElinkTrain ==> a + b + c == a + b;
    }
  }

  /** The state of one container: the image, and what decides how it is trained. */
  datatype Chip = Chip(image: seq<Byte>, maps: RegisterMaps, gbtxType: string, configure: bool, ec: bool)

  ghost function ChipOf(c: GbtxContainer): Chip
    reads c.gbtx, c.gbtx.config
  {
    Chip(c.gbtx.config[..], c.gbtx.maps, c.gbtx.gbtxType, c.configureGBTx, c.ecElinkTrain)
  }

  /** A configured container of unknown type ends the whole call. */
  predicate Stops(c: Chip) { c.configure && !Trainable(c.gbtxType) }

  ghost predicate Reached(chips: seq<Chip>, k: nat)
    requires k <= |chips|
  {
    forall j | 0 <= j < k :: !Stops(chips[j])
  }

  /** Container `k` after a training call on the whole board. */
  ghost function Trained(chips: seq<Chip>, k: nat, on: bool): seq<Byte>
    requires k < |chips| && |chips[k].image| == NUM_REGISTERS
  {
    var c := chips[k];
    if Reached(chips, k) && c.configure then AfterCall(c.image, c.maps, c.gbtxType, c.ec, on).image else c.image
  }

  /** A container is trained if it is configured and no container up to it that is configured is refused. */
  lemma {:induction false} TrainedMeans(chips: seq<Chip>, k: nat, on: bool)
    requires k < |chips| && forall j | 0 <= j < |chips| :: |chips[j].image| == NUM_REGISTERS
    ensures
      var c := chips[k];
      var served := c.configure && forall j | 0 <= j <= k && chips[j].configure ::
        AfterCall(chips[j].image, chips[j].maps, chips[j].gbtxType, chips[j].ec, on).error == None;
      Trained(chips, k, on)
      == if served then AfterCall(c.image, c.maps, c.gbtxType, c.ec, on).image else c.image
  {
    hide Trainable, Apply;
    forall j | 0 <= j <= k
      ensures
        var c := chips[j];
        c.configure ==> (AfterCall(c.image, c.maps, c.gbtxType, c.ec, on).error == None <==> !Stops(c))
    {
    }
  }

  ghost predicate FullImages(chips: seq<Chip>) { forall k | 0 <= k < |chips| :: |chips[k].image| == NUM_REGISTERS }

  /** The whole board after a training call. */
  ghost function TrainBoard(chips: seq<Chip>, on: bool): (after: seq<Chip>)
    requires FullImages(chips)
    ensures |after| == |chips| && FullImages(after)
  {
    seq(|chips|, k requires 0 <= k < |chips| => chips[k].(image := Trained(chips, k, on)))
  }

  /** And after a run of them. */
  ghost function TrainBoardOften(chips: seq<Chip>, calls: seq<bool>): (after: seq<Chip>)
    requires FullImages(chips)
    ensures |after| == |chips| && FullImages(after)
  {
    if calls == [] then chips
    else TrainBoard(TrainBoardOften(chips, calls[..|calls| - 1]), calls[|calls| - 1])
  }

  /** After any run of calls on a board, every configured GBTx before the first of unknown type holds what the same run
      makes of its own image, and every other one its old image; where the calls stop does not change. */
  lemma {:induction false} BoardAfterCalls(chips: seq<Chip>, calls: seq<bool>, k: nat)
    requires FullImages(chips) && k < |chips|
    ensures
      var c := chips[k];
      TrainBoardOften(chips, calls)[k]
      == if Reached(chips, k) && c.configure
         then c.(image := AfterCalls(c.image, c.maps, c.gbtxType, c.ec, calls))
         else c
    ensures Reached(TrainBoardOften(chips, calls), k) == Reached(chips, k)
  {
    hide AfterCall, Trainable;
    if calls != [] {
      var init := calls[..|calls| - 1];
      forall j: nat | j <= k ensures Stops(TrainBoardOften(chips, calls)[j]) == Stops(chips[j]) {
        OnlyImagesChange(chips, calls, j);
      }
      BoardAfterCalls(chips, init, k);
    }
  }

  lemma {:induction false} OnlyImagesChange(chips: seq<Chip>, calls: seq<bool>, k: nat)
    requires FullImages(chips) && k < |chips|
    ensures TrainBoardOften(chips, calls)[k] == chips[k].(image := TrainBoardOften(chips, calls)[k].image)
  {
    if calls != [] { OnlyImagesChange(chips, calls[..|calls| - 1], k); }
  }

  class L1ddcConfig {
    const containers: seq<GbtxContainer>
    const trainGBTxPhaseAlignment: bool

    /** Every container holds a valid GBTx with an image of its own. */
    ghost predicate Valid() {
      && (forall k | 0 <= k < |containers| :: containers[k].gbtx.Valid())
      && (forall j, k | 0 <= j < k < |containers| :: containers[j].gbtx.config != containers[k].gbtx.config)
    }

    ghost function Chips(): (chips: seq<Chip>)
      reads set c | c in containers :: c.gbtx
      reads set c | c in containers :: c.gbtx.config
      ensures |chips| == |containers|
    {
      seq(|containers|, k requires 0 <= k < |containers|
        reads set c | c in containers :: c.gbtx
        reads set c | c in containers :: c.gbtx.config
        => ChipOf(containers[k]))
    }

    constructor (cs: seq<GbtxContainer>, train: bool)
      requires forall k | 0 <= k < |cs| :: cs[k].gbtx.Valid()
      requires forall j, k | 0 <= j < k < |cs| :: cs[j].gbtx.config != cs[k].gbtx.config
      ensures Valid() && containers == cs && trainGBTxPhaseAlignment == train
    {
      containers, trainGBTxPhaseAlignment := cs, train;
    }

    lemma {:induction false} ChipsTrained(chips: seq<Chip>, on: bool)
      requires |chips| == |containers| && FullImages(chips)
      requires forall k | 0 <= k < |containers| :: ChipOf(containers[k]).(image := chips[k].image) == chips[k]
      requires forall k | 0 <= k < |containers| :: containers[k].gbtx.config[..] == Trained(chips, k, on)
      ensures Chips() == TrainBoard(chips, on)
    {
      hide Trained;
    }

    /** `trainGbtxsOn` and `trainGbtxsOff`; a board not meant to be trained is reported, and trained all the same. */
    method TrainGbtxs(on: bool) returns (reported: bool, error: Option<GbtxError>)
      requires Valid()
      modifies set c | c in containers :: c.gbtx.config
      ensures reported == !trainGBTxPhaseAlignment
      ensures error == if Reached(old(Chips()), |containers|) then None else Some(BadTrainingType)
      ensures forall k | 0 <= k < |containers| :: containers[k].gbtx.config[..] == Trained(old(Chips()), k, on)
      ensures FullImages(old(Chips())) && Chips() == TrainBoard(old(Chips()), on)
    {
      hide AfterCall, Trainable;
      reported := !trainGBTxPhaseAlignment;
      ghost var chips := Chips();
      assert forall k | 0 <= k < |containers| :: chips[k].image == containers[k].gbtx.config[..];
      assert FullImages(chips);
      for i := 0 to |containers|
        invariant Reached(chips, i)
        invariant forall k | 0 <= k < i :: containers[k].gbtx.config[..] == Trained(chips, k, on)
        invariant forall k | i <= k < |containers| :: containers[k].gbtx.config[..] == chips[k].image
      {
        if !containers[i].configureGBTx { continue; }
        label before:
        error := containers[i].Train(on);
        assert forall k | 0 <= k < |containers| && k != i ::
          containers[k].gbtx.config[..] == old@before(containers[k].gbtx.config[..]);
        TrainOutcome(chips[i], on);
        if error.Some? {
          assert Stops(chips[i]);
          ChipsTrained(chips, on);
          return;
        }
      }
      error := None;
      ChipsTrained(chips, on);
    }
  }

  lemma {:induction false} TrainOutcome(c: Chip, on: bool)
    requires |c.image| == NUM_REGISTERS && c.configure
    ensures
      var after := AfterCall(c.image, c.maps, c.gbtxType, c.ec, on);
      if Stops(c) then after == Outcome(c.image, Some(BadTrainingType)) else after.error == None
  {
  }
}
