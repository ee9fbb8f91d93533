/** The image of 436 bytes a GBTx is configured with (src/GBTxConfig.cpp). A setting is or-ed into the image, mostly in
    three copies; only `reset` clears bits. */
module GbtxConfig {
  import opened Bits
  import opened Utility

  const NUM_REGISTERS: nat := 436
  const SIZE_GBTX_REGISTER: nat := 8

  type Image = s: seq<Byte> | |s| == 436 witness seq(436, _ => 0)

  datatype RegMap = RegMap(shifts: seq<nat>, registers: seq<nat>)

  type RegisterMaps = map<string, RegMap>

  /** One entry of the configuration tree; a number that is no `int` cannot be read. */
  datatype Setting = Setting(name: string, value: int)

  datatype GbtxError = ShiftTooFar | RegisterTooHigh | NoSuchSetting | OutOfRange | BadData | BadTrainingType

  /** The image after a call, whether it returned or threw. */
  datatype Outcome = Outcome(image: Image, error: Option<GbtxError>)

  /** `value << shift` as an unsigned byte. */
  function Shifted(value: nat, shift: nat): (b: Byte)
    ensures forall i: nat :: Bit(b, i) == (shift <= i < 8 && Bit(Truncate(8, value), i - shift))
  {
    var b := Truncate(8, Shl(Truncate(8, value), shift));
    assert b < 256 by { TruncateFits(8, Shl(Truncate(8, value), shift)); assert Pow2(8) == 256; }
    assert forall i: nat :: Bit(b, i) == (shift <= i < 8 && Bit(Truncate(8, value), i - shift)) by {
      forall i: nat ensures Bit(b, i) == (shift <= i < 8 && Bit(Truncate(8, value), i - shift)) {
        BitOfTruncate(8, Shl(Truncate(8, value), shift), i);
        BitOfShl(Truncate(8, value), shift, i);
      }
    }
    b
  }

  function OrByte(a: Byte, b: Byte): (c: Byte)
    ensures forall i: nat :: Bit(c, i) == (Bit(a, i) || Bit(b, i))
  {
    assert Or(a, b) < 256 by { assert Pow2(8) == 256; OrFits(a, b, 8); }
    assert forall i: nat :: Bit(Or(a, b), i) == (Bit(a, i) || Bit(b, i)) by {
      forall i: nat ensures Bit(Or(a, b), i) == (Bit(a, i) || Bit(b, i)) { BitOfOr(a, b, i); }
    }
    Or(a, b)
  }

  // ----- What each call does to the image -----

  function AfterSetRegister(image: Image, r: nat, value: nat, shift: nat): Outcome {
    if shift >= SIZE_GBTX_REGISTER then Outcome(image, Some(ShiftTooFar))
    else if r >= NUM_REGISTERS then Outcome(image, Some(RegisterTooHigh))
    else Outcome(image[r := OrByte(image[r], Shifted(value, shift))], None)
  }

  /** The first `n` copies of a setting; a copy that fails leaves the earlier ones in place. */
  function SetCopies(image: Image, rg: RegMap, value: nat, n: nat): Outcome
    requires n <= |rg.registers|
  {
    if n == 0 then Outcome(image, None)
    else
      var before := SetCopies(image, rg, value, n - 1);
      if before.error.Some? then before
      else if n > |rg.shifts| then Outcome(before.image, Some(OutOfRange))
      else AfterSetRegister(before.image, rg.registers[n - 1], value, rg.shifts[n - 1])
  }

  function AfterSet(image: Image, maps: RegisterMaps, name: string, value: nat): Outcome {
    if name !in maps then Outcome(image, Some(NoSuchSetting))
    else SetCopies(image, maps[name], value, |maps[name].registers|)
  }

  /** The first `n` registers of a setting set to zero. */
  function ClearRegisters(image: Image, registers: seq<nat>, n: nat): Outcome
    requires n <= |registers|
  {
    if n == 0 then Outcome(image, None)
    else
      var before := ClearRegisters(image, registers, n - 1);
      if before.error.Some? then before
      else if registers[n - 1] >= NUM_REGISTERS then Outcome(before.image, Some(OutOfRange))
      else Outcome(before.image[registers[n - 1] := 0], None)
  }

  function AfterReset(image: Image, maps: RegisterMaps, name: string, value: nat): Outcome {
    if name !in maps then Outcome(image, Some(OutOfRange))
    else
      var cleared := ClearRegisters(image, maps[name].registers, |maps[name].registers|);
      if cleared.error.Some? then cleared else AfterSet(cleared.image, maps, name, value)
  }

  /** An `int` as the unsigned word the settings are passed as; only its low byte matters later. */
  function AsSize(value: int): nat {
    value % TWO_64
  }

  predicate IsInt(value: int) { -0x8000_0000 <= value < 0x8000_0000 }

  function SetOne(image: Image, maps: RegisterMaps, st: Setting): Outcome {
    if !IsInt(st.value) then Outcome(image, Some(BadData)) else AfterSet(image, maps, st.name, AsSize(st.value))
  }

  function AfterSettings(image: Image, maps: RegisterMaps, settings: seq<Setting>, n: nat): Outcome
    requires n <= |settings|
  {
    if n == 0 then Outcome(image, None)
    else
      var before := AfterSettings(image, maps, settings, n - 1);
      if before.error.Some? then before else SetOne(before.image, maps, settings[n - 1])
  }

  lemma {:induction false} FailedCopyStays(image: Image, rg: RegMap, value: nat, i: nat, n: nat)
    requires i <= n <= |rg.registers| && SetCopies(image, rg, value, i).error.Some?
    ensures SetCopies(image, rg, value, n) == SetCopies(image, rg, value, i)
  {
    if i < n { FailedCopyStays(image, rg, value, i, n - 1); }
  }

  lemma {:induction false} FailedClearStays(image: Image, registers: seq<nat>, i: nat, n: nat)
    requires i <= n <= |registers| && ClearRegisters(image, registers, i).error.Some?
    ensures ClearRegisters(image, registers, n) == ClearRegisters(image, registers, i)
  {
    if i < n { FailedClearStays(image, registers, i, n - 1); }
  }

  lemma {:induction false} FailedSettingStays(image: Image, maps: RegisterMaps, settings: seq<Setting>, i: nat, n: nat)
    requires i <= n <= |settings| && AfterSettings(image, maps, settings, i).error.Some?
    ensures AfterSettings(image, maps, settings, n) == AfterSettings(image, maps, settings, i)
  {
    if i < n { FailedSettingStays(image, maps, settings, i, n - 1); }
  }

  // ----- The image bit by bit -----

  /** Copy `i` of a setting turns on bit `b` of register `r`. */
  predicate CopySets(rg: RegMap, value: nat, i: nat, r: nat, b: nat)
    requires i < |rg.registers| && i < |rg.shifts|
  {
    rg.registers[i] == r && rg.shifts[i] <= b < 8 && Bit(Truncate(8, value), b - rg.shifts[i])
  }

  predicate CopiesSet(rg: RegMap, value: nat, n: nat, r: nat, b: nat)
    requires n <= |rg.registers|
  {
    exists i :: 0 <= i < n && i < |rg.shifts| && CopySets(rg, value, i, r, b)
  }

  predicate CopiesOk(rg: RegMap, n: nat)
    requires n <= |rg.registers|
  {
    n <= |rg.shifts| && forall i | 0 <= i < n :: rg.shifts[i] < SIZE_GBTX_REGISTER && rg.registers[i] < NUM_REGISTERS
  }

  lemma {:induction false} CopiesOkIff(image: Image, rg: RegMap, value: nat, n: nat)
    requires n <= |rg.registers|
    ensures SetCopies(image, rg, value, n).error.None? <==> CopiesOk(rg, n)
  {
    if n > 0 { CopiesOkIff(image, rg, value, n - 1); }
  }

  lemma {:induction false} BitAfterCopies(image: Image, rg: RegMap, value: nat, n: nat, r: nat, b: nat)
    requires n <= |rg.registers| && r < NUM_REGISTERS && CopiesOk(rg, n)
    ensures SetCopies(image, rg, value, n).error.None?
    ensures Bit(SetCopies(image, rg, value, n).image[r], b) <==> Bit(image[r], b) || CopiesSet(rg, value, n, r, b)
  {
    CopiesOkIff(image, rg, value, n);
    if n > 0 {
      hide Shifted, OrByte;
      BitAfterCopies(image, rg, value, n - 1, r, b);
      CopiesSetStep(rg, value, n, r, b);
    }
  }

  lemma {:induction false} CopiesSetStep(rg: RegMap, value: nat, n: nat, r: nat, b: nat)
    requires 0 < n <= |rg.registers| && n <= |rg.shifts|
    ensures CopiesSet(rg, value, n, r, b) <==> CopiesSet(rg, value, n - 1, r, b) || CopySets(rg, value, n - 1, r, b)
  {
    if CopiesSet(rg, value, n, r, b) {
      var i :| 0 <= i < n && i < |rg.shifts| && CopySets(rg, value, i, r, b);
      assert i < n - 1 ==> CopiesSet(rg, value, n - 1, r, b);
    }
    if CopiesSet(rg, value, n - 1, r, b) {
      var i :| 0 <= i < n - 1 && i < |rg.shifts| && CopySets(rg, value, i, r, b);
      assert 0 <= i < n;
    }
  }

  // ----- Order of the settings -----

  /** A setting that can be written. */
  predicate Writable(maps: RegisterMaps, st: Setting) {
    IsInt(st.value) && st.name in maps && CopiesOk(maps[st.name], |maps[st.name].registers|)
  }

  predicate Turns(maps: RegisterMaps, st: Setting, r: nat, b: nat) {
    st.name in maps && CopiesSet(maps[st.name], AsSize(st.value), |maps[st.name].registers|, r, b)
  }

  predicate AnyTurns(maps: RegisterMaps, settings: seq<Setting>, n: nat, r: nat, b: nat)
    requires n <= |settings|
  {
    exists k :: 0 <= k < n && Turns(maps, settings[k], r, b)
  }

  lemma {:induction false} LoadsIff(image: Image, maps: RegisterMaps, settings: seq<Setting>, n: nat)
    requires n <= |settings|
    ensures AfterSettings(image, maps, settings, n).error.None?
      <==> forall k | 0 <= k < n :: Writable(maps, settings[k])
  {
    if n > 0 {
      LoadsIff(image, maps, settings, n - 1);
      var st := settings[n - 1];
      if st.name in maps {
        CopiesOkIff(AfterSettings(image, maps, settings, n - 1).image, maps[st.name], AsSize(st.value),
          |maps[st.name].registers|);
      }
    }
  }

  /** A bit is set exactly when it was set before or some copy of some setting sets it. */
  lemma {:induction false} BitAfterSettings(
    image: Image, maps: RegisterMaps, settings: seq<Setting>, n: nat, r: nat, b: nat)
    requires n <= |settings| && r < NUM_REGISTERS && AfterSettings(image, maps, settings, n).error.None?
    ensures Bit(AfterSettings(image, maps, settings, n).image[r], b)
      <==> Bit(image[r], b) || AnyTurns(maps, settings, n, r, b)
  {
    if n > 0 {
      hide CopiesSet;
      BitAfterSettings(image, maps, settings, n - 1, r, b);
      LoadsIff(image, maps, settings, n);
      var st := settings[n - 1];
      assert Writable(maps, st);
      BitAfterCopies(AfterSettings(image, maps, settings, n - 1).image, maps[st.name], AsSize(st.value),
        |maps[st.name].registers|, r, b);
      AnyTurnsStep(maps, settings, n, r, b);
    }
  }

  lemma {:induction false} AnyTurnsStep(maps: RegisterMaps, settings: seq<Setting>, n: nat, r: nat, b: nat)
    requires 0 < n <= |settings|
    ensures AnyTurns(maps, settings, n, r, b)
      <==> AnyTurns(maps, settings, n - 1, r, b) || Turns(maps, settings[n - 1], r, b)
  {
    hide Turns;
    if AnyTurns(maps, settings, n, r, b) {
      var k :| 0 <= k < n && Turns(maps, settings[k], r, b);
      assert k < n - 1 ==> AnyTurns(maps, settings, n - 1, r, b);
    }
    if AnyTurns(maps, settings, n - 1, r, b) {
      var k :| 0 <= k < n - 1 && Turns(maps, settings[k], r, b);
      assert 0 <= k < n;
    }
  }

  // ----- Loading in plain terms -----

  /** An `int`, for a known setting, every copy of which has a shift and lies in the image. */
  predicate Loadable(maps: RegisterMaps, st: Setting) {
    && -0x8000_0000 <= st.value <= 0x7FFF_FFFF && st.name in maps
    && forall i | 0 <= i < |maps[st.name].registers| :: CopyFits(maps[st.name], i)
  }

  predicate CopyFits(rg: RegMap, i: nat)
    requires i < |rg.registers|
  {
    i < |rg.shifts| && rg.shifts[i] <= 7 && rg.registers[i] <= 435
  }

  /** Copy `i` of the setting has bit `b` of register `r` in the low byte of its value, negative ones included. */
  predicate CopyHasBit(rg: RegMap, value: int, i: nat, r: nat, b: nat)
    requires i < |rg.registers| && i < |rg.shifts|
  {
    rg.registers[i] == r && rg.shifts[i] <= b < 8 && Bit(value % 256, b - rg.shifts[i])
  }

  lemma {:induction false} LowByte(value: int, b: nat)
    ensures Bit(Truncate(8, AsSize(value)), b) == Bit(value % 256, b)
  {
    TruncateMod(AsSize(value));
    var low, high := AsSize(value), value / TWO_64;
    assert value == low + 256 * (0x100_0000_0000_0000 * high);
    ModShift(low, 0x100_0000_0000_0000 * high);
  }

  lemma {:induction false} ModShift(low: int, high: int)
    ensures (low + 256 * high) % 256 == low % 256
  {
  }

  lemma {:induction false} TruncateMod(value: nat)
    ensures Truncate(8, value) == value % 256
  {
    var low, high := value % 256, value / 256;
    assert value == low + 256 * high;
    assert Pow2(8) == 256;
    TruncateDrops(8, low, high);
    TruncateFits(8, low);
  }

  lemma {:induction false} TruncateDrops(w: nat, low: nat, high: nat)
    ensures Truncate(w, low + Pow2(w) * high) == Truncate(w, low)
  {
    if w > 0 {
      assert (low + Pow2(w) * high) / 2 == low / 2 + Pow2(w - 1) * high by {
        assert low + Pow2(w) * high == low + 2 * (Pow2(w - 1) * high);
      }
      assert (low + Pow2(w) * high) % 2 == low % 2 by {
        assert low + Pow2(w) * high == low + 2 * (Pow2(w - 1) * high);
      }
      TruncateDrops(w - 1, low / 2, high);
    }
  }

  lemma {:induction false} CopiesFit(rg: RegMap, n: nat)
    requires n <= |rg.registers|
    ensures CopiesOk(rg, n) <==> forall i: nat | i < n :: CopyFits(rg, i)
  {
    if CopiesOk(rg, n) {
      forall i: nat | i < n ensures CopyFits(rg, i) {}
    }
    if forall i: nat | i < n :: CopyFits(rg, i) {
      assert n > 0 ==> CopyFits(rg, n - 1);
      forall i | 0 <= i < n ensures rg.shifts[i] < SIZE_GBTX_REGISTER && rg.registers[i] < NUM_REGISTERS {
        assert CopyFits(rg, i);
      }
    }
  }

  /** Settings are loaded exactly when all of them can be; then a bit of the image is set exactly when it was, or some
      copy of some setting has it. */
  lemma {:induction false} LoadingMeans(
    image: Image, maps: RegisterMaps, settings: seq<Setting>, n: nat, r: nat, b: nat)
    requires n <= |settings| && r < 436
    ensures
      var after := AfterSettings(image, maps, settings, n);
      && (after.error.None? <==> forall k | 0 <= k < n :: Loadable(maps, settings[k]))
      && (after.error.None? ==>
           (Bit(after.image[r], b) <==> Bit(image[r], b) || SomeCopyHasBit(maps, settings, n, r, b)))
  {
    LoadsIff(image, maps, settings, n);
    forall k | 0 <= k < n ensures Writable(maps, settings[k]) <==> Loadable(maps, settings[k]) {
      WritableIsLoadable(maps, settings[k]);
    }
    if AfterSettings(image, maps, settings, n).error.None? {
      BitAfterSettings(image, maps, settings, n, r, b);
      forall k | 0 <= k < n ensures Turns(maps, settings[k], r, b) <==> SettingHasBit(maps, settings[k], r, b) {
        assert Writable(maps, settings[k]);
        TurnsIsBit(maps, settings[k], r, b);
      }
    }
  }

  lemma {:induction false} WritableIsLoadable(maps: RegisterMaps, st: Setting)
    ensures Writable(maps, st) <==> Loadable(maps, st)
  {
    if st.name in maps { CopiesFit(maps[st.name], |maps[st.name].registers|); }
  }

  predicate SettingHasBit(maps: RegisterMaps, st: Setting, r: nat, b: nat) {
    st.name in maps
      && exists i :: 0 <= i < |maps[st.name].registers| && i < |maps[st.name].shifts|
           && CopyHasBit(maps[st.name], st.value, i, r, b)
  }

  predicate SomeCopyHasBit(maps: RegisterMaps, settings: seq<Setting>, n: nat, r: nat, b: nat)
    requires n <= |settings|
  {
    exists k :: 0 <= k < n && SettingHasBit(maps, settings[k], r, b)
  }

  lemma {:induction false} TurnsIsBit(maps: RegisterMaps, st: Setting, r: nat, b: nat)
    ensures Turns(maps, st, r, b) <==> SettingHasBit(maps, st, r, b)
  {
    hide AsSize, Truncate, Bit;
    if st.name in maps {
      var rg := maps[st.name];
      forall i | 0 <= i < |rg.registers| && i < |rg.shifts|
        ensures CopySets(rg, AsSize(st.value), i, r, b) <==> CopyHasBit(rg, st.value, i, r, b)
      {
        if rg.shifts[i] <= b { LowByte(st.value, b - rg.shifts[i]); }
      }
    }
  }

  /** A load that fails stops at the first setting that cannot be loaded: the image is that of the settings before it
      and of the copies before the first bad one, and that says what is reported. */
  lemma {:induction false} LoadError(image: Image, maps: RegisterMaps, settings: seq<Setting>, n: nat)
    returns (k: nat, i: nat)
    requires n <= |settings| && AfterSettings(image, maps, settings, n).error.Some?
    ensures k < n && !Loadable(maps, settings[k]) && forall j | 0 <= j < k :: Loadable(maps, settings[j])
    ensures
      var st, before := settings[k], AfterSettings(image, maps, settings, k).image;
      var after := AfterSettings(image, maps, settings, n);
      if st.value < -0x8000_0000 || st.value > 0x7FFF_FFFF then after == Outcome(before, Some(BadData))
      else if st.name !in maps then after == Outcome(before, Some(NoSuchSetting))
      else StopsAt(before, maps[st.name], AsSize(st.value), i, after)
  {
    if AfterSettings(image, maps, settings, n - 1).error.Some? {
      k, i := LoadError(image, maps, settings, n - 1);
    } else {
      k, i := n - 1, 0;
      var st, before := settings[k], AfterSettings(image, maps, settings, k).image;
      LoadsIff(image, maps, settings, k);
      forall j | 0 <= j < k ensures Loadable(maps, settings[j]) { WritableIsLoadable(maps, settings[j]); }
      LoadsIff(image, maps, settings, n);
      WritableIsLoadable(maps, st);
      if IsInt(st.value) && st.name in maps {
        i := FirstBadCopy(before, maps[st.name], AsSize(st.value), |maps[st.name].registers|);
      }
    }
  }

  /** Copy `i` is the first that does not fit; the ones before it are in the image. */
  ghost predicate StopsAt(before: Image, rg: RegMap, value: nat, i: nat, after: Outcome) {
    && i < |rg.registers| && !CopyFits(rg, i) && (forall j: nat | j < i :: CopyFits(rg, j))
    && after.error == Some(
      if i >= |rg.shifts| then OutOfRange else if rg.shifts[i] > 7 then ShiftTooFar else RegisterTooHigh)
    && forall r: nat, b: nat | r < 436 ::
      Bit(after.image[r], b) <==> Bit(before[r], b) || CopiesSet(rg, value, i, r, b)
  }

  lemma {:induction false} FirstBadCopy(before: Image, rg: RegMap, value: nat, n: nat) returns (i: nat)
    requires n <= |rg.registers| && SetCopies(before, rg, value, n).error.Some?
    ensures StopsAt(before, rg, value, i, SetCopies(before, rg, value, n))
  {
    if SetCopies(before, rg, value, n - 1).error.Some? {
      i := FirstBadCopy(before, rg, value, n - 1);
    } else {
      i := n - 1;
      CopiesOkIff(before, rg, value, i);
      CopiesOkIff(before, rg, value, n);
      CopiesFit(rg, i);
      CopiesFit(rg, n);
      forall r: nat, b: nat | r < 436
        ensures
          Bit(SetCopies(before, rg, value, n).image[r], b) <==> Bit(before[r], b) || CopiesSet(rg, value, i, r, b)
      {
        BitAfterCopies(before, rg, value, i, r, b);
      }
    }
  }

  /** Every element of one list is in the other. */
  ghost predicate Includes(s: seq<Setting>, t: seq<Setting>) {
    forall k | 0 <= k < |t| :: t[k] in s
  }

  /** The order of the settings, and how often one is repeated, makes no difference: neither to whether they can be
      loaded nor to the image. */
  lemma {:induction false} OrderDoesNotMatter(image: Image, maps: RegisterMaps, s: seq<Setting>, t: seq<Setting>)
    requires Includes(s, t) && Includes(t, s)
    ensures AfterSettings(image, maps, s, |s|).error.None? <==> AfterSettings(image, maps, t, |t|).error.None?
    ensures AfterSettings(image, maps, s, |s|).error.None? ==>
      AfterSettings(image, maps, s, |s|) == AfterSettings(image, maps, t, |t|)
  {
    LoadsIff(image, maps, s, |s|);
    LoadsIff(image, maps, t, |t|);
    if AfterSettings(image, maps, s, |s|).error.None? { WritableMoves(maps, s, t); }
    if AfterSettings(image, maps, t, |t|).error.None? { WritableMoves(maps, t, s); }
    if AfterSettings(image, maps, s, |s|).error.None? {
      var x, y := AfterSettings(image, maps, s, |s|).image, AfterSettings(image, maps, t, |t|).image;
      forall r: nat | r < NUM_REGISTERS ensures x[r] == y[r] {
        forall b: nat ensures Bit(x[r], b) == Bit(y[r], b) {
          BitAfterSettings(image, maps, s, |s|, r, b);
          BitAfterSettings(image, maps, t, |t|, r, b);
          if AnyTurns(maps, t, |t|, r, b) { TurnsMoves(maps, s, t, r, b); }
          if AnyTurns(maps, s, |s|, r, b) { TurnsMoves(maps, t, s, r, b); }
        }
        SameBits(x[r], y[r]);
      }
      assert x == y;
    }
  }

  lemma {:induction false} WritableMoves(maps: RegisterMaps, s: seq<Setting>, t: seq<Setting>)
    requires Includes(s, t) && forall k | 0 <= k < |s| :: Writable(maps, s[k])
    ensures forall k | 0 <= k < |t| :: Writable(maps, t[k])
  {
    hide Writable;
    forall k | 0 <= k < |t| ensures Writable(maps, t[k]) {
      var i :| 0 <= i < |s| && s[i] == t[k];
    }
  }

  lemma {:induction false} TurnsMoves(maps: RegisterMaps, s: seq<Setting>, t: seq<Setting>, r: nat, b: nat)
    requires Includes(s, t) && AnyTurns(maps, t, |t|, r, b)
    ensures AnyTurns(maps, s, |s|, r, b)
  {
    hide Turns;
    var k :| 0 <= k < |t| && Turns(maps, t[k], r, b);
    var i :| 0 <= i < |s| && s[i] == t[k];
  }

  // ----- Reading a setting back -----

  /** Bit `b` of register `r` belongs to copy `i` of a setting of `width` bits. */
  predicate InCopy(rg: RegMap, width: nat, i: nat, r: nat, b: nat)
    requires i < |rg.registers| && i < |rg.shifts|
  {
    rg.registers[i] == r && rg.shifts[i] <= b < rg.shifts[i] + width
  }

  /** Every copy lies inside its register, and no bit belongs to two copies, of one setting or of two. */
  ghost predicate FieldsDisjoint(maps: RegisterMaps, widths: map<string, nat>) {
    && (forall m | m in maps :: m in widths && CopiesOk(maps[m], |maps[m].registers|))
    && (forall m, i | m in maps && 0 <= i < |maps[m].registers| :: maps[m].shifts[i] + widths[m] <= 8)
    && (forall m, n, i, j, r: nat, b: nat
        | m in maps && n in maps && 0 <= i < |maps[m].registers| && 0 <= j < |maps[n].registers|
          && InCopy(maps[m], widths[m], i, r, b) && InCopy(maps[n], widths[n], j, r, b)
        :: m == n && i == j)
  }

  /** What the chip finds in the bits of one copy. */
  function ReadCopy(image: Image, rg: RegMap, width: nat, i: nat): nat
    requires i < |rg.registers| && i < |rg.shifts| && rg.registers[i] < NUM_REGISTERS
  {
    Truncate(width, Shr(image[rg.registers[i]], rg.shifts[i]))
  }

  /** The settings can be written, fit their widths, and give one value for one name. */
  ghost predicate Consistent(maps: RegisterMaps, widths: map<string, nat>, settings: seq<Setting>) {
    && (forall k | 0 <= k < |settings| ::
      Writable(maps, settings[k]) && settings[k].name in widths
        && 0 <= settings[k].value < Pow2(widths[settings[k].name]))
    && (forall j, k | 0 <= j < |settings| && 0 <= k < |settings| && settings[j].name == settings[k].name ::
      settings[j].value == settings[k].value)
  }

  /** From an image of zeros, every copy of every setting reads back the value that was set. */
  lemma {:induction false} EveryCopyReadsBack(
    image: Image, maps: RegisterMaps, widths: map<string, nat>, settings: seq<Setting>, k: nat, i: nat)
    requires FieldsDisjoint(maps, widths) && Consistent(maps, widths, settings)
    requires forall r | 0 <= r < NUM_REGISTERS :: image[r] == 0
    requires k < |settings| && i < |maps[settings[k].name].registers|
    ensures
      var rg, after := maps[settings[k].name], AfterSettings(image, maps, settings, |settings|);
      && after.error.None?
      && i < |rg.shifts| && rg.registers[i] < NUM_REGISTERS
      && ReadCopy(after.image, rg, widths[settings[k].name], i) == settings[k].value
  {
    hide FieldsDisjoint;
    LoadsIff(image, maps, settings, |settings|);
    var name, value: nat := settings[k].name, settings[k].value;
    var rg, w := maps[name], widths[name];
    assert Writable(maps, settings[k]);
    var x := AfterSettings(image, maps, settings, |settings|).image;
    forall b: nat ensures Bit(ReadCopy(x, rg, w, i), b) == Bit(value, b) {
      FitsIffNoHighBits(value, w);
      BitOfTruncate(w, Shr(x[rg.registers[i]], rg.shifts[i]), b);
      BitOfShr(x[rg.registers[i]], rg.shifts[i], b);
      if b < w {
        BitAfterSettings(image, maps, settings, |settings|, rg.registers[i], b + rg.shifts[i]);
        BitOfZero(b + rg.shifts[i]);
        OwnBit(maps, widths, settings, k, i, b);
      }
    }
    SameBits(ReadCopy(x, rg, w, i), value);
  }

  lemma {:induction false} SameCopy(
    maps: RegisterMaps, widths: map<string, nat>, m: string, n: string, i: nat, j: nat, r: nat, b: nat)
    requires FieldsDisjoint(maps, widths) && m in maps && n in maps
    requires i < |maps[m].registers| && j < |maps[n].registers|
    ensures i < |maps[m].shifts| && j < |maps[n].shifts|
    ensures m in widths && n in widths && maps[m].shifts[i] + widths[m] <= 8 && maps[n].shifts[j] + widths[n] <= 8
    ensures InCopy(maps[m], widths[m], i, r, b) && InCopy(maps[n], widths[n], j, r, b) ==> m == n && i == j
  {
  }

  /** A bit of a copy is turned on by its own setting or by none. */
  lemma {:induction false} OwnBit(
    maps: RegisterMaps, widths: map<string, nat>, settings: seq<Setting>, k: nat, i: nat, b: nat)
    requires FieldsDisjoint(maps, widths) && Consistent(maps, widths, settings)
    requires k < |settings| && i < |maps[settings[k].name].registers| && b < widths[settings[k].name]
    ensures
      var rg := maps[settings[k].name];
      && i < |rg.shifts|
      && (AnyTurns(maps, settings, |settings|, rg.registers[i], b + rg.shifts[i]) <==> Bit(settings[k].value, b))
  {
    hide FieldsDisjoint, Turns;
    var st := settings[k];
    SameCopy(maps, widths, st.name, st.name, i, i, 0, 0);
    var r, c := maps[st.name].registers[i], b + maps[st.name].shifts[i];
    if Bit(st.value, b) {
      OwnSettingTurns(maps, widths, st, i, b);
    }
    if AnyTurns(maps, settings, |settings|, r, c) {
      var j :| 0 <= j < |settings| && Turns(maps, settings[j], r, c);
      OnlyOwnSettingTurns(maps, widths, st, settings[j], i, b);
    }
  }

  lemma {:induction false} OwnSettingTurns(maps: RegisterMaps, widths: map<string, nat>, st: Setting, i: nat, b: nat)
    requires st.name in maps && st.name in widths && 0 <= st.value < Pow2(widths[st.name])
    requires i < |maps[st.name].registers| && i < |maps[st.name].shifts| && b < widths[st.name]
    requires maps[st.name].shifts[i] + widths[st.name] <= 8 && Bit(st.value, b)
    ensures Turns(maps, st, maps[st.name].registers[i], b + maps[st.name].shifts[i])
  {
    StoredValue(st, widths[st.name]);
    var rg := maps[st.name];
    assert CopySets(rg, AsSize(st.value), i, rg.registers[i], b + rg.shifts[i]);
  }

  lemma {:induction false} OnlyOwnSettingTurns(
    maps: RegisterMaps, widths: map<string, nat>, st: Setting, other: Setting, i: nat, b: nat)
    requires FieldsDisjoint(maps, widths) && st.name in maps && other.name in maps && st.name in widths
      && other.name in widths
    requires 0 <= st.value && 0 <= other.value < Pow2(widths[other.name])
    requires st.name == other.name ==> st.value == other.value
    requires i < |maps[st.name].registers| && i < |maps[st.name].shifts| && b < widths[st.name]
    requires Turns(maps, other, maps[st.name].registers[i], b + maps[st.name].shifts[i])
    ensures Bit(st.value, b)
  {
    hide FieldsDisjoint;
    var r, c := maps[st.name].registers[i], b + maps[st.name].shifts[i];
    var rg, w := maps[other.name], widths[other.name];
    var q :| 0 <= q < |rg.registers| && q < |rg.shifts| && CopySets(rg, AsSize(other.value), q, r, c);
    SameCopy(maps, widths, st.name, other.name, i, q, r, c);
    StoredValue(other, w);
    var d: nat := c - rg.shifts[q];
    assert Bit(other.value, d);
    assert other.value < Pow2(w);
    if d >= w { HighBitOverflows(other.value, w, d); }
    assert InCopy(rg, w, q, r, c);
    assert InCopy(maps[st.name], widths[st.name], i, r, c);
  }

  lemma {:induction false} StoredValue(st: Setting, width: nat)
    requires width <= 8 && 0 <= st.value < Pow2(width)
    ensures AsSize(st.value) == st.value && Truncate(8, AsSize(st.value)) == st.value
  {
    Pow2Monotone(width, 8);
    assert Pow2(8) == 256;
    TruncateFits(8, st.value);
  }
}
