/** Configuring one GBTx until the readback matches (src/ConfigSender.cpp, sendGBTxConfig and its helpers). */
module GbtxSender {
  import opened Utility
  import opened GbtxTransport

  datatype SendError =
    | CommunicationError // a transfer threw
    | TriesUsedUp
    | InvalidGbtx

  /** The readback has the right size and equals the image on the registers the chip lets one write. */
  predicate Matches(data: seq<Byte>, readback: seq<Byte>) {
    && |readback| == |data|
    && forall i | 0 <= i < |data| && i <= MAX_CONFIG_REGISTER :: readback[i] == data[i]
  }

  /** As many bytes, and the same ones in registers 0 to 365. */
  predicate SameImage(data: seq<Byte>, readback: seq<Byte>) {
    var n := if |data| < 366 then |data| else 366;
    |readback| == |data| && readback[..n] == data[..n]
  }

  lemma {:induction false} MatchesIff(data: seq<Byte>, readback: seq<Byte>)
    ensures Matches(data, readback) <==> SameImage(data, readback)
  {
    var n := if |data| < 366 then |data| else 366;
    if SameImage(data, readback) {
      forall i | 0 <= i < |data| && i <= MAX_CONFIG_REGISTER ensures readback[i] == data[i] {
        assert readback[..n][i] == data[..n][i];
      }
    }
  }

  method CompareReadback(data: seq<Byte>, currentConfig: seq<Byte>) returns (ok: bool)
    ensures ok == Matches(data, currentConfig)
    ensures
      var n := if |data| < 366 then |data| else 366;
      ok <==> |currentConfig| == |data| && currentConfig[..n] == data[..n]
  {
    MatchesIff(data, currentConfig);
    if |data| != |currentConfig| { return false; }
    for i := 0 to |data|
      invariant i <= MAX_CONFIG_REGISTER + 1
      invariant forall k | 0 <= k < i :: data[k] == currentConfig[k]
    {
      if i > MAX_CONFIG_REGISTER { break; }
      if data[i] != currentConfig[i] { return false; }
    }
    ok := true;
  }

  /** `sendGBTxI2cConfigHelperFunction` */
  method SendAndCompare(device: I2cDevice, blockSize: int, data: seq<Byte>) returns (ok: bool)
    requires IsBlockSize(blockSize) && NUM_BYTES_TOTAL <= |device.regs| <= 0x1_0000
    modifies device
    ensures |device.regs| == |old(device.regs)|
    ensures ok <==> Matches(data, if Readable(blockSize) then device.regs[..NUM_BYTES_TOTAL] else [])
    ensures |data| <= |old(device.regs)| ==> device.regs == data + old(device.regs)[|data|..]
  {
    hide ChunkLen, Readable, Matches, FramesFrom, StoreAll;
    var sent := SendI2cConfig(device, blockSize, data);
    if |data| <= |old(device.regs)| {
      FramesStoreData(old(device.regs), data, 0, ChunkLen(blockSize));
      assert old(device.regs)[..0] == [] && data[0..] == data;
    }
    var currentConfig := ReadI2cConfig(device, blockSize);
    ok := CompareReadback(data, currentConfig);
  }

  /** A chip that keeps what it is told is configured by the first attempt, and reads back the image byte for byte,
      exactly with the block sizes it can be read with. */
  lemma {:induction false} FirstAttemptSucceedsIff(regs: seq<Byte>, blockSize: int, data: seq<Byte>)
    requires IsBlockSize(blockSize) && |data| == NUM_BYTES_TOTAL <= |regs| <= 0x1_0000
    ensures
      var after := StoreAll(regs, FramesFrom(data, 0, ChunkLen(blockSize)));
      && after[..NUM_BYTES_TOTAL] == data && after[NUM_BYTES_TOTAL..] == regs[NUM_BYTES_TOTAL..]
      && (Matches(data, if Readable(blockSize) then after[..NUM_BYTES_TOTAL] else []) <==> Readable(blockSize))
  {
    hide ChunkLen, FramesFrom, StoreAll;
    FramesStoreData(regs, data, 0, ChunkLen(blockSize));
    assert regs[..0] + data[0..] + regs[|data|..] == data + regs[|data|..];
  }

  // ----- Retrying -----

  /** What one attempt of a chip gives: bytes read back, or an exception on the way. */
  datatype Attempt = ReadBack(bytes: seq<Byte>) | Threw

  predicate Ends(data: seq<Byte>, a: Attempt) { a.Threw? || Matches(data, a.bytes) }

  /** The number of the attempt after which the loop stops. */
  function LastAttempt(data: seq<Byte>, attempts: nat -> Attempt, k: nat): (last: nat)
    requires k <= MAX_ATTEMPTS
    ensures k <= last <= MAX_ATTEMPTS
    ensures forall j | k <= j < last :: !Ends(data, attempts(j))
    ensures last == MAX_ATTEMPTS || Ends(data, attempts(last))
    decreases MAX_ATTEMPTS - k
  {
    if k == MAX_ATTEMPTS || Ends(data, attempts(k)) then k else LastAttempt(data, attempts, k + 1)
  }

  function Verdict(data: seq<Byte>, attempts: nat -> Attempt): Option<SendError> {
    var last := LastAttempt(data, attempts, 0);
    if attempts(last).Threw? then Some(CommunicationError)
    else if last == MAX_ATTEMPTS then Some(TriesUsedUp) else None
  }

  /** The loop of `sendGBTxConfig`; the attempts are the environment's. */
  method TryUntilReadBack(data: seq<Byte>, attempts: nat -> Attempt) returns (error: Option<SendError>, sends: nat)
    ensures sends == LastAttempt(data, attempts, 0) + 1
    ensures error == Verdict(data, attempts)
  {
    var nTries := MAX_ATTEMPTS;
    sends := 0;
    while true
      invariant sends == MAX_ATTEMPTS - nTries
      invariant LastAttempt(data, attempts, sends) == LastAttempt(data, attempts, 0)
      decreases nTries
    {
      var a := attempts(sends);
      sends := sends + 1;
      if a.Threw? { return Some(CommunicationError), sends; }
      var ok := CompareReadback(data, a.bytes);
      if !(!ok && nTries > 0) { break; }
      nTries := nTries - 1;
    }
    error := if nTries == 0 then Some(TriesUsedUp) else None;
  }

  /** `sendGBTxConfig`: the same loop over the IC channel for the first GBTx and over I2C for the others. */
  method SendGbtxConfig(images: seq<seq<Byte>>, gbtxId: nat, ic: nat -> Attempt, i2c: nat -> Attempt)
    returns (error: Option<SendError>, sends: nat)
    ensures gbtxId > 2 || gbtxId >= |images| ==> error == Some(InvalidGbtx) && sends == 0
    ensures gbtxId <= 2 && gbtxId < |images| ==>
      var attempts := if gbtxId == 0 then ic else i2c;
      && error == Verdict(images[gbtxId], attempts)
      && sends == LastAttempt(images[gbtxId], attempts, 0) + 1
  {
    if gbtxId > 2 || gbtxId >= |images| { return Some(InvalidGbtx), 0; }
    if gbtxId == 0 {
      error, sends := TryUntilReadBack(images[gbtxId], ic);
    } else {
      error, sends := TryUntilReadBack(images[gbtxId], i2c);
    }
  }

  /** The call returns normally exactly when one of the first five readbacks matched and nothing threw before it; it
      reports a transfer that threw before any readback matched, and otherwise, even if a sixth readback matches, that
      the tries are used up. */
  lemma {:induction false} ReturnsIffEarlyMatch(data: seq<Byte>, attempts: nat -> Attempt)
    ensures Verdict(data, attempts) == None <==>
      exists k: nat :: k < 5 && AllOther(data, attempts, k) && attempts(k).ReadBack?
        && SameImage(data, attempts(k).bytes)
    ensures Verdict(data, attempts) == Some(CommunicationError) <==>
      exists k: nat :: k <= 5 && AllOther(data, attempts, k) && attempts(k).Threw?
    ensures Verdict(data, attempts) == Some(TriesUsedUp) <==> AllOther(data, attempts, 5) && attempts(5).ReadBack?
  {
    hide SameImage, Matches;
    var last := LastAttempt(data, attempts, 0);
    forall j: nat ensures Ends(data, attempts(j)) <==>
      attempts(j).Threw? || SameImage(data, attempts(j).bytes)
    {
      if attempts(j).ReadBack? { MatchesIff(data, attempts(j).bytes); }
    }
    assert AllOther(data, attempts, last);
    forall k: nat | k <= 5 && AllOther(data, attempts, k) && (k == 5 || Ends(data, attempts(k))) ensures k == last {
      FirstToEnd(data, attempts, 0, k);
    }
  }

  /** The first `k` attempts all read back something else. */
  predicate AllOther(data: seq<Byte>, attempts: nat -> Attempt, k: nat) {
    forall j: nat | j < k :: attempts(j).ReadBack? && !SameImage(data, attempts(j).bytes)
  }

  /** There are at most six sends, and fewer only because the last one ended the loop. */
  lemma {:induction false} SendsAre(data: seq<Byte>, attempts: nat -> Attempt)
    ensures
      var sends := LastAttempt(data, attempts, 0) + 1;
      && 1 <= sends <= 6 && AllOther(data, attempts, sends - 1)
      && (sends < 6 ==> attempts(sends - 1).Threw? || SameImage(data, attempts(sends - 1).bytes))
  {
    hide SameImage, Matches;
    var last := LastAttempt(data, attempts, 0);
    forall j: nat | j <= last && attempts(j).ReadBack?
      ensures Matches(data, attempts(j).bytes) <==> SameImage(data, attempts(j).bytes)
    {
      MatchesIff(data, attempts(j).bytes);
    }
  }

  lemma {:induction false} FirstToEnd(data: seq<Byte>, attempts: nat -> Attempt, k: nat, m: nat)
    requires k <= m <= MAX_ATTEMPTS && (m == MAX_ATTEMPTS || Ends(data, attempts(m)))
    requires forall j: nat | k <= j < m :: !Ends(data, attempts(j))
    ensures LastAttempt(data, attempts, k) == m
    decreases m - k
  {
    if k < m { FirstToEnd(data, attempts, k + 1, m); }
  }
}
