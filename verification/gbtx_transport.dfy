/** Sending a GBTx image over I2C in blocks, reading it back in blocks, and retrying (src/ConfigSender.cpp). */
module GbtxTransport {
  import opened Utility

  const NUM_BYTES_TOTAL: nat := 436
  const MAX_CONFIG_REGISTER: nat := 365
  const MAX_ATTEMPTS: nat := 5

  /** An `int` block size as the unsigned word it is stored in: a negative one becomes huge. */
  function ChunkLen(blockSize: int): nat { blockSize % TWO_64 }

  // ----- The chip -----

  function Address(frame: seq<Byte>): nat
    requires |frame| >= 2
  {
    var low: nat, high: nat := frame[0], frame[1];
    low + 256 * high
  }

  /** The register file after a frame: address low byte, address high byte, then bytes for consecutive registers. */
  function Store(regs: seq<Byte>, frame: seq<Byte>): (after: seq<Byte>)
    requires |frame| >= 2
    ensures |after| == |regs|
  {
    var a := Address(frame);
    seq(|regs|, r requires 0 <= r < |regs| => if a <= r < a + |frame| - 2 then frame[r - a + 2] else regs[r])
  }

  function StoreAll(regs: seq<Byte>, frames: seq<seq<Byte>>): (after: seq<Byte>)
    requires forall k | 0 <= k < |frames| :: |frames[k]| >= 2
    ensures |after| == |regs|
    decreases |frames|
  {
    if frames == [] then regs else StoreAll(Store(regs, frames[0]), frames[1..])
  }

  /** `n` bytes from a register on; there is nothing behind the last register. */
  function Fetch(regs: seq<Byte>, a: nat, n: nat): seq<Byte> {
    seq(n, i requires 0 <= i < n => if a + i < |regs| then regs[a + i] else 0)
  }

  class I2cDevice {
    var regs: seq<Byte>
    var pointer: nat

    constructor (initial: seq<Byte>)
      ensures regs == initial && pointer == 0
    {
      regs, pointer := initial, 0;
    }

    method WriteRaw(frame: seq<Byte>)
      requires |frame| >= 2
      modifies this
      ensures regs == Store(old(regs), frame) && pointer == Address(frame) + |frame| - 2
    {
      regs, pointer := Store(regs, frame), Address(frame) + |frame| - 2;
    }

    method Read(n: nat) returns (bytes: seq<Byte>)
      modifies this`pointer
      ensures bytes == Fetch(regs, old(pointer), n) && pointer == old(pointer) + n
    {
      bytes := Fetch(regs, pointer, n);
      pointer := pointer + n;
    }
  }

  // ----- Cutting into frames -----

  function Header(reg: nat): (h: seq<Byte>)
    ensures |h| == 2
  {
    [reg % 256, reg / 256 % 256]
  }

  /** Where the frame that starts at `start` ends. A frame is only compared with the block size when it holds a byte of
      data, so a block size below 3 is never met and everything goes into one frame. */
  function FrameEnd(length: nat, start: nat, chunk: nat): (end: nat)
    requires start < length
    ensures start < end <= length
  {
    if chunk >= 3 then Min(start + chunk - 2, length) else length
  }

  function FramesFrom(data: seq<Byte>, start: nat, chunk: nat): (frames: seq<seq<Byte>>)
    requires start <= |data|
    ensures forall k | 0 <= k < |frames| :: |frames[k]| >= 3
    decreases |data| - start
  {
    if start == |data| then []
    else
      var end := FrameEnd(|data|, start, chunk);
      [Header(start) + data[start..end]] + FramesFrom(data, end, chunk)
  }

  /** `sendI2cConfigGBTx` */
  method SendI2cConfig(device: I2cDevice, blockSize: int, data: seq<Byte>) returns (ghost sent: seq<seq<Byte>>)
    modifies device
    ensures sent == FramesFrom(data, 0, ChunkLen(blockSize))
    ensures forall k | 0 <= k < |sent| :: |sent[k]| >= 2
    ensures device.regs == StoreAll(old(device.regs), sent)
  {
    hide FramesFrom, StoreAll, Store, ChunkLen;
    var chunk := ChunkLen(blockSize);
    var frame: seq<Byte> := [];
    ghost var start := 0;
    sent := [];
    NothingSent(device.regs, data, chunk);
    for reg := 0 to |data|
      invariant start <= reg && (reg == |data| ==> start == reg)
      invariant frame == if start == reg then [] else Header(start) + data[start..reg]
      invariant start < reg && chunk >= 3 ==> reg - start + 2 < chunk
      invariant forall k | 0 <= k < |sent| :: |sent[k]| >= 2
      invariant sent + FramesFrom(data, start, chunk) == FramesFrom(data, 0, chunk)
      invariant device.regs == StoreAll(old(device.regs), sent)
    {
      if |frame| == 0 {
        frame := Header(reg);
      }
      frame := frame + [data[reg]];
      assert frame == Header(start) + data[start..reg + 1];
      if |frame| == chunk || reg + 1 == |data| {
        CloseFrame(sent, data, start, reg + 1, chunk);
        StoreOneMore(old(device.regs), sent, frame);
        device.WriteRaw(frame);
        sent := sent + [frame];
        frame := [];
        start := reg + 1;
      }
    }
  }

  lemma {:induction false} NothingSent(regs: seq<Byte>, data: seq<Byte>, chunk: nat)
    ensures StoreAll(regs, []) == regs
    ensures FramesFrom(data, |data|, chunk) == []
  {
  }

  lemma {:induction false} CloseFrame(sent: seq<seq<Byte>>, data: seq<Byte>, start: nat, end: nat, chunk: nat)
    requires start < |data| && end == FrameEnd(|data|, start, chunk)
    ensures sent + FramesFrom(data, start, chunk)
      == sent + [Header(start) + data[start..end]] + FramesFrom(data, end, chunk)
  {
    var frame := Header(start) + data[start..end];
    assert FramesFrom(data, start, chunk) == [frame] + FramesFrom(data, end, chunk);
    assert sent + ([frame] + FramesFrom(data, end, chunk)) == sent + [frame] + FramesFrom(data, end, chunk);
  }

  lemma {:induction false} StoreOneMore(regs: seq<Byte>, frames: seq<seq<Byte>>, frame: seq<Byte>)
    requires |frame| >= 2 && forall k | 0 <= k < |frames| :: |frames[k]| >= 2
    ensures StoreAll(regs, frames + [frame]) == Store(StoreAll(regs, frames), frame)
    decreases |frames|
  {
    if frames == [] {
      assert [frame][1..] == [];
    } else {
      StoreOneMore(Store(regs, frames[0]), frames[1..], frame);
      assert (frames + [frame])[1..] == frames[1..] + [frame];
    }
  }

  /** Whatever the block size, the chip ends up with the image, and its other registers as they were. */
  lemma {:induction false} FramesStoreData(regs: seq<Byte>, data: seq<Byte>, start: nat, chunk: nat)
    requires start <= |data| <= |regs| <= 0x1_0000
    ensures StoreAll(regs, FramesFrom(data, start, chunk)) == regs[..start] + data[start..] + regs[|data|..]
    decreases |data| - start
  {
    hide Store, Header;
    if start < |data| {
      var end := FrameEnd(|data|, start, chunk);
      var frame := Header(start) + data[start..end];
      var after := Store(regs, frame);
      FrameStores(regs, data, start, end);
      FramesStoreData(after, data, end, chunk);
      FrameByFrame(regs, data, start, end);
      FirstFrame(regs, frame, FramesFrom(data, end, chunk));
    } else {
      NothingSent(regs, data, chunk);
      assert regs == regs[..start] + data[start..] + regs[|data|..];
    }
  }

  lemma {:induction false} FirstFrame(regs: seq<Byte>, frame: seq<Byte>, frames: seq<seq<Byte>>)
    requires |frame| >= 2 && forall k | 0 <= k < |frames| :: |frames[k]| >= 2
    ensures StoreAll(regs, [frame] + frames) == StoreAll(Store(regs, frame), frames)
  {
    assert ([frame] + frames)[1..] == frames;
  }

  lemma {:induction false} HeaderAddress(start: nat, bytes: seq<Byte>)
    requires start < 0x1_0000
    ensures Address(Header(start) + bytes) == start
  {
  }

  /** One frame overwrites the registers its bytes are for. */
  lemma {:induction false} FrameStores(regs: seq<Byte>, data: seq<Byte>, start: nat, end: nat)
    requires start < end <= |data| <= |regs| <= 0x1_0000
    ensures Store(regs, Header(start) + data[start..end]) == regs[..start] + data[start..end] + regs[end..]
  {
    hide Header, Address;
    var frame := Header(start) + data[start..end];
    HeaderAddress(start, data[start..end]);
    var after, expected := Store(regs, frame), regs[..start] + data[start..end] + regs[end..];
    assert |after| == |expected|;
    forall r | 0 <= r < |after| ensures after[r] == expected[r] { }
  }

  lemma {:induction false} FrameByFrame(regs: seq<Byte>, data: seq<Byte>, start: nat, end: nat)
    requires start < end <= |data| <= |regs|
    ensures
      var after := regs[..start] + data[start..end] + regs[end..];
      |after| == |regs|
      && after[..end] + data[end..] + after[|data|..] == regs[..start] + data[start..] + regs[|data|..]
  {
    var after := regs[..start] + data[start..end] + regs[end..];
    assert after[..end] == regs[..start] + data[start..end];
    assert after[|data|..] == regs[|data|..];
    assert data[start..end] + data[end..] == data[start..];
  }

  ghost predicate Bounded(frames: seq<seq<Byte>>, chunk: nat) {
    forall k | 0 <= k < |frames| :: |frames[k]| <= chunk
  }

  /** No frame is longer than the block size exactly when the block size leaves room for a byte of data. */
  lemma {:induction false} FramesFitIff(data: seq<Byte>, start: nat, chunk: nat)
    requires start < |data|
    ensures Bounded(FramesFrom(data, start, chunk), chunk) <==> chunk >= 3
    decreases |data| - start
  {
    var end := FrameEnd(|data|, start, chunk);
    var frame, rest := Header(start) + data[start..end], FramesFrom(data, end, chunk);
    var frames := FramesFrom(data, start, chunk);
    assert frames == [frame] + rest;
    if end < |data| { FramesFitIff(data, end, chunk); }
    if chunk >= 3 {
      assert Bounded(rest, chunk);
      assert |frame| <= chunk;
    } else {
      assert |frames[0]| > chunk;
    }
  }

  /** The frame from register `start` on in plain terms: it begins with the low and the high byte of its first register,
      and takes the next `room` bytes, or what is left. */
  predicate FrameIs(frame: seq<Byte>, data: seq<Byte>, room: nat, start: nat) {
    && start < |data|
    && |frame| == 2 + (if start + room <= |data| then room else |data| - start)
    && frame[0] == start % 256 && frame[1] == start / 256 % 256
    && frame[2..] == data[start..start + |frame| - 2]
  }

  /** With a block size of at least 3 every frame takes `chunk - 2` bytes; below that there is one with everything.
      There are just enough frames, and all of them have the block size but perhaps the last. */
  lemma {:induction false} FramesAre(data: seq<Byte>, chunk: nat, k: nat)
    requires |data| > 0
    ensures
      var frames, room := FramesFrom(data, 0, chunk), if chunk >= 3 then chunk - 2 else |data|;
      && (|frames| - 1) * room < |data| <= |frames| * room
      && (k < |frames| ==> FrameIs(frames[k], data, room, k * room))
      && (chunk >= 3 && k + 1 < |frames| ==> |frames[k]| == chunk)
  {
    hide FramesFrom;
    var frames, room := FramesFrom(data, 0, chunk), if chunk >= 3 then chunk - 2 else |data|;
    FramesFromAre(data, chunk, room, 0, 0, k);
    if k + 1 < |frames| {
      Ordered(k + 1, |frames| - 1, room);
      NextTimes(k, room);
    }
  }

  lemma {:induction false} Ordered(a: nat, b: nat, c: nat)
    requires a <= b
    ensures a * c <= b * c
  {
    assert b * c == a * c + (b - a) * c;
  }

  lemma {:induction false} NextTimes(m: nat, room: nat)
    ensures (m + 1) * room == m * room + room
  {
  }

  lemma {:induction false} FramesFromAre(data: seq<Byte>, chunk: nat, room: nat, m: nat, start: nat, k: nat)
    requires |data| > 0 && room == (if chunk >= 3 then chunk - 2 else |data|)
    requires start == m * room < |data|
    ensures
      var frames := FramesFrom(data, start, chunk);
      && |frames| > 0 && (m + |frames| - 1) * room < |data| <= (m + |frames|) * room
      && (m <= k < m + |frames| ==> FrameIs(frames[k - m], data, room, k * room))
    decreases |data| - start
  {
    hide FrameIs, Header;
    var end := FrameEnd(|data|, start, chunk);
    var frames, rest := FramesFrom(data, start, chunk), FramesFrom(data, end, chunk);
    assert frames == [Header(start) + data[start..end]] + rest;
    NextTimes(m, room);
    if m > 0 { Ordered(1, m, room); }
    OneFrameIs(data, chunk, room, start);
    if end < |data| {
      FramesFromAre(data, chunk, room, m + 1, end, k);
      assert m < k < m + |frames| ==> frames[k - m] == rest[k - (m + 1)];
    } else {
      assert rest == [];
    }
  }

  lemma {:induction false} OneFrameIs(data: seq<Byte>, chunk: nat, room: nat, start: nat)
    requires start < |data| && room == (if chunk >= 3 then chunk - 2 else |data|) && (chunk < 3 ==> start == 0)
    ensures FrameIs(Header(start) + data[start..FrameEnd(|data|, start, chunk)], data, room, start)
  {
  }

  /** What the chip makes of a frame with address bytes `low` and `high`. */
  lemma {:induction false} StoreMeans(regs: seq<Byte>, low: Byte, high: Byte, bytes: seq<Byte>, r: nat)
    requires r < |regs|
    ensures
      var a := low + 256 * high;
      Store(regs, [low, high] + bytes)[r] == if a <= r < a + |bytes| then bytes[r - a] else regs[r]
  {
    var frame := [low, high] + bytes;
    assert frame[0] == low && frame[1] == high;
    assert forall i | 0 <= i < |bytes| :: frame[i + 2] == bytes[i];
  }

  // ----- Reading back -----

  function Quotient(a: nat, b: nat): nat
    requires b > 0
  {
    a / b
  }

  function Times(k: nat, c: nat): nat { k * c }

  /** Number of reads; the sum is one of unsigned words, so it can wrap. */
  function NumChunks(chunk: nat): nat
    requires chunk > 0
  {
    Quotient((NUM_BYTES_TOTAL + chunk) % TWO_64, chunk)
  }

  /** The block size is one the image can be read back with. */
  predicate Readable(blockSize: int) { blockSize > 0 || blockSize + NUM_BYTES_TOTAL < 0 }

  predicate IsBlockSize(blockSize: int) { blockSize != 0 && -0x8000_0000 <= blockSize < 0x8000_0000 }

  lemma {:induction false} ReadableIff(blockSize: int)
    requires IsBlockSize(blockSize)
    ensures Readable(blockSize) <==> !(-436 <= blockSize < 0)
  {
  }

  /** The last read starts inside the image or right behind it, and the reads reach its end; with a block size that is
      negative but not very negative the sum wraps and there are none. */
  lemma {:induction false} ChunksCover(blockSize: int)
    requires IsBlockSize(blockSize)
    ensures 0 < ChunkLen(blockSize)
    ensures
      var chunk := ChunkLen(blockSize);
      var n := NumChunks(chunk);
      && (n > 0 <==> Readable(blockSize))
      && (n > 0 ==> Times(n - 1, chunk) <= NUM_BYTES_TOTAL < Times(n, chunk))
  {
    var c := ChunkLen(blockSize);
    if blockSize > 0 {
      assert c == blockSize && (NUM_BYTES_TOTAL + c) % TWO_64 == NUM_BYTES_TOTAL + c;
      QuotientBounds(NUM_BYTES_TOTAL + c, c);
      LastChunk(NumChunks(c), c);
    } else {
      assert c == blockSize + TWO_64;
      var sum := (NUM_BYTES_TOTAL + c) % TWO_64;
      assert sum == if Readable(blockSize) then NUM_BYTES_TOTAL + c else NUM_BYTES_TOTAL + blockSize;
      SmallQuotient(sum, c);
    }
  }

  lemma {:induction false} QuotientBounds(n: nat, c: nat)
    requires c > 0
    ensures Times(Quotient(n, c), c) <= n < Times(Quotient(n, c), c) + c
  {
  }

  lemma {:induction false} LastChunk(n: nat, c: nat)
    requires c > 0 && Times(n, c) <= NUM_BYTES_TOTAL + c < Times(n, c) + c
    ensures n > 0 && Times(n - 1, c) + c == Times(n, c)
  {
  }

  lemma {:induction false} SmallQuotient(n: nat, c: nat)
    requires NUM_BYTES_TOTAL < c && n < 2 * c
    ensures Quotient(n, c) == if n < c then 0 else 1
    ensures Times(1, c) == c && Times(0, c) == 0
  {
    var q := n / c;
    assert q * c <= n < q * c + c;
    assert q >= 2 ==> q * c >= 2 * c;
    if q == 0 { assert n < c; } else { assert n >= c; }
  }

  lemma {:induction false} TimesNext(k: nat, c: nat)
    ensures Times(k + 1, c) == Times(k, c) + c
  {
  }

  lemma {:induction false} TimesMonotone(k: nat, n: nat, c: nat)
    requires k <= n
    ensures Times(k, c) <= Times(n, c)
    decreases n - k
  {
    hide Times;
    if k < n {
      TimesMonotone(k, n - 1, c);
      TimesNext(n - 1, c);
    }
  }

  lemma {:induction false} NextChunk(k: nat, n: nat, c: nat)
    requires c > 0
    ensures Times(k + 1, c) == Times(k, c) + c
    ensures k < n ==> Times(k, c) <= Times(n - 1, c)
    ensures Times(k, c) < Times(n, c) <==> k < n
    ensures Times(0, c) == 0
  {
    assert Times(0, c) == 0;
    hide Times;
    TimesNext(k, c);
    if k < n {
      TimesMonotone(k, n - 1, c);
      TimesNext(n - 1, c);
    } else {
      TimesMonotone(n, k, c);
    }
  }

  /** `readI2cConfigGBTx`; dividing by a block size of zero is undefined in the source. */
  method ReadI2cConfig(device: I2cDevice, blockSize: int) returns (data: seq<Byte>)
    requires IsBlockSize(blockSize) && |device.regs| >= NUM_BYTES_TOTAL
    modifies device
    ensures device.regs == old(device.regs)
    ensures data == if Readable(blockSize) then device.regs[..NUM_BYTES_TOTAL] else []
    ensures data == if -436 <= blockSize < 0 then [] else device.regs[..436]
  {
    ReadableIff(blockSize);
    hide Times, NumChunks, ChunkLen, Readable, Store, Fetch;
    var chunk := ChunkLen(blockSize);
    ChunksCover(blockSize);
    var nChunks := NumChunks(chunk);
    data := [];
    var reg := 0;
    ghost var k := 0;
    NextChunk(0, nChunks, chunk);
    while reg < Times(nChunks, chunk)
      invariant 0 <= k <= nChunks && reg == Times(k, chunk)
      invariant device.regs == old(device.regs)
      invariant data == device.regs[..Min(reg, NUM_BYTES_TOTAL)]
      decreases nChunks - k
    {
      NextChunk(k, nChunks, chunk);
      var n := if reg + chunk > NUM_BYTES_TOTAL then NUM_BYTES_TOTAL - reg else chunk;
      var readback := ReadBlock(device, reg, n);
      data := data + readback;
      reg := reg + chunk;
      k := k + 1;
    }
    NextChunk(k, nChunks, chunk);
  }

  method ReadBlock(device: I2cDevice, reg: nat, n: nat) returns (readback: seq<Byte>)
    requires reg <= NUM_BYTES_TOTAL && reg + n <= |device.regs|
    modifies device
    ensures device.regs == old(device.regs) && readback == device.regs[reg..reg + n]
  {
    device.WriteRaw(Header(reg));
    assert device.regs == old(device.regs);
    assert device.pointer == reg;
    readback := device.Read(n);
    assert readback == device.regs[reg..reg + n];
  }
}
