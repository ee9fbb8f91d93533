/** Stabilising the fibres between ART and MMTP (src/ConfigSender.cpp, alignArtGbtxMmtp): read the alignment register a
    hundred times, reset every quad with a misaligned fibre, repeat. */
module FibreAlignment {
  import opened Bits

  const ATTEMPTS: nat := 10
  const N_READS: nat := 100
  const NUM_FIBERS: nat := 32
  const NUM_FIBERS_PER_QPLL: nat := 4
  const NUM_QPLL: nat := 8

  /** An ART: whether it asks to be left out, and its bit in the alignment register. */
  datatype Art = Art(skip: bool, fiber: nat)

  /** The alignment register: word read as number `read` of round `round`. */
  type Register = (nat, nat) -> nat

  datatype Outcome = Aligned | GaveUp | BadFiber

  // ----- Specification -----

  predicate Requested(arts: seq<Art>, fiber: nat) {
    exists k :: 0 <= k < |arts| && !arts[k].skip && arts[k].fiber == fiber
  }

  predicate AnyRequested(arts: seq<Art>) { exists k :: 0 <= k < |arts| && !arts[k].skip }

  predicate FibersExist(arts: seq<Art>) { forall k | 0 <= k < |arts| && !arts[k].skip :: arts[k].fiber < NUM_FIBERS }

  /** A fibre was aligned in every read of a round. */
  ghost predicate Steady(word: Register, round: nat, fiber: nat) {
    forall read: nat | read < N_READS :: Bit(word(round, read), fiber)
  }

  ghost predicate AllSteady(arts: seq<Art>, word: Register, round: nat) {
    forall fiber: nat | Requested(arts, fiber) :: Steady(word, round, fiber)
  }

  /** Some requested fibre of the quad was misaligned in some read. */
  ghost predicate QuadUnsteady(arts: seq<Art>, word: Register, round: nat, qpll: nat) {
    exists fiber: nat :: InQuad(fiber, qpll) && Requested(arts, fiber) && !Steady(word, round, fiber)
  }

  predicate InQuad(fiber: nat, qpll: nat) { fiber / NUM_FIBERS_PER_QPLL == qpll }

  /** Bit `q` of the reset word for every unsteady quad `q`, no other bit. */
  ghost predicate IsResetWord(arts: seq<Art>, word: Register, round: nat, reset: nat, count: nat) {
    forall q: nat :: Bit(reset, q) <==> q < count && QuadUnsteady(arts, word, round, q)
  }

  // ----- One round -----

  /** How many of the first `n` reads had the fibre aligned. */
  function Count(word: Register, round: nat, fiber: nat, n: nat): (c: nat)
    ensures c <= n
  {
    if n == 0 then 0 else Count(word, round, fiber, n - 1) + (if Bit(word(round, n - 1), fiber) then 1 else 0)
  }

  lemma {:induction false} FullCountIff(word: Register, round: nat, fiber: nat, n: nat)
    ensures Count(word, round, fiber, n) == n <==> forall read: nat | read < n :: Bit(word(round, read), fiber)
  {
    if n > 0 { FullCountIff(word, round, fiber, n - 1); }
  }

  /** The reads that had the fibre's bit set. */
  function AlignedReads(word: Register, round: nat, fiber: nat, n: nat): set<nat> {
    set read: nat | read < n && Bit(word(round, read), fiber)
  }

  /** The counter is their number. */
  lemma {:induction false} CountMeans(word: Register, round: nat, fiber: nat, n: nat)
    ensures Count(word, round, fiber, n) == |AlignedReads(word, round, fiber, n)|
  {
    if n > 0 {
      CountMeans(word, round, fiber, n - 1);
      var before, now := AlignedReads(word, round, fiber, n - 1), AlignedReads(word, round, fiber, n);
      assert n - 1 !in before;
      assert now == if Bit(word(round, n - 1), fiber) then before + {n - 1} else before;
    }
  }

  method ReadAlignment(word: Register, round: nat) returns (aligned: array<nat>)
    ensures fresh(aligned) && aligned.Length == NUM_FIBERS
    ensures forall f: nat | f < NUM_FIBERS :: aligned[f] == Count(word, round, f, N_READS)
  {
    aligned := new nat[NUM_FIBERS](_ => 0);
    for read := 0 to N_READS
      invariant forall f: nat | f < NUM_FIBERS :: aligned[f] == Count(word, round, f, read)
    {
      var w := word(round, read);
      for fiber := 0 to NUM_FIBERS
        invariant forall f: nat | f < NUM_FIBERS ::
          aligned[f] == Count(word, round, f, if f < fiber then read + 1 else read)
      {
        var align := Bit(w, fiber);
        if align { aligned[fiber] := aligned[fiber] + 1; }
      }
    }
  }

  /** `std::bitset::set` refuses a position the set does not have. */
  method SkippedFibers(arts: seq<Art>) returns (skipped: array<bool>, ok: bool)
    ensures fresh(skipped) && skipped.Length == NUM_FIBERS && ok == FibersExist(arts)
    ensures ok ==> forall f: nat | f < NUM_FIBERS :: skipped[f] == !Requested(arts, f)
  {
    skipped := new bool[NUM_FIBERS](_ => true);
    for i := 0 to |arts|
      invariant FibersExist(arts[..i])
      invariant forall f: nat | f < NUM_FIBERS :: skipped[f] == !Requested(arts[..i], f)
    {
      assert arts[..i + 1] == arts[..i] + [arts[i]];
      if !arts[i].skip {
        if arts[i].fiber >= NUM_FIBERS { return skipped, false; }
        RequestedMore(arts, i);
        skipped[arts[i].fiber] := false;
      } else {
        RequestedMore(arts, i);
      }
    }
    assert arts[..|arts|] == arts;
    ok := true;
  }

  lemma {:induction false} RequestedMore(arts: seq<Art>, i: nat)
    requires i < |arts|
    ensures forall f: nat ::
      Requested(arts[..i + 1], f) <==> Requested(arts[..i], f) || (!arts[i].skip && arts[i].fiber == f)
  {
    forall f: nat
      ensures Requested(arts[..i + 1], f) <==> Requested(arts[..i], f) || (!arts[i].skip && arts[i].fiber == f)
    {
      var a, b := arts[..i], arts[..i + 1];
      if Requested(a, f) {
        var k :| 0 <= k < |a| && !a[k].skip && a[k].fiber == f;
        assert b[k] == a[k];
      }
      if Requested(b, f) {
        var k :| 0 <= k < |b| && !b[k].skip && b[k].fiber == f;
        assert k < i ==> a[k] == b[k];
      }
      assert b[i] == arts[i];
    }
  }

  /** One quad: look at its fibres until one is found that was not always aligned. */
  method QuadNeedsReset(
    arts: seq<Art>, word: Register, round: nat, aligned: array<nat>, skipped: array<bool>, qpll: nat)
    returns (bad: bool)
    requires aligned.Length == skipped.Length == NUM_FIBERS && FibersExist(arts)
    requires forall f: nat | f < NUM_FIBERS :: aligned[f] == Count(word, round, f, N_READS)
    requires forall f: nat | f < NUM_FIBERS :: skipped[f] == !Requested(arts, f)
    ensures bad == QuadUnsteady(arts, word, round, qpll)
  {
    hide Requested, Steady;
    for fiber := 0 to NUM_FIBERS
      invariant forall f: nat | f < fiber :: InQuad(f, qpll) && Requested(arts, f) ==> Steady(word, round, f)
    {
      if skipped[fiber] { continue; }
      if fiber / NUM_FIBERS_PER_QPLL != qpll { continue; }
      SteadyIffFull(word, round, fiber);
      if aligned[fiber] < N_READS { return true; }
    }
    RequestedExist(arts);
    bad := false;
  }

  lemma {:induction false} SteadyIffFull(word: Register, round: nat, fiber: nat)
    ensures Steady(word, round, fiber) <==> Count(word, round, fiber, N_READS) >= N_READS
  {
    FullCountIff(word, round, fiber, N_READS);
  }

  lemma {:induction false} RequestedExist(arts: seq<Art>)
    requires FibersExist(arts)
    ensures forall f: nat | Requested(arts, f) :: f < NUM_FIBERS
  {
  }

  /** The source adds `1 << qpll`; no carry can happen, so this is the same as or-ing. */
  method BuildReset(arts: seq<Art>, word: Register, round: nat, aligned: array<nat>, skipped: array<bool>)
    returns (reset: nat)
    requires aligned.Length == skipped.Length == NUM_FIBERS && FibersExist(arts)
    requires forall f: nat | f < NUM_FIBERS :: aligned[f] == Count(word, round, f, N_READS)
    requires forall f: nat | f < NUM_FIBERS :: skipped[f] == !Requested(arts, f)
    ensures IsResetWord(arts, word, round, reset, NUM_QPLL)
    ensures ResetBits(arts, word, round, reset)
  {
    hide QuadUnsteady, Requested;
    reset := 0;
    forall q: nat ensures !Bit(0, q) { BitOfZero(q); }
    for qpll := 0 to NUM_QPLL
      invariant IsResetWord(arts, word, round, reset, qpll)
    {
      var bad := QuadNeedsReset(arts, word, round, aligned, skipped, qpll);
      NextQuad(arts, word, round, reset, qpll, bad);
      if bad { reset := reset + Shl(1, qpll); }
    }
    ResetWordMeans(arts, word, round, reset);
  }

  lemma {:induction false} NextQuad(arts: seq<Art>, word: Register, round: nat, reset: nat, qpll: nat, bad: bool)
    requires IsResetWord(arts, word, round, reset, qpll) && bad == QuadUnsteady(arts, word, round, qpll)
    ensures IsResetWord(arts, word, round, if bad then reset + Shl(1, qpll) else reset, qpll + 1)
  {
    hide QuadUnsteady;
    if bad {
      AddOneBit(reset, qpll);
      var next := Or(reset, Shl(1, qpll));
      forall q: nat ensures Bit(next, q) <==> q < qpll + 1 && QuadUnsteady(arts, word, round, q) {
        assert Bit(reset, q) <==> q < qpll && QuadUnsteady(arts, word, round, q);
      }
      assert reset + Shl(1, qpll) == next;
    } else {
      forall q: nat ensures Bit(reset, q) <==> q < qpll + 1 && QuadUnsteady(arts, word, round, q) {
        assert Bit(reset, q) <==> q < qpll && QuadUnsteady(arts, word, round, q);
      }
    }
  }

  lemma {:induction false} AddOneBit(a: nat, q: nat)
    requires forall i: nat | i >= q :: !Bit(a, i)
    ensures a + Shl(1, q) == Or(a, Shl(1, q))
    ensures forall i: nat :: Bit(Or(a, Shl(1, q)), i) <==> Bit(a, i) || i == q
  {
    hide Shl, Or;
    var p := Shl(1, q);
    forall i: nat ensures Bit(p, i) == (i == q) {
      BitOfShl(1, q, i);
      if i >= q { BitOfOne(i - q); }
    }
    assert Disjoint(a, p);
    AddIsOr(a, p);
    forall i: nat ensures Bit(Or(a, p), i) <==> Bit(a, i) || i == q { BitOfOr(a, p, i); }
  }

  lemma {:induction false} BitOfOne(i: nat)
    ensures Bit(1, i) == (i == 0)
  {
    if i > 0 { BitOfZero(i - 1); }
  }

  /** No reset is needed exactly when every requested fibre was aligned in every read of the round. */
  lemma {:induction false} NoResetIff(arts: seq<Art>, word: Register, round: nat, reset: nat)
    requires FibersExist(arts) && IsResetWord(arts, word, round, reset, NUM_QPLL)
    ensures reset == 0 <==> AllSteady(arts, word, round)
    ensures reset < 256
  {
    hide Requested, Steady;
    RequestedExist(arts);
    assert Pow2(8) == 256;
    FitsIffNoHighBits(reset, 8);
    if reset == 0 {
      forall fiber: nat | Requested(arts, fiber) ensures Steady(word, round, fiber) {
        BitOfZero(fiber / 4);
        assert InQuad(fiber, fiber / 4);
        assert !QuadUnsteady(arts, word, round, fiber / 4);
      }
    }
    if AllSteady(arts, word, round) {
      forall q: nat ensures Bit(reset, q) == Bit(0, q) { BitOfZero(q); }
      SameBits(reset, 0);
    }
  }

  // ----- Reset words in plain terms -----

  /** Some ART that is not skipped has the fibre, and one of the hundred reads of the round has its bit clear. */
  ghost predicate NeedsReset(arts: seq<Art>, word: Register, round: nat, fiber: nat) {
    && (exists k :: 0 <= k < |arts| && !arts[k].skip && arts[k].fiber == fiber)
    && (exists read: nat :: read < 100 && !Bit(word(round, read), fiber))
  }

  /** So bit `q` of a reset word stands for the fibres from `4 * q` to `4 * q + 3`, and there are eight such bits. */
  ghost predicate ResetBits(arts: seq<Art>, word: Register, round: nat, reset: nat) {
    forall q: nat ::
      Bit(reset, q)
      <==> q < 8 && exists fiber: nat :: 4 * q <= fiber <= 4 * q + 3 && NeedsReset(arts, word, round, fiber)
  }

  lemma {:induction false} NeedsResetIff(arts: seq<Art>, word: Register, round: nat, fiber: nat)
    ensures NeedsReset(arts, word, round, fiber) <==> Requested(arts, fiber) && !Steady(word, round, fiber)
  {
  }

  lemma {:induction false} ResetWordMeans(arts: seq<Art>, word: Register, round: nat, reset: nat)
    ensures IsResetWord(arts, word, round, reset, NUM_QPLL) <==> ResetBits(arts, word, round, reset)
  {
    hide NeedsReset, Requested, Steady;
    forall q: nat
      ensures QuadUnsteady(arts, word, round, q)
        <==> exists fiber: nat :: 4 * q <= fiber <= 4 * q + 3 && NeedsReset(arts, word, round, fiber)
    {
      forall fiber: nat
        ensures InQuad(fiber, q) && Requested(arts, fiber) && !Steady(word, round, fiber)
          <==> 4 * q <= fiber <= 4 * q + 3 && NeedsReset(arts, word, round, fiber)
      {
        NeedsResetIff(arts, word, round, fiber);
      }
      if fiber: nat :| InQuad(fiber, q) && Requested(arts, fiber) && !Steady(word, round, fiber) {
        assert 4 * q <= fiber <= 4 * q + 3 && NeedsReset(arts, word, round, fiber);
      }
      if fiber: nat :| 4 * q <= fiber <= 4 * q + 3 && NeedsReset(arts, word, round, fiber) {
        assert InQuad(fiber, q) && Requested(arts, fiber) && !Steady(word, round, fiber);
      }
    }
    hide QuadUnsteady;
    assert NUM_QPLL == 8;
  }

  lemma {:induction false} AllSteadyIff(arts: seq<Art>, word: Register, round: nat)
    ensures AllSteady(arts, word, round) <==> forall fiber: nat :: !NeedsReset(arts, word, round, fiber)
  {
    hide NeedsReset, Requested, Steady;
    forall fiber: nat
      ensures NeedsReset(arts, word, round, fiber) <==> Requested(arts, fiber) && !Steady(word, round, fiber)
    {
      NeedsResetIff(arts, word, round, fiber);
    }
  }

  // ----- The loop -----

  /** The resets sent, one non-zero word a round; each is followed by a word of zeros. */
  ghost predicate ResetsOf(arts: seq<Art>, word: Register, resets: seq<nat>) {
    forall n | 0 <= n < |resets| :: resets[n] != 0 && IsResetWord(arts, word, n, resets[n], NUM_QPLL)
  }

  /** Succeeds exactly when one of the first eleven rounds is steady, after one reset for each round before it; gives up
      after eleven resets, and never sends more. */
  method AlignArtGbtxMmtp(arts: seq<Art>, word: Register) returns (outcome: Outcome, resets: seq<nat>)
    ensures !AnyRequested(arts) ==> outcome == Aligned && resets == []
    ensures AnyRequested(arts) ==> (outcome == BadFiber <==> !FibersExist(arts))
    ensures AnyRequested(arts) && FibersExist(arts) ==>
      (outcome == Aligned <==> exists n: nat :: n <= ATTEMPTS && AllSteady(arts, word, n))
    ensures outcome == BadFiber ==> resets == []
    ensures ResetsOf(arts, word, resets)
    ensures outcome == Aligned && AnyRequested(arts) ==> |resets| <= ATTEMPTS && AllSteady(arts, word, |resets|)
    ensures outcome == GaveUp ==> |resets| == ATTEMPTS + 1 && forall n: nat | n <= ATTEMPTS :: !AllSteady(arts, word, n)
    ensures outcome == BadFiber <==> exists k :: 0 <= k < |arts| && !arts[k].skip && arts[k].fiber >= 32
    ensures outcome == Aligned <==>
      (forall k | 0 <= k < |arts| :: arts[k].skip)
      || (outcome != BadFiber && exists n: nat :: n <= 10 && NothingToReset(arts, word, n))
    ensures |resets| <= 11 && forall n | 0 <= n < |resets| :: resets[n] != 0 && ResetBits(arts, word, n, resets[n])
  {
    hide AllSteady, IsResetWord, Count, Requested, ResetBits, NothingToReset;
    OutcomeMeans(arts, word);
    resets := [];
    var go := WantsAlignment(arts);
    if !go { return Aligned, []; }
    while true
      invariant |resets| <= ATTEMPTS + 1 && ResetsOf(arts, word, resets)
      invariant forall n | 0 <= n < |resets| :: resets[n] != 0 && ResetBits(arts, word, n, resets[n])
      invariant resets != [] ==> FibersExist(arts)
      invariant forall n: nat | n < |resets| :: !AllSteady(arts, word, n)
      decreases ATTEMPTS + 1 - |resets|
    {
      if |resets| > ATTEMPTS { return GaveUp, resets; }
      var aligned := ReadAlignment(word, |resets|);
      var skipped, ok := SkippedFibers(arts);
      if !ok { return BadFiber, []; }
      var reset := BuildReset(arts, word, |resets|, aligned, skipped);
      NoResetIff(arts, word, |resets|, reset);
      if reset == 0 { return Aligned, resets; }
      resets := resets + [reset];
    }
  }

  /** The outcome in plain terms. */
  lemma {:induction false} OutcomeMeans(arts: seq<Art>, word: Register)
    ensures AnyRequested(arts) <==> exists k :: 0 <= k < |arts| && !arts[k].skip
    ensures FibersExist(arts) <==> !exists k :: 0 <= k < |arts| && !arts[k].skip && arts[k].fiber >= 32
    ensures
      (exists n: nat :: n <= ATTEMPTS && AllSteady(arts, word, n))
      <==> exists n: nat :: n <= 10 && NothingToReset(arts, word, n)
  {
    forall n: nat ensures AllSteady(arts, word, n) <==> NothingToReset(arts, word, n) { AllSteadyIff(arts, word, n); }
    hide AllSteady, NothingToReset;
  }

  ghost predicate NothingToReset(arts: seq<Art>, word: Register, round: nat) {
    forall fiber: nat :: !NeedsReset(arts, word, round, fiber)
  }

  method WantsAlignment(arts: seq<Art>) returns (go: bool)
    ensures go == AnyRequested(arts)
  {
    go := false;
    for i := 0 to |arts|
      invariant go == exists k :: 0 <= k < i && !arts[k].skip
    {
      if !arts[i].skip { go := true; }
    }
  }
}
