/** Retrying an operation while the OPC server is gone (NSWConfiguration/NSWSectorControllerRc.h, retryOpc;
    src/NSWSectorControllerRc.cpp, recoverOpc). What the flag and the clock say is up to the environment. */
module OpcRetry {
  const INTERVAL: real := 5.0

  /** One call of `recoverOpc` as its environment answers it: the flag at every look, and the time since the start at
      every look at the clock. */
  datatype Recovery = Recovery(connected: nat -> bool, elapsed: nat -> real)

  /** Between two looks at the clock the thread has slept for the whole interval. */
  ghost predicate Clock(elapsed: nat -> real) {
    elapsed(0) >= 0.0 && forall k: nat :: elapsed(k + 1) >= elapsed(k) + INTERVAL
  }

  /** The loop goes on after look number `k`. */
  predicate Waiting(r: Recovery, timeout: nat, k: nat) { !r.connected(k) && r.elapsed(k) < timeout as real }

  /** The call looks at the flag `sends` times in vain, once more to leave the loop, and once more for its result. */
  ghost predicate IsRecovery(r: Recovery, timeout: nat, sends: nat, ok: bool) {
    && (forall k: nat | k < sends :: Waiting(r, timeout, k))
    && !Waiting(r, timeout, sends)
    && ok == r.connected(sends + 1)
  }

  lemma {:induction false} ElapsedGrows(elapsed: nat -> real, k: nat)
    requires Clock(elapsed)
    ensures elapsed(k) >= INTERVAL * k as real
  {
    if k > 0 { ElapsedGrows(elapsed, k - 1); }
  }

  /** Never more commands than intervals begun before the timeout: the quotient, rounded up. */
  method RecoverOpc(r: Recovery, timeout: nat) returns (ok: bool, sends: nat)
    requires Clock(r.elapsed)
    ensures IsRecovery(r, timeout, sends, ok)
    ensures forall k: nat | k < sends :: !r.connected(k) && r.elapsed(k) < timeout as real
    ensures r.connected(sends) || r.elapsed(sends) >= timeout as real
    ensures ok == r.connected(sends + 1)
    ensures sends <= (timeout + 4) / 5
  {
    sends := 0;
    while !r.connected(sends) && r.elapsed(sends) < timeout as real
      invariant forall k: nat | k < sends :: Waiting(r, timeout, k)
      invariant sends <= (timeout + 4) / 5
      decreases (timeout + 4) / 5 - sends
    {
      ElapsedGrows(r.elapsed, sends);
      assert 5 * sends < timeout;
      sends := sends + 1;
    }
    ok := r.connected(sends + 1);
    RecoveryMeans(r, timeout, sends, ok);
  }

  /** No command goes out while the server is there or after the timeout; the result is one more look. */
  lemma {:induction false} RecoveryMeans(r: Recovery, timeout: nat, sends: nat, ok: bool)
    ensures
      IsRecovery(r, timeout, sends, ok)
      <==> && (forall k: nat | k < sends :: !r.connected(k) && r.elapsed(k) < timeout as real)
           && (r.connected(sends) || r.elapsed(sends) >= timeout as real)
           && ok == r.connected(sends + 1)
  {
    assert forall k: nat :: Waiting(r, timeout, k) <==> !r.connected(k) && r.elapsed(k) < timeout as real;
    if IsRecovery(r, timeout, sends, ok) {
      forall k: nat | k < sends ensures !r.connected(k) && r.elapsed(k) < timeout as real {
        assert Waiting(r, timeout, k);
      }
    }
  }

  /** The number of commands and the result are determined by the environment. */
  lemma {:induction false} OneRecovery(r: Recovery, timeout: nat, m: nat, x: bool, n: nat, y: bool)
    requires IsRecovery(r, timeout, m, x) && IsRecovery(r, timeout, n, y)
    ensures m == n && x == y
  {
    assert m < n ==> Waiting(r, timeout, m);
    assert n < m ==> Waiting(r, timeout, n);
  }

  // ----- retryOpc -----

  /** The flag right after attempt `k`, and how recovering after it goes. */
  datatype World = World(check: nat -> bool, recovery: nat -> Recovery)

  datatype Issue = RetryLimitReached(fatal: bool) | CannotRecover(fatal: bool)

  datatype Settings = Settings(timeout: nat, numAttempts: nat, ignoreTimeoutError: bool, ignoreRetryError: bool)

  ghost predicate Recovers(w: World, st: Settings, k: nat) {
    exists sends: nat :: IsRecovery(w.recovery(k), st.timeout, sends, true)
  }

  /** The issues recorded for attempt `k`. */
  ghost function IssuesOf(w: World, st: Settings, k: nat): seq<Issue> {
    if w.check(k) then []
    else
      (if k == st.numAttempts - 1 then [RetryLimitReached(!st.ignoreRetryError)] else [])
      + (if Recovers(w, st, k) then [] else [CannotRecover(!st.ignoreTimeoutError)])
  }

  ghost function IssuesUpTo(w: World, st: Settings, n: nat): seq<Issue> {
    if n == 0 then [] else IssuesUpTo(w, st, n - 1) + IssuesOf(w, st, n - 1)
  }

  /** How often the operation is called: up to the first check that succeeds. */
  ghost predicate IsCalls(w: World, st: Settings, calls: nat) {
    && calls <= st.numAttempts
    && (forall k: nat | k + 1 < calls :: !w.check(k))
    && (calls < st.numAttempts ==> calls > 0 && w.check(calls - 1))
  }

  method RetryOpc(w: World, st: Settings) returns (calls: nat, issues: seq<Issue>)
    requires forall k: nat :: Clock(w.recovery(k).elapsed)
    ensures IsCalls(w, st, calls)
    ensures calls <= st.numAttempts && forall k: nat | k + 1 < calls :: !w.check(k)
    ensures calls < st.numAttempts ==> calls > 0 && w.check(calls - 1)
    ensures issues == IssuesUpTo(w, st, calls)
  {
    hide Clock, IsRecovery;
    calls := 0;
    issues := [];
    for counter := 0 to st.numAttempts
      invariant calls == counter
      invariant forall k: nat | k < counter :: !w.check(k)
      invariant issues == IssuesUpTo(w, st, counter)
    {
      calls := calls + 1;
      if w.check(counter) { break; }
      if counter == st.numAttempts - 1 {
        issues := issues + [RetryLimitReached(!st.ignoreRetryError)];
      }
      var recovered, sends := RecoverOpc(w.recovery(counter), st.timeout);
      ResultDecides(w, st, counter, sends, recovered);
      if !recovered {
        issues := issues + [CannotRecover(!st.ignoreTimeoutError)];
      }
      assert issues == IssuesUpTo(w, st, counter) + IssuesOf(w, st, counter);
    }
  }

  lemma {:induction false} ResultDecides(w: World, st: Settings, k: nat, sends: nat, ok: bool)
    requires IsRecovery(w.recovery(k), st.timeout, sends, ok)
    ensures Recovers(w, st, k) <==> ok
  {
    if Recovers(w, st, k) {
      var n: nat :| IsRecovery(w.recovery(k), st.timeout, n, true);
      OneRecovery(w.recovery(k), st.timeout, sends, ok, n, true);
    }
  }

  /** Nothing is reported exactly when there is nothing to do, or the check right after the last call found the server
      and every recovery before it had succeeded. */
  lemma {:induction false} SilentIff(w: World, st: Settings, calls: nat)
    requires IsCalls(w, st, calls)
    ensures
      IssuesUpTo(w, st, calls) == [] <==>
      st.numAttempts == 0 || (w.check(calls - 1) && forall k: nat | k + 1 < calls :: Recovers(w, st, k))
  {
    hide Recovers, IssuesUpTo;
    NoIssuesIff(w, st, calls);
    if st.numAttempts > 0 {
      assert IssuesOf(w, st, calls - 1) == [] <==> w.check(calls - 1);
      forall k: nat | k + 1 < calls ensures IssuesOf(w, st, k) == [] <==> Recovers(w, st, k) {}
      if forall k: nat | k < calls :: IssuesOf(w, st, k) == [] {
        forall k: nat | k + 1 < calls ensures Recovers(w, st, k) { assert IssuesOf(w, st, k) == []; }
      }
      if w.check(calls - 1) && forall k: nat | k + 1 < calls :: Recovers(w, st, k) {
        forall k: nat | k < calls ensures IssuesOf(w, st, k) == [] {
          if k + 1 < calls { assert Recovers(w, st, k); }
        }
      }
    }
  }

  lemma {:induction false} NoIssuesIff(w: World, st: Settings, n: nat)
    ensures IssuesUpTo(w, st, n) == [] <==> forall k: nat | k < n :: IssuesOf(w, st, k) == []
  {
    hide IssuesOf;
    if n > 0 { NoIssuesIff(w, st, n - 1); }
  }

  /** After how many of the first `n` attempts the server was still gone and no recovery brought it back. */
  ghost function Unrecovered(w: World, st: Settings, n: nat): nat {
    if n == 0 then 0 else Unrecovered(w, st, n - 1) + (if w.check(n - 1) || Recovers(w, st, n - 1) then 0 else 1)
  }

  /** The issues of `n` attempts, in order: one for every attempt that was not recovered from, and after the last
      attempt allowed, if its check fails too, first that the limit is reached. The settings decide whether they are
      fatal. */
  lemma {:induction false} IssuesAre(w: World, st: Settings, n: nat)
    requires n <= st.numAttempts
    ensures n < st.numAttempts ==>
      IssuesUpTo(w, st, n) == seq(Unrecovered(w, st, n), _ => CannotRecover(!st.ignoreTimeoutError))
    ensures 0 < n == st.numAttempts ==>
      IssuesUpTo(w, st, n)
      == seq(Unrecovered(w, st, n - 1), _ => CannotRecover(!st.ignoreTimeoutError))
         + (if w.check(n - 1) then []
            else if Recovers(w, st, n - 1) then [RetryLimitReached(!st.ignoreRetryError)]
            else [RetryLimitReached(!st.ignoreRetryError), CannotRecover(!st.ignoreTimeoutError)])
  {
    hide Recovers;
    if n > 0 {
      IssuesAre(w, st, n - 1);
      var one := CannotRecover(!st.ignoreTimeoutError);
      assert seq(Unrecovered(w, st, n - 1), _ => one) + [one] == seq(Unrecovered(w, st, n - 1) + 1, _ => one);
      assert [RetryLimitReached(!st.ignoreRetryError)] + [one] == [RetryLimitReached(!st.ignoreRetryError), one];
    }
  }

  ghost predicate Reported(issues: seq<Issue>) { exists fatal :: RetryLimitReached(fatal) in issues }

  /** The retry limit is reported exactly when there were attempts and the check after every one of them failed. */
  lemma {:induction false} LimitReportedIff(w: World, st: Settings, calls: nat)
    requires IsCalls(w, st, calls)
    ensures
      Reported(IssuesUpTo(w, st, calls)) <==> st.numAttempts > 0 && forall k: nat | k < st.numAttempts :: !w.check(k)
  {
    LimitIn(w, st, calls);
    if calls > 0 && calls == st.numAttempts && !w.check(calls - 1) {
      forall k: nat | k < st.numAttempts ensures !w.check(k) {}
    }
  }

  lemma {:induction false} LimitIn(w: World, st: Settings, n: nat)
    requires n <= st.numAttempts
    ensures Reported(IssuesUpTo(w, st, n)) <==> n > 0 && n == st.numAttempts && !w.check(n - 1)
  {
    if n > 0 {
      LimitIn(w, st, n - 1);
      var before, own := IssuesUpTo(w, st, n - 1), IssuesOf(w, st, n - 1);
      assert forall x :: x in before + own <==> x in before || x in own;
      if n == st.numAttempts && !w.check(n - 1) {
        assert RetryLimitReached(!st.ignoreRetryError) in own;
        assert RetryLimitReached(!st.ignoreRetryError) in IssuesUpTo(w, st, n);
      }
    }
  }
}
