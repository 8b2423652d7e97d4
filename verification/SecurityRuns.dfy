/** Runs of the security state: invariants, attempt counts, and where an unlock comes from. */
module SecurityRuns {
  import opened Bytes
  import opened Security

  datatype Act =
    | Nothing
    | AskSeed(e: Entropy)
    | TryKey(key: word)
    | ResetAll
    | LockAgain

  datatype TimedAct = At(now: nat, act: Act)

  function Step(s: Sec, a: TimedAct): Sec {
    match a.act
    case Nothing => s
    case AskSeed(e) => RequestSeed(s, 1, a.now, e).0
    case TryKey(key) => SendKey(s, 1, key, a.now).0
    case ResetAll => Reset(s)
    case LockAgain => Relock(s)
  }

  function Fold(s: Sec, acts: seq<TimedAct>): Sec
    decreases |acts|
  {
    if acts == [] then s else Fold(Step(s, acts[0]), acts[1..])
  }

  /** The key is really compared with the pending seed's key. */
  predicate Compared(s: Sec, a: TimedAct) {
    a.act.TryKey? && s.seedIssued && !LockedOut(s, a.now)
  }

  predicate Accepted(s: Sec, a: TimedAct) {
    Compared(s, a) && a.act.key == KeyFor(s.pendingSeed)
  }

  predicate Failed(s: Sec, a: TimedAct) {
    Compared(s, a) && a.act.key != KeyFor(s.pendingSeed)
  }

  /** The comparison fails and starts a lock-out. */
  predicate LocksOut(s: Sec, a: TimedAct) {
    Failed(s, a) && s.fails >= 2
  }

  /** What holds in every state a run from the initial one reaches. */
  predicate SecInv(s: Sec) {
    && s.unlocked <= 1
    && s.fails <= 3
    && (s.fails == 3 <==> s.lockUntil != 0)
    && (s.seedIssued ==> s.lockUntil == 0 && s.unlocked == 0 && s.pendingSeed != 0)
    && (s.unlocked == 1 ==> s.lockUntil == 0 && s.fails == 0)
  }

  lemma {:induction false} StepKeepsInv(s: Sec, a: TimedAct)
    requires SecInv(s)
    ensures SecInv(Step(s, a))
  {
  }

  /** In every reachable state a pending seed excludes a lock-out, so the second check in sendKey never fires. */
  lemma {:induction false} ReachableInv(s: Sec, acts: seq<TimedAct>)
    requires SecInv(s)
    ensures SecInv(Fold(s, acts))
    ensures var s' := Fold(s, acts);
            forall key: word, now: nat :: SendKey(s', 1, key, now).1 != KeyRefused(NRC_DELAY_NOT_EXPIRED)
    decreases |acts|
  {
    if acts != [] {
      StepKeepsInv(s, acts[0]);
      ReachableInv(Step(s, acts[0]), acts[1..]);
    }
  }

  // ---------- how many keys can be tried ----------

  function CountFailed(s: Sec, acts: seq<TimedAct>): nat
    decreases |acts|
  {
    if acts == [] then 0
    else (if Failed(s, acts[0]) then 1 else 0) + CountFailed(Step(s, acts[0]), acts[1..])
  }

  function CountLockOuts(s: Sec, acts: seq<TimedAct>): nat
    decreases |acts|
  {
    if acts == [] then 0
    else (if LocksOut(s, acts[0]) then 1 else 0) + CountLockOuts(Step(s, acts[0]), acts[1..])
  }

  /** Accepted keys, which clear the fail counter before its time. */
  function CountAccepted(s: Sec, acts: seq<TimedAct>): nat
    decreases |acts|
  {
    if acts == [] then 0
    else (if Accepted(s, acts[0]) then 1 else 0) + CountAccepted(Step(s, acts[0]), acts[1..])
  }

  /** Resets, which clear the lock-out as well. */
  function CountResets(acts: seq<TimedAct>): nat
    decreases |acts|
  {
    if acts == [] then 0
    else (if acts[0].act.ResetAll? then 1 else 0) + CountResets(acts[1..])
  }

  predicate Monotone(acts: seq<TimedAct>) {
    forall i, j :: 0 <= i < j < |acts| ==> acts[i].now <= acts[j].now
  }

  predicate Within(acts: seq<TimedAct>, from: nat, to: nat) {
    forall i :: 0 <= i < |acts| ==> from <= acts[i].now < to
  }

  /** Failures still possible before `end` if nothing pardons them. */
  function Budget(s: Sec, end: nat): nat {
    if s.lockUntil == 0 then (if s.fails <= 3 then 3 - s.fails else 0)
    else if s.lockUntil >= end then 0
    else 3
  }

  lemma {:induction false} WithinBudget(s: Sec, acts: seq<TimedAct>, from: nat)
    requires SecInv(s) && Within(acts, from, from + 10000)
    ensures CountFailed(s, acts) <= Budget(s, from + 10000) + 3 * CountResets(acts) + 2 * CountAccepted(s, acts)
    decreases |acts|
  {
    if acts != [] {
      StepKeepsInv(s, acts[0]);
      assert from <= acts[0].now < from + LOCK_MS;
      WithinBudget(Step(s, acts[0]), acts[1..], from);
    }
  }

  /**
   * Any half-open window of 10 seconds has at most three failed comparisons, three more for each
   * reset, and two more for each accepted key.
   */
  lemma {:induction false} AttemptRate(s: Sec, acts: seq<TimedAct>, from: nat)
    requires SecInv(s) && Within(acts, from, from + 10000)
    ensures CountFailed(s, acts) <= 3 + 3 * CountResets(acts) + 2 * CountAccepted(s, acts)
  {
    WithinBudget(s, acts, from);
  }

  lemma {:induction false} CountsAppend(s: Sec, a: seq<TimedAct>, b: seq<TimedAct>)
    ensures Fold(s, a + b) == Fold(Fold(s, a), b)
    ensures CountFailed(s, a + b) == CountFailed(s, a) + CountFailed(Fold(s, a), b)
    ensures CountAccepted(s, a + b) == CountAccepted(s, a) + CountAccepted(Fold(s, a), b)
    ensures CountResets(a + b) == CountResets(a) + CountResets(b)
    decreases |a|
  {
    if a == [] {
      assert a + b == b;
    } else {
      assert (a + b)[0] == a[0] && (a + b)[1..] == a[1..] + b;
      CountsAppend(Step(s, a[0]), a[1..], b);
    }
  }

  /** How many leading actions happen before `t`. */
  lemma {:induction false} SplitAt(acts: seq<TimedAct>, t: nat) returns (k: nat)
    requires Monotone(acts)
    ensures k <= |acts|
    ensures forall i :: 0 <= i < k ==> acts[i].now < t
    ensures forall i :: k <= i < |acts| ==> acts[i].now >= t
  {
    k := 0;
    while k < |acts| && acts[k].now < t
      invariant k <= |acts|
      invariant forall i :: 0 <= i < k ==> acts[i].now < t
    {
      k := k + 1;
    }
  }

  /** A run of `duration` ms has at most 3 * (duration / 10000 + 1) failed comparisons, and as many more as above. */
  lemma {:induction false} LongRunRate(s: Sec, acts: seq<TimedAct>, from: nat, duration: nat)
    requires SecInv(s) && Monotone(acts)
    requires forall i :: 0 <= i < |acts| ==> from <= acts[i].now <= from + duration
    ensures CountFailed(s, acts) <= 3 * (duration / 10000 + 1) + 3 * CountResets(acts) + 2 * CountAccepted(s, acts)
    decreases duration
  {
    var k := SplitAt(acts, from + LOCK_MS);
    var a, b := acts[..k], acts[k..];
    assert acts == a + b;
    CountsAppend(s, a, b);
    AttemptRate(s, a, from);
    if duration < LOCK_MS {
      assert b == [];
    } else {
      ReachableInv(s, a);
      LongRunRate(Fold(s, a), b, from + LOCK_MS, duration - LOCK_MS);
    }
  }

  /** Whatever the times: three failures per lock-out, and at most two forgiven by each reset or accepted key. */
  lemma {:induction false} FailuresAccounted(s: Sec, acts: seq<TimedAct>)
    requires SecInv(s)
    ensures var s' := Fold(s, acts);
            var held := if s.lockUntil == 0 then s.fails as int else 0;
            var left := if s'.lockUntil == 0 then s'.fails as int else 0;
            CountFailed(s, acts) + held <= 3 * CountLockOuts(s, acts) + 2 * (CountResets(acts) + CountAccepted(s, acts)) + left
            && left <= 2
    decreases |acts|
  {
    if acts != [] {
      StepKeepsInv(s, acts[0]);
      FailuresAccounted(Step(s, acts[0]), acts[1..]);
    }
  }

  predicate NoReset(acts: seq<TimedAct>) {
    forall i :: 0 <= i < |acts| ==> !acts[i].act.ResetAll?
  }

  /** Until its end, a lock-out holds against everything but a reset: no seed, no comparison, still locked. */
  lemma {:induction false} LockOutHolds(s: Sec, acts: seq<TimedAct>)
    requires SecInv(s) && s.lockUntil != 0 && NoReset(acts)
    requires forall i :: 0 <= i < |acts| ==> acts[i].now < s.lockUntil
    ensures CountGranted(s, acts) == 0 && CountCompared(s, acts) == 0
    ensures var s' := Fold(s, acts); s'.lockUntil == s.lockUntil && s'.unlocked == 0 && !s'.seedIssued
    decreases |acts|
  {
    if acts != [] {
      StepKeepsInv(s, acts[0]);
      var t := Step(s, acts[0]);
      assert t.lockUntil == s.lockUntil;
      LockOutHolds(t, acts[1..]);
    }
  }

  function CountCompared(s: Sec, acts: seq<TimedAct>): nat
    decreases |acts|
  {
    if acts == [] then 0
    else (if Compared(s, acts[0]) then 1 else 0) + CountCompared(Step(s, acts[0]), acts[1..])
  }

  function CountGranted(s: Sec, acts: seq<TimedAct>): nat
    decreases |acts|
  {
    if acts == [] then 0
    else
      var a := acts[0];
      (if a.act.AskSeed? && RequestSeed(s, 1, a.now, a.act.e).1.Granted? then 1 else 0)
      + CountGranted(Step(s, a), acts[1..])
  }

  /** Each seed handed out permits at most one comparison. */
  lemma {:induction false} OneComparisonPerSeed(s: Sec, acts: seq<TimedAct>)
    ensures CountCompared(s, acts) + (if Fold(s, acts).seedIssued then 1 else 0)
            <= CountGranted(s, acts) + (if s.seedIssued then 1 else 0)
    decreases |acts|
  {
    if acts != [] {
      OneComparisonPerSeed(Step(s, acts[0]), acts[1..]);
    }
  }

  // ---------- where an unlock comes from ----------

  /** The state after the first `n` actions. */
  function SecAt(s0: Sec, acts: seq<TimedAct>, n: nat): Sec
    requires n <= |acts|
  {
    Fold(s0, acts[..n])
  }

  lemma {:induction false} SecAtNext(s0: Sec, acts: seq<TimedAct>, n: nat)
    requires n < |acts|
    ensures SecAt(s0, acts, n + 1) == Step(SecAt(s0, acts, n), acts[n])
  {
    assert acts[..n + 1] == acts[..n] + [acts[n]];
    CountsAppend(s0, acts[..n], [acts[n]]);
    FoldOne(SecAt(s0, acts, n), acts[n]);
  }

  lemma {:induction false} FoldOne(s: Sec, a: TimedAct)
    ensures Fold(s, [a]) == Step(s, a)
  {
    assert [a][1..] == [];
  }

  lemma {:induction false} CountsNext(s0: Sec, acts: seq<TimedAct>, n: nat)
    requires n < |acts|
    ensures CountFailed(s0, acts[..n + 1])
            == CountFailed(s0, acts[..n]) + (if Failed(SecAt(s0, acts, n), acts[n]) then 1 else 0)
    ensures CountAccepted(s0, acts[..n + 1])
            == CountAccepted(s0, acts[..n]) + (if Accepted(SecAt(s0, acts, n), acts[n]) then 1 else 0)
    ensures CountResets(acts[..n + 1]) == CountResets(acts[..n]) + (if acts[n].act.ResetAll? then 1 else 0)
  {
    assert acts[..n + 1] == acts[..n] + [acts[n]];
    CountsAppend(s0, acts[..n], [acts[n]]);
    assert [acts[n]][1..] == [];
  }

  function CountTrue(flags: seq<bool>): nat {
    if flags == [] then 0
    else CountTrue(flags[..|flags| - 1]) + (if flags[|flags| - 1] then 1 else 0)
  }

  lemma {:induction false} FailedFlags(s0: Sec, acts: seq<TimedAct>, n: nat, flags: seq<bool>)
    requires n <= |acts| == |flags|
    requires forall k :: 0 <= k < |acts| ==> flags[k] == Failed(SecAt(s0, acts, k), acts[k])
    ensures CountFailed(s0, acts[..n]) == CountTrue(flags[..n])
  {
    if n > 0 {
      FailedFlags(s0, acts, n - 1, flags);
      CountsNext(s0, acts, n - 1);
      assert flags[..n][..n - 1] == flags[..n - 1];
    }
  }

  lemma {:induction false} AcceptedFlags(s0: Sec, acts: seq<TimedAct>, n: nat, flags: seq<bool>)
    requires n <= |acts| == |flags|
    requires forall k :: 0 <= k < |acts| ==> flags[k] == Accepted(SecAt(s0, acts, k), acts[k])
    ensures CountAccepted(s0, acts[..n]) == CountTrue(flags[..n])
  {
    if n > 0 {
      AcceptedFlags(s0, acts, n - 1, flags);
      CountsNext(s0, acts, n - 1);
      assert flags[..n][..n - 1] == flags[..n - 1];
    }
  }

  lemma {:induction false} ResetFlags(s0: Sec, acts: seq<TimedAct>, n: nat, flags: seq<bool>)
    requires n <= |acts| == |flags|
    requires forall k :: 0 <= k < |acts| ==> flags[k] == acts[k].act.ResetAll?
    ensures CountResets(acts[..n]) == CountTrue(flags[..n])
  {
    if n > 0 {
      ResetFlags(s0, acts, n - 1, flags);
      CountsNext(s0, acts, n - 1);
      assert flags[..n][..n - 1] == flags[..n - 1];
    }
  }

  /** Any sequence of states that moves by `Step` is the run. */
  lemma {:induction false} RunUnique(secs: seq<Sec>, acts: seq<TimedAct>, n: nat)
    requires |secs| == |acts| + 1 && n <= |acts|
    requires forall k :: 0 <= k < |acts| ==> secs[k + 1] == Step(secs[k], acts[k])
    ensures secs[n] == SecAt(secs[0], acts, n)
  {
    if n > 0 {
      RunUnique(secs, acts, n - 1);
      SecAtNext(secs[0], acts, n - 1);
      assert secs[n - 1 + 1] == Step(secs[n - 1], acts[n - 1]);
    }
  }

  /** The action neither uses up nor replaces nor withdraws a pending seed. */
  predicate LeavesSeed(s: Sec, a: TimedAct) {
    !a.act.AskSeed? && !a.act.ResetAll? && !a.act.LockAgain? && !Compared(s, a)
  }

  /** The action neither resets nor locks again. */
  predicate LeavesUnlock(a: TimedAct) {
    !a.act.ResetAll? && !a.act.LockAgain?
  }

  /** Action `j` asks for and gets `seed`, and nothing before action `n` uses it up, replaces or withdraws it. */
  ghost predicate SeedFromTo(s0: Sec, acts: seq<TimedAct>, j: nat, n: nat, seed: word)
    requires n <= |acts|
  {
    && j < n
    && acts[j].act.AskSeed?
    && SecAt(s0, acts, j + 1).seedIssued
    && SecAt(s0, acts, j + 1).pendingSeed == seed
    && forall k :: j < k < n ==> LeavesSeed(SecAt(s0, acts, k), acts[k])
  }

  /** Actions `j` and `i` are a seed handed out and the one key accepted for it; nothing since has locked again. */
  ghost predicate KeyExchange(s0: Sec, acts: seq<TimedAct>, j: nat, i: nat, n: nat, seed: word)
    requires n <= |acts|
  {
    && j < i < n
    && SeedFromTo(s0, acts, j, i, seed)
    && acts[i].act == TryKey(KeyFor(seed))
    && forall k :: i < k < n ==> LeavesUnlock(acts[k])
  }

  lemma {:induction false} SeedTaken(s0: Sec, acts: seq<TimedAct>, j: nat, n: nat, seed: word)
    requires n <= |acts| && SeedFromTo(s0, acts, j, n, seed)
    ensures var s := Step(SecAt(s0, acts, j), acts[j]); s.seedIssued && s.pendingSeed == seed
  {
    SecAtNext(s0, acts, j);
  }

  lemma {:induction false} SeedStaysPending(s: Sec, a: TimedAct)
    requires Step(s, a).seedIssued && !a.act.AskSeed?
    ensures s.seedIssued && Step(s, a).pendingSeed == s.pendingSeed && LeavesSeed(s, a)
  {
  }

  lemma {:induction false} PendingSeedOrigin(s0: Sec, acts: seq<TimedAct>, n: nat) returns (j: nat)
    requires n <= |acts| && !s0.seedIssued && SecAt(s0, acts, n).seedIssued
    ensures SeedFromTo(s0, acts, j, n, SecAt(s0, acts, n).pendingSeed)
  {
    var s, a := SecAt(s0, acts, n - 1), acts[n - 1];
    SecAtNext(s0, acts, n - 1);
    if a.act.AskSeed? {
      j := n - 1;
    } else {
      SeedStaysPending(s, a);
      j := PendingSeedOrigin(s0, acts, n - 1);
    }
  }

  /** An unlocked state comes from an unlocked one, or from the one key of the pending seed. */
  lemma {:induction false} UnlockStep(s: Sec, a: TimedAct)
    requires SecInv(s) && Step(s, a).unlocked >= 1
    ensures LeavesUnlock(a)
    ensures s.unlocked == 0 ==> s.seedIssued && a.act == TryKey(KeyFor(s.pendingSeed))
  {
  }

  /** In every reachable state, being unlocked has one explanation: a completed key exchange, not revoked since. */
  lemma {:induction false} UnlockProvenance(s0: Sec, acts: seq<TimedAct>, n: nat) returns (j: nat, i: nat, seed: word)
    requires n <= |acts| && SecInv(s0) && s0.unlocked == 0 && !s0.seedIssued
    requires SecAt(s0, acts, n).unlocked >= 1
    ensures KeyExchange(s0, acts, j, i, n, seed)
  {
    var s := SecAt(s0, acts, n - 1);
    ReachableInv(s0, acts[..n - 1]);
    SecAtNext(s0, acts, n - 1);
    UnlockStep(s, acts[n - 1]);
    if s.unlocked >= 1 {
      j, i, seed := UnlockProvenance(s0, acts, n - 1);
    } else {
      i, seed := n - 1, s.pendingSeed;
      j := PendingSeedOrigin(s0, acts, i);
    }
  }

  lemma {:induction false} Unused(s: Sec, a: TimedAct)
    requires LeavesSeed(s, a)
    ensures Step(s, a) == s
  {
  }

  /** The seed handed out by action `j` is the one pending before action `n`. */
  lemma {:induction false} PendingUntil(s0: Sec, acts: seq<TimedAct>, j: nat, n: nat, seed: word)
    requires n <= |acts| && SeedFromTo(s0, acts, j, n, seed)
    ensures SecAt(s0, acts, n).seedIssued && SecAt(s0, acts, n).pendingSeed == seed
  {
    if n > j + 1 {
      PendingUntil(s0, acts, j, n - 1, seed);
      SecAtNext(s0, acts, n - 1);
      Unused(SecAt(s0, acts, n - 1), acts[n - 1]);
    }
  }
}
