/**
 * Whole runs of the ECU: timed requests, S3 polls and telemetry updates in any interleaving,
 * under a clock that never goes back.
 */
module Runs {
  import opened Bytes
  import opened Sequences
  import opened Uds
  import opened UdsProps
  import Security
  import SecurityRuns

  const RESP_CAP := 4095

  datatype Action =
    | Request(req: seq<byte>, entropy: Security.Entropy)
    | Poll
    | Telemetry(engine: Engine)

  datatype Timed = At(now: nat, action: Action)

  function Answer(e: Ecu, t: Timed): Reply
    requires t.action.Request?
  {
    Process(e, t.action.req, RESP_CAP, t.now, t.action.entropy)
  }

  function Next(e: Ecu, t: Timed): Ecu {
    match t.action
    case Request(_, _) => Answer(e, t).ecu
    case Poll => S3Poll(e, t.now)
    case Telemetry(engine) => e.(engine := engine)
  }

  /** The state after the first `n` actions. */
  function StateAt(e0: Ecu, acts: seq<Timed>, n: nat): Ecu
    requires n <= |acts|
  {
    if n == 0 then e0 else Next(StateAt(e0, acts, n - 1), acts[n - 1])
  }

  /** The clock never goes back, starts at `t0` or later, and does not overflow 64 bits. */
  ghost predicate Clocked(t0: nat, acts: seq<Timed>) {
    && (forall i, j :: 0 <= i < j < |acts| ==> acts[i].now <= acts[j].now)
    && (forall i :: 0 <= i < |acts| ==> t0 <= acts[i].now < U64_RANGE)
  }

  // ---------- invariants of every run ----------

  ghost predicate EcuInv(e: Ecu) {
    Bounded(e) && SecurityRuns.SecInv(e.sec) && 1 <= e.session <= 3
  }

  /** The security part of an action, as the gating of service 27, service 11 and the poll lets it through. */
  function SecActOf(e: Ecu, t: Timed): SecurityRuns.TimedAct {
    var act := match t.action
      case Telemetry(_) => SecurityRuns.Nothing
      case Poll => if e.session != SESSION_DEFAULT && S3Expired(t.now, e.lastTp) then SecurityRuns.LockAgain else SecurityRuns.Nothing
      case Request(req, entropy) =>
        if |req| == 2 && req[0] == SID_ECU_RESET && 1 <= Sub(req[1]) <= 3 then SecurityRuns.ResetAll
        else if |req| >= 2 && req[0] == SID_SECURITY_ACCESS && Extended(e) then
          if |req| == 2 && Sub(req[1]) == 1 then SecurityRuns.AskSeed(entropy)
          else if |req| == 6 && Sub(req[1]) == 2 then SecurityRuns.TryKey(Read32(req[2..6]))
          else SecurityRuns.Nothing
        else SecurityRuns.Nothing;
    SecurityRuns.At(t.now, act)
  }

  lemma {:induction false} SecurityAccessFollows(e: Ecu, t: Timed)
    requires t.action.Request? && |t.action.req| >= 1 && t.action.req[0] == SID_SECURITY_ACCESS
    ensures SecurityAccess(e, t.action.req, t.now, t.action.entropy).ecu.sec == SecurityRuns.Step(e.sec, SecActOf(e, t))
  {
    var req := t.action.req;
    var r := SecurityAccess(e, req, t.now, t.action.entropy);
    if |req| < 2 || !Extended(e) {
      assert r.ecu == e && SecActOf(e, t).act.Nothing?;
    } else if Sub(req[1]) % 2 == 1 {
      assert |req| == 2 ==> r.ecu.sec == Security.RequestSeed(e.sec, Sub(req[1]), t.now, t.action.entropy).0;
      assert |req| == 2 && Sub(req[1]) == 1 <==> SecActOf(e, t).act == SecurityRuns.AskSeed(t.action.entropy);
    } else if |req| == 6 {
      var level: byte := (Sub(req[1]) as int + 0xFF) % 0x100;
      assert level == 1 <==> Sub(req[1]) == 2;
      assert r.ecu.sec == Security.SendKey(e.sec, level, Read32(req[2..6]), t.now).0;
    }
  }

  lemma {:induction false} ResetFollows(e: Ecu, t: Timed)
    requires t.action.Request? && |t.action.req| >= 1 && t.action.req[0] == SID_ECU_RESET
    ensures EcuReset(e, t.action.req, t.now).ecu.sec == SecurityRuns.Step(e.sec, SecActOf(e, t))
  {
  }

  /** The whole ECU moves its security state exactly by that action. */
  lemma {:induction false} SecurityFollows(e: Ecu, t: Timed)
    ensures Next(e, t).sec == SecurityRuns.Step(e.sec, SecActOf(e, t))
  {
    if t.action.Request? && |t.action.req| >= 1 {
      if t.action.req[0] == SID_SECURITY_ACCESS {
        SecurityAccessFollows(e, t);
      } else if t.action.req[0] == SID_ECU_RESET {
        ResetFollows(e, t);
      } else {
        FrameByService(e, t.action.req, RESP_CAP, t.now, t.action.entropy);
      }
    }
  }

  lemma {:induction false} NextKeepsInv(e: Ecu, t: Timed)
    requires EcuInv(e)
    ensures EcuInv(Next(e, t))
  {
    SecurityFollows(e, t);
    SecurityRuns.StepKeepsInv(e.sec, SecActOf(e, t));
    if t.action.Request? && |t.action.req| >= 1 {
      FrameByService(e, t.action.req, RESP_CAP, t.now, t.action.entropy);
      RequestKeepsBounds(e, t.action.req, t.now, t.action.entropy);
    }
  }

  lemma {:induction false} RequestKeepsBounds(e: Ecu, req: seq<byte>, now: nat, entropy: Security.Entropy)
    requires |req| >= 1 && 1 <= e.session <= 3 && |e.owner| <= OWNER_CAP
    ensures var r := Process(e, req, RESP_CAP, now, entropy).ecu;
            1 <= r.session <= 3 && |r.owner| <= OWNER_CAP
  {
  }

  lemma {:induction false} ReachableInv(e0: Ecu, acts: seq<Timed>, n: nat)
    requires n <= |acts| && EcuInv(e0)
    ensures EcuInv(StateAt(e0, acts, n))
  {
    if n > 0 {
      ReachableInv(e0, acts, n - 1);
      NextKeepsInv(StateAt(e0, acts, n - 1), acts[n - 1]);
    }
  }

  /** From power-up on, every request gets a disciplined answer that ISO-TP can carry. */
  lemma {:induction false} EveryAnswerDisciplined(t0: nat, acts: seq<Timed>, n: nat)
    requires n < |acts| && acts[n].action.Request? && |acts[n].action.req| >= 1
    ensures var e := StateAt(Boot(t0), acts, n);
            EcuInv(e) && Disciplined(e, acts[n].action.req, Answer(e, acts[n]))
  {
    ReachableInv(Boot(t0), acts, n);
    ResponseDiscipline(StateAt(Boot(t0), acts, n), acts[n].action.req, RESP_CAP, acts[n].now, acts[n].action.entropy);
  }

  // ---------- the S3 timer over time ----------

  /** When the last poll among the first `n` actions was, or the start of the run. */
  function LastPoll(t0: nat, acts: seq<Timed>, n: nat): nat
    requires n <= |acts|
  {
    if n == 0 then t0
    else if acts[n - 1].action.Poll? then acts[n - 1].now
    else LastPoll(t0, acts, n - 1)
  }

  function TimeAt(t0: nat, acts: seq<Timed>, n: nat): nat
    requires n <= |acts|
  {
    if n == 0 then t0 else acts[n - 1].now
  }

  lemma {:induction false} S3Invariant(t0: nat, e0: Ecu, acts: seq<Timed>, n: nat)
    requires n <= |acts| && Clocked(t0, acts) && e0.session == SESSION_DEFAULT && e0.lastTp <= t0
    ensures var e := StateAt(e0, acts, n);
            && e.lastTp <= TimeAt(t0, acts, n)
            && LastPoll(t0, acts, n) <= TimeAt(t0, acts, n)
            && (e.session != SESSION_DEFAULT ==> LastPoll(t0, acts, n) <= e.lastTp + S3_TIMEOUT_MS)
  {
    if n > 0 {
      S3Invariant(t0, e0, acts, n - 1);
      var e, t := StateAt(e0, acts, n - 1), acts[n - 1];
      assert n > 1 ==> acts[n - 2].now <= t.now;
      assert TimeAt(t0, acts, n - 1) <= t.now;
      match t.action {
        case Request(req, entropy) =>
          if |req| >= 1 {
            FrameByService(e, req, RESP_CAP, t.now, entropy);
          }
        case Poll => PollExact(e, t.now);
        case Telemetry(_) =>
      }
    }
  }

  /**
   * S3 safety: while polls come at most `period` apart, no state outside the default session is
   * ever more than 5000 ms + `period` away from the last TesterPresent or session change.
   */
  lemma {:induction false} S3Safety(t0: nat, acts: seq<Timed>, n: nat, now: nat, period: nat)
    requires n <= |acts| && Clocked(t0, acts) && TimeAt(t0, acts, n) <= now
    requires now - LastPoll(t0, acts, n) <= period
    ensures var e := StateAt(Boot(t0), acts, n);
            e.session != SESSION_DEFAULT ==> e.lastTp <= now && now - e.lastTp <= 5000 + period
  {
    S3Invariant(t0, Boot(t0), acts, n);
  }

  // ---------- tried keys, as the tester sees them ----------

  /** The answer is NRC 35 or 36 to a SecurityAccess request. */
  predicate ReportsFailure(e: Ecu, t: Timed) {
    t.action.Request? &&
    var b := Answer(e, t).bytes;
    |b| == 3 && b[0] == NEGATIVE && b[1] == SID_SECURITY_ACCESS
    && (b[2] == Security.NRC_INVALID_KEY || b[2] == Security.NRC_EXCEEDED_ATTEMPTS)
  }

  /** The answer, sent or suppressed, is a positive ECUReset. */
  predicate ReportsReset(e: Ecu, t: Timed) {
    t.action.Request? && var b := Answer(e, t).bytes; |b| == 2 && b[0] == 0x51
  }

  /** The answer, sent or suppressed, is a positive sendKey. */
  predicate ReportsKey(e: Ecu, t: Timed) {
    t.action.Request? && Answer(e, t).bytes == [0x67, 0x02]
  }

  lemma {:induction false} OtherServicesSayNothing(e: Ecu, t: Timed)
    requires t.action.Request? ==> |t.action.req| == 0 || t.action.req[0] != SID_SECURITY_ACCESS
    ensures !ReportsFailure(e, t) && !ReportsKey(e, t)
    ensures ReportsReset(e, t) <==> SecActOf(e, t).act.ResetAll?
  {
  }

  /** What service 27 answers when the request is not a well-formed 27 02. */
  lemma {:induction false} NoKeyNoVerdict(e: Ecu, t: Timed)
    requires t.action.Request? && |t.action.req| >= 1 && t.action.req[0] == SID_SECURITY_ACCESS
    requires !SecActOf(e, t).act.TryKey?
    ensures var b := SecurityAccess(e, t.action.req, t.now, t.action.entropy).bytes;
            || |b| == 6
            || (|b| == 3 && b[0] == NEGATIVE && b[2] != Security.NRC_INVALID_KEY && b[2] != Security.NRC_EXCEEDED_ATTEMPTS)
  {
    var req := t.action.req;
    if |req| == 2 && Extended(e) && Sub(req[1]) % 2 == 1 {
      SeedReplyShape(e, req, t.now, t.action.entropy);
    } else {
      assert |req| == 6 && Extended(e) && Sub(req[1]) % 2 == 0 ==> Sub(req[1]) != 2;
      OtherRefused(e, req, t.now, t.action.entropy);
    }
  }

  lemma {:induction false} OtherRefused(e: Ecu, req: seq<byte>, now: nat, entropy: Security.Entropy)
    requires |req| >= 1 && req[0] == SID_SECURITY_ACCESS
    requires !(|req| == 2 && Extended(e) && Sub(req[1]) % 2 == 1)
    requires !(|req| == 6 && Extended(e) && Sub(req[1]) == 2)
    ensures var b := SecurityAccess(e, req, now, entropy).bytes;
            |b| == 3 && b[0] == NEGATIVE && b[2] in {0x12, 0x13, 0x7F}
  {
    if |req| == 6 && Extended(e) && Sub(req[1]) % 2 == 0 {
      assert (Sub(req[1]) as int + 0xFF) % 0x100 != 1;
    }
  }

  lemma {:induction false} SeedReplyShape(e: Ecu, req: seq<byte>, now: nat, entropy: Security.Entropy)
    requires |req| == 2 && req[0] == SID_SECURITY_ACCESS && Extended(e) && Sub(req[1]) % 2 == 1
    ensures var b := SecurityAccess(e, req, now, entropy).bytes;
            |b| == 6 || (|b| == 3 && b[0] == NEGATIVE && (b[2] == 0x12 || b[2] == 0x37))
  {
  }

  lemma {:induction false} KeyVerdict(e: Ecu, t: Timed)
    requires SecurityRuns.SecInv(e.sec) && SecActOf(e, t).act.TryKey?
    ensures var b := SecurityAccess(e, t.action.req, t.now, t.action.entropy).bytes;
            if SecurityRuns.Accepted(e.sec, SecActOf(e, t)) then b == [0x67, 0x02]
            else |b| == 3 && b[..2] == [NEGATIVE, SID_SECURITY_ACCESS]
                 && (b[2] == Security.NRC_INVALID_KEY || b[2] == Security.NRC_EXCEEDED_ATTEMPTS
                     <==> SecurityRuns.Failed(e.sec, SecActOf(e, t)))
  {
    var req := t.action.req;
    assert Sub(req[1]) == 2;
    assert SecurityAccess(e, req, t.now, t.action.entropy).bytes ==
           match Security.SendKey(e.sec, 1, Read32(req[2..6]), t.now).1
           case KeyRefused(nrc) => [NEGATIVE, SID_SECURITY_ACCESS, nrc]
           case KeyAccepted => [0x67, 0x02];
  }

  lemma {:induction false} KeyAnswersVisible(e: Ecu, t: Timed)
    requires SecurityRuns.SecInv(e.sec) && t.action.Request? && |t.action.req| >= 1 && t.action.req[0] == SID_SECURITY_ACCESS
    ensures ReportsFailure(e, t) <==> SecurityRuns.Failed(e.sec, SecActOf(e, t))
    ensures ReportsKey(e, t) <==> SecurityRuns.Accepted(e.sec, SecActOf(e, t))
    ensures !ReportsReset(e, t)
  {
    assert Answer(e, t) == SecurityAccess(e, t.action.req, t.now, t.action.entropy);
    if SecActOf(e, t).act.TryKey? {
      KeyVerdict(e, t);
    } else {
      NoKeyNoVerdict(e, t);
    }
  }

  /** On the wire, NRC 35 and 36 mean a failed comparison, and only that. */
  lemma {:induction false} FailureVisible(e: Ecu, t: Timed)
    requires SecurityRuns.SecInv(e.sec)
    ensures ReportsFailure(e, t) <==> SecurityRuns.Failed(e.sec, SecActOf(e, t))
    ensures ReportsKey(e, t) <==> SecurityRuns.Accepted(e.sec, SecActOf(e, t))
    ensures ReportsReset(e, t) <==> SecActOf(e, t).act.ResetAll?
  {
    if t.action.Request? && |t.action.req| >= 1 && t.action.req[0] == SID_SECURITY_ACCESS {
      KeyAnswersVisible(e, t);
    } else {
      OtherServicesSayNothing(e, t);
    }
  }

  /** How many of the first `n` actions get an answer of this kind. */
  function CountReports(e0: Ecu, acts: seq<Timed>, n: nat, report: (Ecu, Timed) -> bool): nat
    requires n <= |acts|
  {
    if n == 0 then 0
    else CountReports(e0, acts, n - 1, report) + (if report(StateAt(e0, acts, n - 1), acts[n - 1]) then 1 else 0)
  }

  /** The security actions of the run, one for each action. */
  function SecTrace(e0: Ecu, acts: seq<Timed>): (r: seq<SecurityRuns.TimedAct>)
    ensures |r| == |acts| && forall k :: 0 <= k < |acts| ==> r[k].now == acts[k].now
  {
    seq(|acts|, k requires 0 <= k < |acts| => SecActOf(StateAt(e0, acts, k), acts[k]))
  }

  function SecStates(e0: Ecu, acts: seq<Timed>): seq<Security.Sec> {
    seq(|acts| + 1, k requires 0 <= k <= |acts| => StateAt(e0, acts, k).sec)
  }

  lemma {:induction false} TraceStep(e0: Ecu, acts: seq<Timed>, k: nat)
    requires k < |acts|
    ensures SecStates(e0, acts)[k + 1] == SecurityRuns.Step(SecStates(e0, acts)[k], SecTrace(e0, acts)[k])
  {
    SecurityFollows(StateAt(e0, acts, k), acts[k]);
  }

  /** The security state of the run is that of its trace. */
  lemma {:induction false} TraceFollows(e0: Ecu, acts: seq<Timed>, n: nat)
    requires n <= |acts|
    ensures StateAt(e0, acts, n).sec == SecurityRuns.SecAt(e0.sec, SecTrace(e0, acts), n)
  {
    var secs := SecStates(e0, acts);
    forall k | 0 <= k < |acts|
      ensures secs[k + 1] == SecurityRuns.Step(secs[k], SecTrace(e0, acts)[k])
    {
      TraceStep(e0, acts, k);
    }
    SecurityRuns.RunUnique(secs, SecTrace(e0, acts), n);
    assert secs[n] == StateAt(e0, acts, n).sec && secs[0] == e0.sec;
  }

  /** Action by action, the answers report what the trace does. */
  lemma {:induction false} ReportsStep(e0: Ecu, acts: seq<Timed>, k: nat)
    requires k < |acts| && EcuInv(e0)
    ensures var s, a := SecurityRuns.SecAt(e0.sec, SecTrace(e0, acts), k), SecTrace(e0, acts)[k];
            && ReportsFailure(StateAt(e0, acts, k), acts[k]) == SecurityRuns.Failed(s, a)
            && ReportsKey(StateAt(e0, acts, k), acts[k]) == SecurityRuns.Accepted(s, a)
            && ReportsReset(StateAt(e0, acts, k), acts[k]) == a.act.ResetAll?
  {
    ReachableInv(e0, acts, k);
    TraceFollows(e0, acts, k);
    FailureVisible(StateAt(e0, acts, k), acts[k]);
  }

  /** A count of reports is the count of the flags that say which actions get one. */
  lemma {:induction false} CountAgrees(e0: Ecu, acts: seq<Timed>, n: nat, report: (Ecu, Timed) -> bool, flags: seq<bool>)
    requires n <= |acts| == |flags|
    requires forall k :: 0 <= k < |acts| ==> flags[k] == report(StateAt(e0, acts, k), acts[k])
    ensures CountReports(e0, acts, n, report) == SecurityRuns.CountTrue(flags[..n])
  {
    if n > 0 {
      CountAgrees(e0, acts, n - 1, report, flags);
      NextPrefix(flags, n - 1);
      CountNext(e0, acts, n, report, flags);
    }
  }

  lemma {:induction false} CountNext(e0: Ecu, acts: seq<Timed>, n: nat, report: (Ecu, Timed) -> bool, flags: seq<bool>)
    requires 0 < n <= |acts| == |flags| && flags[n - 1] == report(StateAt(e0, acts, n - 1), acts[n - 1])
    ensures CountReports(e0, acts, n, report) == CountReports(e0, acts, n - 1, report) + if flags[n - 1] then 1 else 0
  {
  }

  lemma {:induction false} FailuresMatchTrace(e0: Ecu, acts: seq<Timed>)
    requires EcuInv(e0)
    ensures CountReports(e0, acts, |acts|, ReportsFailure) == SecurityRuns.CountFailed(e0.sec, SecTrace(e0, acts))
  {
    var trace := SecTrace(e0, acts);
    var flags := seq(|acts|, k requires 0 <= k < |acts| => ReportsFailure(StateAt(e0, acts, k), acts[k]));
    forall k | 0 <= k < |acts|
      ensures flags[k] == SecurityRuns.Failed(SecurityRuns.SecAt(e0.sec, trace, k), trace[k])
    {
      ReportsStep(e0, acts, k);
    }
    CountAgrees(e0, acts, |acts|, ReportsFailure, flags);
    SecurityRuns.FailedFlags(e0.sec, trace, |acts|, flags);
    assert trace[..|acts|] == trace;
  }

  lemma {:induction false} KeysMatchTrace(e0: Ecu, acts: seq<Timed>)
    requires EcuInv(e0)
    ensures CountReports(e0, acts, |acts|, ReportsKey) == SecurityRuns.CountAccepted(e0.sec, SecTrace(e0, acts))
  {
    var trace := SecTrace(e0, acts);
    var flags := seq(|acts|, k requires 0 <= k < |acts| => ReportsKey(StateAt(e0, acts, k), acts[k]));
    forall k | 0 <= k < |acts|
      ensures flags[k] == SecurityRuns.Accepted(SecurityRuns.SecAt(e0.sec, trace, k), trace[k])
    {
      ReportsStep(e0, acts, k);
    }
    CountAgrees(e0, acts, |acts|, ReportsKey, flags);
    SecurityRuns.AcceptedFlags(e0.sec, trace, |acts|, flags);
    assert trace[..|acts|] == trace;
  }

  lemma {:induction false} ResetsMatchTrace(e0: Ecu, acts: seq<Timed>)
    requires EcuInv(e0)
    ensures CountReports(e0, acts, |acts|, ReportsReset) == SecurityRuns.CountResets(SecTrace(e0, acts))
  {
    var trace := SecTrace(e0, acts);
    var flags := seq(|acts|, k requires 0 <= k < |acts| => ReportsReset(StateAt(e0, acts, k), acts[k]));
    forall k | 0 <= k < |acts|
      ensures flags[k] == trace[k].act.ResetAll?
    {
      ReportsStep(e0, acts, k);
    }
    CountAgrees(e0, acts, |acts|, ReportsReset, flags);
    SecurityRuns.ResetFlags(e0.sec, trace, |acts|, flags);
    assert trace[..|acts|] == trace;
  }

  /** Three failures more for each answer that is a positive reset, two more for each that is a positive sendKey. */
  function Forgiven(e: Ecu, acts: seq<Timed>): nat {
    3 * CountReports(e, acts, |acts|, ReportsReset) + 2 * CountReports(e, acts, |acts|, ReportsKey)
  }

  /**
   * Rate bound on the wire: whatever requests, polls and updates a 10 s window holds, at most three
   * answers are NRC 35 or 36, and as many more as the positive resets and keys among them forgive.
   */
  lemma {:induction false} WindowRate(e: Ecu, acts: seq<Timed>, from: nat)
    requires EcuInv(e)
    requires forall i :: 0 <= i < |acts| ==> from <= acts[i].now < from + 10000
    ensures CountReports(e, acts, |acts|, ReportsFailure) <= 3 + Forgiven(e, acts)
  {
    FailuresMatchTrace(e, acts);
    KeysMatchTrace(e, acts);
    ResetsMatchTrace(e, acts);
    SecurityRuns.AttemptRate(e.sec, SecTrace(e, acts), from);
  }

  /** A run of `duration` ms has at most 3 * (duration / 10000 + 1) of them, and as many more. */
  lemma {:induction false} LongRate(e0: Ecu, t0: nat, acts: seq<Timed>, duration: nat)
    requires EcuInv(e0) && Clocked(t0, acts)
    requires forall i :: 0 <= i < |acts| ==> acts[i].now <= t0 + duration
    ensures CountReports(e0, acts, |acts|, ReportsFailure) <= 3 * (duration / 10000 + 1) + Forgiven(e0, acts)
  {
    FailuresMatchTrace(e0, acts);
    KeysMatchTrace(e0, acts);
    ResetsMatchTrace(e0, acts);
    TraceMonotone(e0, t0, acts);
    SecurityRuns.LongRunRate(e0.sec, SecTrace(e0, acts), t0, duration);
  }

  lemma {:induction false} TraceMonotone(e0: Ecu, t0: nat, acts: seq<Timed>)
    requires Clocked(t0, acts)
    ensures SecurityRuns.Monotone(SecTrace(e0, acts))
  {
    var trace := SecTrace(e0, acts);
    forall i, j | 0 <= i < j < |trace|
      ensures trace[i].now <= trace[j].now
    {
      assert acts[i].now <= acts[j].now;
    }
  }

  /** Locked out, the ECU refuses every service 27 request, and 27 01 with NRC 37; it compares nothing. */
  ghost predicate RefusesAccess(e: Ecu, t: Timed)
    requires t.action.Request?
  {
    var r, req := Answer(e, t), t.action.req;
    && r.rc == 0 && r.ecu == e
    && |r.bytes| == 3 && r.bytes[..2] == [NEGATIVE, SID_SECURITY_ACCESS]
    && r.bytes[2] != Security.NRC_INVALID_KEY && r.bytes[2] != Security.NRC_EXCEEDED_ATTEMPTS
    && (Extended(e) && |req| == 2 && Sub(req[1]) == 1 ==> r.bytes[2] == Security.NRC_DELAY_NOT_EXPIRED)
  }

  lemma {:induction false} LockedOutAnswer(e: Ecu, t: Timed)
    requires Security.LockedOut(e.sec, t.now) && e.sec.unlocked == 0 && !e.sec.seedIssued
    requires t.action.Request? && |t.action.req| >= 1 && t.action.req[0] == SID_SECURITY_ACCESS
    ensures RefusesAccess(e, t)
  {
    var req := t.action.req;
    assert Answer(e, t) == SecurityAccess(e, req, t.now, t.action.entropy);
    if |req| >= 2 && Extended(e) {
      var sub := Sub(req[1]);
      if sub % 2 == 1 {
        var (sec, r) := Security.RequestSeed(e.sec, sub, t.now, t.action.entropy);
        assert sec == e.sec && r.SeedRefused?;
      } else if |req| == 6 {
        var level: byte := (sub as int + 0xFF) % 0x100;
        var (sec, r) := Security.SendKey(e.sec, level, Read32(req[2..6]), t.now);
        assert sec == e.sec && r.KeyRefused?;
      }
    }
  }

  lemma {:induction false} NotReported(e0: Ecu, acts: seq<Timed>, n: nat, report: (Ecu, Timed) -> bool, k: nat)
    requires k < n <= |acts| && CountReports(e0, acts, n, report) == 0
    ensures !report(StateAt(e0, acts, k), acts[k])
  {
    if k < n - 1 {
      NotReported(e0, acts, n - 1, report, k);
    }
  }

  /**
   * Until the end of a lock-out, and until a positive reset is answered, every answer of every run to
   * a service 27 request is a refusal that changes nothing.
   */
  lemma {:induction false} LockOutOnTheWire(e0: Ecu, acts: seq<Timed>, n: nat)
    requires n < |acts| && EcuInv(e0) && e0.sec.lockUntil != 0
    requires forall k :: 0 <= k <= n ==> acts[k].now < e0.sec.lockUntil
    requires CountReports(e0, acts, n, ReportsReset) == 0
    requires acts[n].action.Request? && |acts[n].action.req| >= 1 && acts[n].action.req[0] == SID_SECURITY_ACCESS
    ensures RefusesAccess(StateAt(e0, acts, n), acts[n])
  {
    var trace := SecTrace(e0, acts);
    forall k | 0 <= k < n
      ensures !trace[..n][k].act.ResetAll?
    {
      NotReported(e0, acts, n, ReportsReset, k);
      ReportsStep(e0, acts, k);
    }
    SecurityRuns.LockOutHolds(e0.sec, trace[..n]);
    TraceFollows(e0, acts, n);
    LockedOutAnswer(StateAt(e0, acts, n), acts[n]);
  }

  // ---------- where an unlock comes from ----------

  /** In every reachable state, being unlocked has one explanation: a completed key exchange, not revoked since. */
  lemma {:induction false} UnlockProvenance(e0: Ecu, acts: seq<Timed>, n: nat) returns (j: nat, i: nat, seed: word)
    requires n <= |acts| && EcuInv(e0) && e0.sec.unlocked == 0 && !e0.sec.seedIssued
    requires StateAt(e0, acts, n).sec.unlocked >= 1
    ensures SecurityRuns.KeyExchange(e0.sec, SecTrace(e0, acts), j, i, n, seed)
  {
    TraceFollows(e0, acts, n);
    j, i, seed := SecurityRuns.UnlockProvenance(e0.sec, SecTrace(e0, acts), n);
  }

  /** What the tester saw of the first half of a key exchange: 27 01 answered, in a non-default session, with the seed. */
  lemma {:induction false} SeedOnTheWire(e0: Ecu, acts: seq<Timed>, j: nat, n: nat, seed: word)
    requires n <= |acts| && EcuInv(e0) && SecurityRuns.SeedFromTo(e0.sec, SecTrace(e0, acts), j, n, seed)
    ensures Extended(StateAt(e0, acts, j)) && acts[j].action.Request?
    ensures Answer(StateAt(e0, acts, j), acts[j]).bytes == [0x67, 0x01] + Write32(seed)
  {
    ReachableInv(e0, acts, j);
    TraceFollows(e0, acts, j);
    SecurityRuns.SeedTaken(e0.sec, SecTrace(e0, acts), j, n, seed);
    SeedAnswer(StateAt(e0, acts, j), acts[j], seed);
  }

  lemma {:induction false} SeedAnswer(e: Ecu, t: Timed, seed: word)
    requires SecurityRuns.SecInv(e.sec) && SecActOf(e, t).act.AskSeed?
    requires var s := SecurityRuns.Step(e.sec, SecActOf(e, t)); s.seedIssued && s.pendingSeed == seed
    ensures t.action.Request? && Extended(e) && Answer(e, t).bytes == [0x67, 0x01] + Write32(seed)
  {
    assert Answer(e, t) == SecurityAccess(e, t.action.req, t.now, t.action.entropy);
    assert Security.RequestSeed(e.sec, 1, t.now, t.action.entropy).1 == Security.Granted(seed);
  }

  /** And of the second half: 27 02 with the key of that seed, answered positively in a non-default session. */
  lemma {:induction false} KeyOnTheWire(e0: Ecu, acts: seq<Timed>, j: nat, i: nat, n: nat, seed: word)
    requires n <= |acts| && EcuInv(e0) && SecurityRuns.KeyExchange(e0.sec, SecTrace(e0, acts), j, i, n, seed)
    ensures Extended(StateAt(e0, acts, i)) && acts[i].action.Request?
    ensures |acts[i].action.req| == 6 && Read32(acts[i].action.req[2..6]) == Security.KeyFor(seed)
    ensures Answer(StateAt(e0, acts, i), acts[i]).bytes == [0x67, 0x02]
  {
    ReachableInv(e0, acts, i);
    TraceFollows(e0, acts, i);
    SecurityRuns.PendingUntil(e0.sec, SecTrace(e0, acts), j, i, seed);
    KeyAnswer(StateAt(e0, acts, i), acts[i], seed);
  }

  lemma {:induction false} KeyAnswer(e: Ecu, t: Timed, seed: word)
    requires SecurityRuns.SecInv(e.sec) && e.sec.seedIssued && e.sec.pendingSeed == seed
    requires SecActOf(e, t).act == SecurityRuns.TryKey(Security.KeyFor(seed))
    ensures t.action.Request? && Extended(e)
    ensures |t.action.req| == 6 && Read32(t.action.req[2..6]) == Security.KeyFor(seed)
    ensures Answer(e, t).bytes == [0x67, 0x02]
  {
    KeyVerdict(e, t);
    assert Answer(e, t) == SecurityAccess(e, t.action.req, t.now, t.action.entropy);
  }

  // ---------- the owner name ----------

  /** The answer to a WriteDataByIdentifier request is positive. */
  predicate WriteAccepted(e: Ecu, t: Timed) {
    t.action.Request? && |t.action.req| >= 1 && t.action.req[0] == SID_WRITE_DID
    && Answer(e, t).bytes[0] != NEGATIVE
  }

  /** A write is accepted exactly for the owner DID, 1 to 32 bytes, in a non-default session, unlocked. */
  lemma {:induction false} WriteGated(e: Ecu, t: Timed)
    requires t.action.Request? && |t.action.req| >= 1 && t.action.req[0] == SID_WRITE_DID
    ensures WriteAccepted(e, t) <==>
            && 4 <= |t.action.req| <= 35
            && t.action.req[1..3] == [0xF2, 0x00]
            && Extended(e)
            && e.sec.unlocked >= 1
  {
    var req := t.action.req;
    if |req| >= 4 {
      assert Read16(req[1], req[2]) == OWNER_DID <==> req[1..3] == [0xF2, 0x00];
    }
  }

  /** The payload of the last accepted write among the first `n` actions, or the initial name. */
  function LastWritten(e0: Ecu, acts: seq<Timed>, n: nat): seq<byte>
    requires n <= |acts|
  {
    if n == 0 then e0.owner
    else if WriteAccepted(StateAt(e0, acts, n - 1), acts[n - 1]) && |acts[n - 1].action.req| >= 3
    then acts[n - 1].action.req[3..]
    else LastWritten(e0, acts, n - 1)
  }

  lemma {:induction false} OwnerStep(e: Ecu, t: Timed)
    ensures Next(e, t).owner == if WriteAccepted(e, t) && |t.action.req| >= 3 then t.action.req[3..] else e.owner
  {
    if t.action.Request? && |t.action.req| >= 1 {
      FrameByService(e, t.action.req, RESP_CAP, t.now, t.action.entropy);
    }
  }

  lemma {:induction false} OwnerFollowsHistory(e0: Ecu, acts: seq<Timed>, n: nat)
    requires n <= |acts|
    ensures StateAt(e0, acts, n).owner == LastWritten(e0, acts, n)
  {
    if n > 0 {
      OwnerFollowsHistory(e0, acts, n - 1);
      OwnerStep(StateAt(e0, acts, n - 1), acts[n - 1]);
    }
  }

  /** Reading the owner DID gives the last accepted name, whatever came in between. */
  lemma {:induction false} ReadBackOwner(t0: nat, acts: seq<Timed>, n: nat, t: Timed)
    requires n <= |acts| && t.action.Request? && t.action.req == [SID_READ_DID, 0xF2, 0x00]
    ensures Answer(StateAt(Boot(t0), acts, n), t).bytes == [0x62, 0xF2, 0x00] + LastWritten(Boot(t0), acts, n)
    ensures Answer(StateAt(Boot(t0), acts, n), t).rc == 0
  {
    OwnerFollowsHistory(Boot(t0), acts, n);
    ReachableInv(Boot(t0), acts, n);
    OwnerReadable(StateAt(Boot(t0), acts, n), t);
  }

  lemma {:induction false} OwnerReadable(e: Ecu, t: Timed)
    requires t.action.Request? && t.action.req == [SID_READ_DID, 0xF2, 0x00] && |e.owner| <= OWNER_CAP
    ensures Answer(e, t) == Reply(0, e, [0x62, 0xF2, 0x00] + e.owner)
  {
    assert Read16(0xF2, 0x00) == OWNER_DID;
  }

  lemma {:induction false} WriterOf(e0: Ecu, acts: seq<Timed>, n: nat) returns (w: nat)
    requires n <= |acts| && LastWritten(e0, acts, n) != e0.owner
    ensures w < n && WriteAccepted(StateAt(e0, acts, w), acts[w])
    ensures |acts[w].action.req| >= 3 && LastWritten(e0, acts, n) == acts[w].action.req[3..]
  {
    if WriteAccepted(StateAt(e0, acts, n - 1), acts[n - 1]) && |acts[n - 1].action.req| >= 3 {
      w := n - 1;
    } else {
      w := WriterOf(e0, acts, n - 1);
    }
  }

  /**
   * End to end: from any locked state, if the owner name has changed, some write was accepted, and
   * it was preceded by a completed key exchange that was still in force.
   */
  lemma {:induction false} ChangedNameWasAuthorised(e0: Ecu, acts: seq<Timed>, n: nat)
    returns (w: nat, j: nat, i: nat, seed: word)
    requires n <= |acts| && EcuInv(e0) && e0.sec.unlocked == 0 && !e0.sec.seedIssued
    requires StateAt(e0, acts, n).owner != e0.owner
    ensures w < n && WriteAccepted(StateAt(e0, acts, w), acts[w])
    ensures |acts[w].action.req| >= 3 && StateAt(e0, acts, n).owner == acts[w].action.req[3..]
    ensures SecurityRuns.KeyExchange(e0.sec, SecTrace(e0, acts), j, i, w, seed)
  {
    OwnerFollowsHistory(e0, acts, n);
    w := WriterOf(e0, acts, n);
    WriteGated(StateAt(e0, acts, w), acts[w]);
    j, i, seed := UnlockProvenance(e0, acts, w);
  }
}
