/**
 * Runs as the tester sees them: requests, octets of answers, and times. What the state is, what a
 * reset, a seed and a lock-out lead to, told from the answers alone.
 */
module TesterView {
  import opened Bytes
  import opened Runs
  import opened Uds
  import opened UdsProps
  import opened UdsWire
  import Security
  import SecurityRuns

  /** The octets of the answer, if the action is a request. */
  function BytesOf(e: Ecu, t: Timed): seq<byte> {
    if t.action.Request? then Answer(e, t).bytes else []
  }

  /** The octets of the answer to action `k`. */
  function AnswerAt(e0: Ecu, acts: seq<Timed>, k: nat): seq<byte>
    requires k < |acts|
  {
    BytesOf(StateAt(e0, acts, k), acts[k])
  }

  /** A poll, as the tester expects it: after more than 5000 ms of silence the session is over and security locked. */
  function ObservePoll(e: Ecu, now: nat): Ecu {
    if e.session != 1 && now - e.lastTp > 5000
    then e.(session := 1, lastTp := now, sec := e.sec.(unlocked := 0, seedIssued := false))
    else e
  }

  /** What the tester knows after one more action. */
  function ObserveNext(e: Ecu, t: Timed, b: seq<byte>): Ecu {
    match t.action
    case Request(req, _) => Observe(e, t.now, req, b)
    case Poll => ObservePoll(e, t.now)
    case Telemetry(engine) => e.(engine := engine)
  }

  /** What the tester knows after `n` actions, from the state at the beginning, the actions and the answers. */
  function Seen(e0: Ecu, acts: seq<Timed>, answers: seq<seq<byte>>, n: nat): Ecu
    requires n <= |acts| == |answers|
  {
    if n == 0 then e0 else ObserveNext(Seen(e0, acts, answers, n - 1), acts[n - 1], answers[n - 1])
  }

  ghost predicate AreAnswers(e0: Ecu, acts: seq<Timed>, answers: seq<seq<byte>>) {
    |answers| == |acts| && forall k {:trigger AnswerAt(e0, acts, k)} :: 0 <= k < |acts| ==> answers[k] == AnswerAt(e0, acts, k)
  }

  lemma {:induction false} AnswerIs(e0: Ecu, acts: seq<Timed>, answers: seq<seq<byte>>, k: nat)
    requires k < |acts| && AreAnswers(e0, acts, answers)
    ensures answers[k] == BytesOf(StateAt(e0, acts, k), acts[k])
  {
    assert answers[k] == AnswerAt(e0, acts, k);
  }

  lemma {:induction false} NextSeen(e: Ecu, t: Timed)
    requires t.action.Poll? ==> e.lastTp <= t.now < U64_RANGE
    ensures Next(e, t) == ObserveNext(e, t, BytesOf(e, t))
  {
    match t.action {
      case Request(req, entropy) =>
        if |req| >= 1 {
          Observed(e, req, RESP_CAP, t.now, entropy);
        }
      case Poll => PollExact(e, t.now);
      case Telemetry(_) =>
    }
  }

  /**
   * The answers tell everything: at every point of every run from power-up, the state is what a
   * tester computes from the requests, the octets of the answers, and the times.
   */
  lemma {:induction false} AnswersTellState(t0: nat, acts: seq<Timed>, answers: seq<seq<byte>>, n: nat)
    requires n <= |acts| && Clocked(t0, acts) && AreAnswers(Boot(t0), acts, answers)
    ensures StateAt(Boot(t0), acts, n) == Seen(Boot(t0), acts, answers, n)
  {
    if n > 0 {
      AnswersTellState(t0, acts, answers, n - 1);
      OneMoreSeen(t0, acts, answers, n - 1);
    }
  }

  lemma {:induction false} OneMoreSeen(t0: nat, acts: seq<Timed>, answers: seq<seq<byte>>, n: nat)
    requires n < |acts| && Clocked(t0, acts) && AreAnswers(Boot(t0), acts, answers)
    requires StateAt(Boot(t0), acts, n) == Seen(Boot(t0), acts, answers, n)
    ensures StateAt(Boot(t0), acts, n + 1) == Seen(Boot(t0), acts, answers, n + 1)
  {
    StampIsPast(t0, acts, n);
    AnswerIs(Boot(t0), acts, answers, n);
    NextSeen(StateAt(Boot(t0), acts, n), acts[n]);
    SeenStep(Boot(t0), acts, answers, n);
  }

  lemma {:induction false} SeenStep(e0: Ecu, acts: seq<Timed>, answers: seq<seq<byte>>, n: nat)
    requires n < |acts| == |answers| && StateAt(e0, acts, n) == Seen(e0, acts, answers, n)
    requires Next(StateAt(e0, acts, n), acts[n]) == ObserveNext(StateAt(e0, acts, n), acts[n], answers[n])
    ensures StateAt(e0, acts, n + 1) == Seen(e0, acts, answers, n + 1)
  {
  }

  lemma {:induction false} StampIsPast(t0: nat, acts: seq<Timed>, n: nat)
    requires n < |acts| && Clocked(t0, acts)
    ensures StateAt(Boot(t0), acts, n).lastTp <= acts[n].now < U64_RANGE
  {
    S3Invariant(t0, Boot(t0), acts, n);
    assert n > 0 ==> acts[n - 1].now <= acts[n].now;
  }

  /** At power-up: default session, locked, owner "ANONYMOUS", and two stored codes with status 29. */
  lemma {:induction false} AtPowerUp(now: nat)
    ensures var e := Boot(now);
            && e.session == 1 && e.lastTp == now
            && e.sec.unlocked == 0 && !e.sec.seedIssued && e.sec.fails == 0 && e.sec.lockUntil == 0
            && e.owner == [0x41, 0x4E, 0x4F, 0x4E, 0x59, 0x4D, 0x4F, 0x55, 0x53]
            && |e.dtcs| == 2 && IsRecord(e.dtcs[0], [0x03, 0x01, 0x00, 0x29]) && IsRecord(e.dtcs[1], [0x04, 0x20, 0x00, 0x29])
            && e.engine.rpm == 3200 && e.engine.speed == 0 && e.engine.coolant == 60
  {
    StaticValues();
  }

  // ---------- after a reset ----------

  predicate Cleared(s: Security.Sec) {
    s.unlocked == 0 && !s.seedIssued && s.fails == 0 && s.lockUntil == 0
  }

  predicate StartsWith(b: seq<byte>, x: byte) {
    |b| >= 1 && b[0] == x
  }

  /** The answer opens a session other than the default one. */
  predicate OpensSession(b: seq<byte>) {
    |b| >= 2 && b[0] == 0x50 && (b[1] == 0x02 || b[1] == 0x03)
  }

  /** The answer hands out a seed, or tells with zeros that there is nothing to unlock. */
  predicate HandsSeed(b: seq<byte>) {
    |b| == 6 && b[0] == 0x67
  }

  /** After a positive reset the session is the default one and nothing of the security state is left. */
  lemma {:induction false} ResetLeavesSession(e: Ecu, t: Timed)
    requires StartsWith(BytesOf(e, t), 0x51)
    ensures Next(e, t).session == 1 && Next(e, t).lastTp == t.now && Cleared(Next(e, t).sec)
  {
    NextSeen(e, t);
  }

  lemma {:induction false} DefaultStep(e: Ecu, t: Timed)
    requires EcuInv(e) && e.session == 1 && !OpensSession(BytesOf(e, t))
    ensures Next(e, t).session == 1
  {
    if t.action.Request? && |t.action.req| >= 1 {
      NextSeen(e, t);
      var req := t.action.req;
      RefusedExactly(e, req, RESP_CAP, t.now, t.action.entropy);
      if BytesOf(e, t)[0] == 0x50 {
        PositiveExact(e, req, RESP_CAP, t.now, t.action.entropy);
        SessionInRange(e, req, t.now, t.action.entropy);
      }
    }
  }

  lemma {:induction false} SessionInRange(e: Ecu, req: seq<byte>, now: nat, entropy: Security.Entropy)
    requires |req| >= 1 && StartsWith(Process(e, req, RESP_CAP, now, entropy).bytes, 0x50)
    ensures req[0] == 0x10 && |req| == 2 && 1 <= Low7(req[1]) <= 3
  {
  }

  /** The default session lasts until an answer opens another. */
  lemma {:induction false} StaysDefault(e0: Ecu, acts: seq<Timed>, i: nat, n: nat)
    requires i <= n <= |acts| && EcuInv(e0) && StateAt(e0, acts, i).session == 1
    requires forall k :: i <= k < n ==> !OpensSession(AnswerAt(e0, acts, k))
    ensures StateAt(e0, acts, n).session == 1
  {
    if n > i {
      StaysDefault(e0, acts, i, n - 1);
      assert !OpensSession(AnswerAt(e0, acts, n - 1));
      ReachableInv(e0, acts, n - 1);
      DefaultStep(StateAt(e0, acts, n - 1), acts[n - 1]);
    }
  }

  /** In the default session service 27 and a well-formed write are refused with NRC 7F. */
  lemma {:induction false} DefaultRefuses(e: Ecu, t: Timed)
    requires EcuInv(e) && e.session == 1 && t.action.Request? && |t.action.req| >= 2
    ensures t.action.req[0] == 0x27 ==> BytesOf(e, t) == [0x7F, 0x27, 0x7F]
    ensures 4 <= |t.action.req| && t.action.req[..3] == [0x2E, 0xF2, 0x00] ==> BytesOf(e, t) == [0x7F, 0x2E, 0x7F]
  {
    var req := t.action.req;
    if req[0] == 0x27 || (4 <= |req| && req[..3] == [0x2E, 0xF2, 0x00]) {
      RefusedExactly(e, req, RESP_CAP, t.now, t.action.entropy);
      assert |req| >= 3 ==> req[1..3] == req[..3][1..];
      Chain(Checks(e, req, RESP_CAP, t.now));
    }
  }

  /**
   * A reset leaves the session: after an answer 51, and until an answer 50 02 or 50 03, every
   * service 27 request and every well-formed write of the owner name gets NRC 7F.
   */
  lemma {:induction false} ResetShutsOut(e0: Ecu, acts: seq<Timed>, i: nat, n: nat)
    requires i < n < |acts| && EcuInv(e0) && StartsWith(AnswerAt(e0, acts, i), 0x51)
    requires forall k :: i < k < n ==> !OpensSession(AnswerAt(e0, acts, k))
    requires acts[n].action.Request? && |acts[n].action.req| >= 2
    ensures acts[n].action.req[0] == 0x27 ==> AnswerAt(e0, acts, n) == [0x7F, 0x27, 0x7F]
    ensures 4 <= |acts[n].action.req| && acts[n].action.req[..3] == [0x2E, 0xF2, 0x00] ==> AnswerAt(e0, acts, n) == [0x7F, 0x2E, 0x7F]
  {
    ResetLeavesSession(StateAt(e0, acts, i), acts[i]);
    StaysDefault(e0, acts, i + 1, n);
    ReachableInv(e0, acts, n);
    DefaultRefuses(StateAt(e0, acts, n), acts[n]);
  }

  /** Without a seed pending, nothing but a seed changes what is not cleared already. */
  lemma {:induction false} NoSeedStep(e: Ecu, t: Timed)
    requires EcuInv(e) && e.sec.unlocked == 0 && !e.sec.seedIssued
    requires !HandsSeed(BytesOf(e, t)) && !StartsWith(BytesOf(e, t), 0x51)
    ensures Next(e, t).sec == e.sec
  {
    if t.action.Request? && |t.action.req| >= 1 {
      NoSeedRequest(e, t);
    }
  }

  lemma {:induction false} NoSeedRequest(e: Ecu, t: Timed)
    requires EcuInv(e) && e.sec.unlocked == 0 && !e.sec.seedIssued && t.action.Request? && |t.action.req| >= 1
    requires !HandsSeed(BytesOf(e, t)) && !StartsWith(BytesOf(e, t), 0x51)
    ensures Next(e, t).sec == e.sec
  {
    var req, b := t.action.req, BytesOf(e, t);
    NextSeen(e, t);
    FrameByService(e, req, RESP_CAP, t.now, t.action.entropy);
    RefusedExactly(e, req, RESP_CAP, t.now, t.action.entropy);
    if req[0] == 0x27 {
      Chain(SecurityChecks(e, req, t.now));
      if b[0] != 0x7F {
        PositiveExact(e, req, RESP_CAP, t.now, t.action.entropy);
      }
    }
  }

  /** From a state with nothing unlocked and no seed pending, the security state stays until a seed or a reset. */
  lemma {:induction false} SecurityRests(e0: Ecu, acts: seq<Timed>, i: nat, n: nat)
    requires i <= n <= |acts| && EcuInv(e0)
    requires StateAt(e0, acts, i).sec.unlocked == 0 && !StateAt(e0, acts, i).sec.seedIssued
    requires forall k :: i <= k < n ==> !HandsSeed(AnswerAt(e0, acts, k)) && !StartsWith(AnswerAt(e0, acts, k), 0x51)
    ensures StateAt(e0, acts, n).sec == StateAt(e0, acts, i).sec
  {
    if n > i {
      SecurityRests(e0, acts, i, n - 1);
      assert !HandsSeed(AnswerAt(e0, acts, n - 1)) && !StartsWith(AnswerAt(e0, acts, n - 1), 0x51);
      ReachableInv(e0, acts, n - 1);
      NoSeedStep(StateAt(e0, acts, n - 1), acts[n - 1]);
    }
  }

  /** What 27 01 gets in a session while nothing is unlocked. */
  lemma {:induction false} AskedForSeed(e: Ecu, t: Timed)
    requires EcuInv(e) && InSession(e) && e.sec.unlocked == 0
    requires t.action.Request? && t.action.req == [0x27, 0x01]
    ensures var b := BytesOf(e, t);
            if t.now < e.sec.lockUntil then b == [0x7F, 0x27, 0x37]
            else |b| == 6 && b[..2] == [0x67, 0x01] && IsSeed(e, t.action.entropy, Word32(b[2..6])) && Word32(b[2..6]) != 0
  {
    RefusedExactly(e, t.action.req, RESP_CAP, t.now, t.action.entropy);
    Chain(SecurityChecks(e, t.action.req, t.now));
    if t.now >= e.sec.lockUntil {
      PositiveExact(e, t.action.req, RESP_CAP, t.now, t.action.entropy);
    }
  }

  /** A reset ends a lock-out: the first 27 01 of the next session gets a seed. */
  lemma {:induction false} ResetThenSeed(e0: Ecu, acts: seq<Timed>, i: nat, n: nat)
    requires i < n < |acts| && EcuInv(e0) && StartsWith(AnswerAt(e0, acts, i), 0x51)
    requires forall k :: i < k < n ==> !HandsSeed(AnswerAt(e0, acts, k)) && !StartsWith(AnswerAt(e0, acts, k), 0x51)
    requires InSession(StateAt(e0, acts, n)) && acts[n].action.Request? && acts[n].action.req == [0x27, 0x01]
    ensures var b := AnswerAt(e0, acts, n); |b| == 6 && b[..2] == [0x67, 0x01] && Word32(b[2..6]) != 0
  {
    ResetLeavesSession(StateAt(e0, acts, i), acts[i]);
    SecurityRests(e0, acts, i + 1, n);
    ReachableInv(e0, acts, n);
    AskedForSeed(StateAt(e0, acts, n), acts[n]);
  }

  // ---------- a lock-out and its end ----------

  lemma {:induction false} LockStarts(e: Ecu, t: Timed)
    requires EcuInv(e) && BytesOf(e, t) == [0x7F, 0x27, 0x36]
    ensures var s := Next(e, t).sec; s.lockUntil == t.now + 10000 && s.unlocked == 0 && !s.seedIssued
  {
    NextSeen(e, t);
    NegativeChangesNothing(e, t.action.req, RESP_CAP, t.now, t.action.entropy);
  }

  /**
   * A lock-out lasts exactly ten seconds: after an answer 7F 27 36 at time T, and until a seed or a
   * reset is answered, 27 01 in a session gets NRC 37 before T + 10000 and a seed from then on.
   */
  lemma {:induction false} LockOutExactly(e0: Ecu, acts: seq<Timed>, i: nat, n: nat)
    requires i < n < |acts| && EcuInv(e0) && AnswerAt(e0, acts, i) == [0x7F, 0x27, 0x36]
    requires forall k :: i < k < n ==> !HandsSeed(AnswerAt(e0, acts, k)) && !StartsWith(AnswerAt(e0, acts, k), 0x51)
    requires InSession(StateAt(e0, acts, n)) && acts[n].action.Request? && acts[n].action.req == [0x27, 0x01]
    ensures var b := AnswerAt(e0, acts, n);
            if acts[n].now < acts[i].now + 10000 then b == [0x7F, 0x27, 0x37]
            else |b| == 6 && b[..2] == [0x67, 0x01] && Word32(b[2..6]) != 0
  {
    ReachableInv(e0, acts, i);
    LockStarts(StateAt(e0, acts, i), acts[i]);
    SecurityRests(e0, acts, i + 1, n);
    ReachableInv(e0, acts, n);
    AskedForSeed(StateAt(e0, acts, n), acts[n]);
  }

  // ---------- which key unlocks ----------

  /** Nothing in the answer, and no poll, takes the pending seed away. */
  predicate SeedStays(e: Ecu, t: Timed) {
    var b := BytesOf(e, t);
    && !StartsWith(b, 0x51) && !StartsWith(b, 0x67)
    && !(|b| == 3 && b[..2] == [0x7F, 0x27] && (b[2] == 0x35 || b[2] == 0x36))
    && (t.action.Poll? ==> !(e.session != SESSION_DEFAULT && S3Expired(t.now, e.lastTp)))
  }

  lemma {:induction false} SeedStaysStep(e: Ecu, t: Timed)
    requires EcuInv(e) && SeedStays(e, t)
    ensures Next(e, t).sec == e.sec
  {
    if t.action.Request? && |t.action.req| >= 1 {
      NextSeen(e, t);
      ResponseDiscipline(e, t.action.req, RESP_CAP, t.now, t.action.entropy);
      FrameByService(e, t.action.req, RESP_CAP, t.now, t.action.entropy);
    }
  }

  lemma {:induction false} SeedHanded(e: Ecu, t: Timed)
    requires HandsSeed(BytesOf(e, t)) && Word32(BytesOf(e, t)[2..6]) != 0
    ensures Next(e, t).sec.seedIssued && Next(e, t).sec.pendingSeed == Word32(BytesOf(e, t)[2..6])
  {
    NextSeen(e, t);
  }

  /** Nothing between the actions `j` and `n` takes the seed away. */
  ghost predicate SeedKept(e0: Ecu, acts: seq<Timed>, j: nat, n: nat)
    requires n <= |acts|
  {
    forall k {:trigger SeedStays(StateAt(e0, acts, k), acts[k])} :: j < k < n ==> SeedStays(StateAt(e0, acts, k), acts[k])
  }

  lemma {:induction false} SeedStaysAt(e0: Ecu, acts: seq<Timed>, j: nat, k: nat, n: nat)
    requires j < k < n <= |acts| && SeedKept(e0, acts, j, n)
    requires EcuInv(e0)
    ensures StateAt(e0, acts, k + 1).sec == StateAt(e0, acts, k).sec
  {
    assert SeedStays(StateAt(e0, acts, k), acts[k]);
    ReachableInv(e0, acts, k);
    SeedStaysStep(StateAt(e0, acts, k), acts[k]);
  }

  lemma {:induction false} SeedWaits(e0: Ecu, acts: seq<Timed>, j: nat, k: nat, n: nat)
    requires j < k <= n <= |acts| && EcuInv(e0) && SeedKept(e0, acts, j, n)
    ensures StateAt(e0, acts, k).sec == StateAt(e0, acts, j + 1).sec
  {
    if k > j + 1 {
      SeedWaits(e0, acts, j, k - 1, n);
      SeedStaysAt(e0, acts, j, k - 1, n);
    }
  }

  lemma {:induction false} SeedPendingAt(e0: Ecu, acts: seq<Timed>, j: nat, n: nat)
    requires j < n <= |acts| && HandsSeed(AnswerAt(e0, acts, j)) && Word32(AnswerAt(e0, acts, j)[2..6]) != 0
    requires StateAt(e0, acts, n).sec == StateAt(e0, acts, j + 1).sec
    ensures var s := StateAt(e0, acts, n).sec; s.seedIssued && s.pendingSeed == Word32(AnswerAt(e0, acts, j)[2..6])
  {
    SeedHanded(StateAt(e0, acts, j), acts[j]);
  }

  /**
   * Which key unlocks, on the wire: after a seed has been answered and nothing has taken it away, a
   * key is answered 67 02 exactly if its bits are those of the seed with the bits of DEADBEEF flipped.
   */
  lemma {:induction false} KeyDecides(e0: Ecu, acts: seq<Timed>, j: nat, n: nat)
    requires j < n < |acts| && EcuInv(e0) && HandsSeed(AnswerAt(e0, acts, j)) && Word32(AnswerAt(e0, acts, j)[2..6]) != 0
    requires SeedKept(e0, acts, j, n)
    requires InSession(StateAt(e0, acts, n)) && acts[n].action.Request?
    requires var req := acts[n].action.req; |req| == 6 && req[0] == 0x27 && Low7(req[1]) == 2
    ensures AnswerAt(e0, acts, n) == [0x67, 0x02] <==>
            Security.KeyFits(Word32(AnswerAt(e0, acts, j)[2..6]), Word32(acts[n].action.req[2..6]))
  {
    SeedWaits(e0, acts, j, n, n);
    SeedPendingAt(e0, acts, j, n);
    ReachableInv(e0, acts, n);
    KeyVerdictOnWire(StateAt(e0, acts, n), acts[n]);
  }

  lemma {:induction false} KeyVerdictOnWire(e: Ecu, t: Timed)
    requires EcuInv(e) && InSession(e) && e.sec.seedIssued && t.action.Request?
    requires |t.action.req| == 6 && t.action.req[0] == 0x27 && Low7(t.action.req[1]) == 2
    ensures BytesOf(e, t) == [0x67, 0x02] <==> Security.KeyFits(e.sec.pendingSeed, Word32(t.action.req[2..6]))
  {
    var req := t.action.req;
    RefusedExactly(e, req, RESP_CAP, t.now, t.action.entropy);
    Chain(SecurityChecks(e, req, t.now));
    if Security.KeyFits(e.sec.pendingSeed, Word32(req[2..6])) {
      PositiveExact(e, req, RESP_CAP, t.now, t.action.entropy);
    }
  }
}
