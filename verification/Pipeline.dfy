/**
 * threads.c: the receive thread, the bounded queue and the dispatch thread, interleaved in any way
 * with S3 polls, telemetry and shutdown. Each step is what one thread does between two points at
 * which another may run.
 */
module Pipeline {
  import opened Bytes
  import opened Queue
  import opened Runs
  import opened Sequences
  import Uds
  import UdsProps
  import Security

  /** Where the receive thread is: at the test of the stop flag, in the read, in the push, past the loop, or gone. */
  datatype RxPc = RxTop | Reading | Pushing(msg: Message) | RxLeaving | RxGone

  /** Where the dispatch thread is: at the test of the stop flag, in the pop, before the handler, or gone. */
  datatype DispPc = DispTop | Popping | Serving(msg: Message) | DispGone

  /** `received`, `dropped`, `log` and `sent` are the history of the run. */
  datatype Pipe = Pipe(
    rx: RxPc,
    q: Fifo,
    disp: DispPc,
    stop: bool,
    ecu: Uds.Ecu,
    received: seq<Message>,
    dropped: seq<Message>,
    log: seq<Timed>,
    sent: seq<Message>
  )

  function Start(e: Uds.Ecu): Pipe {
    Pipe(RxTop, EMPTY, DispTop, false, e, [], [], [], [])
  }

  datatype Step =
    | RxCheck                                             // tests the stop flag
    | RxRead(msg: Message)                                // a complete request comes in
    | RxRetry                                             // signal, receive timeout or empty message
    | RxFail                                              // read error
    | RxPush                                              // the push goes through or is refused
    | RxClose                                             // closes the queue and ends
    | DispCheck                                           // tests the stop flag
    | DispPop                                             // the pop goes through or is refused
    | DispServe(now: nat, entropy: Security.Entropy)      // handles the request and sends the answer
    | PollS3(now: nat)
    | UpdateEngine(now: nat, engine: Uds.Engine)
    | SignalStop                                          // the signal handler sets the flag
    | CloseQueue                                          // main has seen the flag and closes the queue

  datatype Thread = RxThread | DispThread | S3Thread | AppThread | MainThread

  function ThreadOf(s: Step): Thread {
    match s
    case RxCheck => RxThread
    case RxRead(_) => RxThread
    case RxRetry => RxThread
    case RxFail => RxThread
    case RxPush => RxThread
    case RxClose => RxThread
    case DispCheck => DispThread
    case DispPop => DispThread
    case DispServe(_, _) => DispThread
    case PollS3(_) => S3Thread
    case UpdateEngine(_, _) => AppThread
    case SignalStop => MainThread
    case CloseQueue => MainThread
  }

  predicate Enabled(p: Pipe, s: Step) {
    match s
    case RxCheck => p.rx == RxTop
    case RxRead(msg) => p.rx == Reading && Acceptable(msg)
    case RxRetry => p.rx == Reading
    case RxFail => p.rx == Reading
    case RxPush => p.rx.Pushing? && PushAttempt(p.q, p.rx.msg).0 != Waits
    case RxClose => p.rx == RxLeaving
    case DispCheck => p.disp == DispTop
    case DispPop => p.disp == Popping && PopAttempt(p.q).0 != Waits
    case DispServe(_, _) => p.disp.Serving?
    case CloseQueue => p.stop
    case _ => true
  }

  /** Applies a timed action to the ECU and notes it. */
  function Act(p: Pipe, t: Timed): Pipe {
    p.(ecu := Next(p.ecu, t), log := p.log + [t])
  }

  /** What the dispatch thread sends for a reply: nothing if suppressed, dropped or empty. */
  function Outgoing(r: Uds.Reply): seq<Message> {
    if r.rc < 0 || r.rc == 1 || r.bytes == [] then [] else [r.bytes]
  }

  function Do(p: Pipe, s: Step): Pipe
    requires Enabled(p, s)
  {
    match s
    case RxCheck => p.(rx := if p.stop then RxLeaving else Reading)
    case RxRead(msg) => p.(rx := Pushing(msg), received := p.received + [msg])
    case RxRetry => p.(rx := RxTop)
    case RxFail => p.(rx := RxLeaving)
    case RxPush =>
      var (r, q) := PushAttempt(p.q, p.rx.msg);
      if r == Succeeded then p.(q := q, rx := RxTop)
      else p.(rx := RxLeaving, dropped := [p.rx.msg])
    case RxClose => p.(rx := RxGone, q := p.q.(closed := true))
    case DispCheck => p.(disp := if p.stop then DispGone else Popping)
    case DispPop =>
      var (r, q) := PopAttempt(p.q);
      if r == Succeeded then p.(q := q, disp := Serving(p.q.items[0]))
      else p.(disp := DispGone)
    case DispServe(now, entropy) =>
      var t := At(now, Request(p.disp.msg, entropy));
      Act(p, t).(disp := DispTop, sent := p.sent + Outgoing(Answer(p.ecu, t)))
    case PollS3(now) => Act(p, At(now, Poll))
    case UpdateEngine(now, engine) => Act(p, At(now, Telemetry(engine)))
    case SignalStop => p.(stop := true)
    case CloseQueue => p.(q := p.q.(closed := true))
  }

  // ---------- the sequential server ----------

  /** The requests among the actions, in order. */
  function Requests(log: seq<Timed>): seq<Message> {
    if log == [] then []
    else
      var t := log[|log| - 1];
      Requests(log[..|log| - 1]) + (if t.action.Request? then [t.action.req] else [])
  }

  /** What one thread sends that handles the actions one after the other. */
  function Responses(e: Uds.Ecu, log: seq<Timed>): seq<Message> {
    if log == [] then []
    else
      var init, t := log[..|log| - 1], log[|log| - 1];
      Responses(e, init) + (if t.action.Request? then Outgoing(Answer(StateAt(e, init, |init|), t)) else [])
  }

  // ---------- the invariant ----------

  /** The message that the receive thread holds. */
  function RxHand(rx: RxPc): seq<Message> {
    if rx.Pushing? then [rx.msg] else []
  }

  /** The message that the dispatch thread holds. */
  function DispHand(disp: DispPc): seq<Message> {
    if disp.Serving? then [disp.msg] else []
  }

  /** What has been received and not been served: in hand, queued, in hand, or refused. */
  function Unserved(p: Pipe): seq<Message> {
    DispHand(p.disp) + p.q.items + RxHand(p.rx) + p.dropped
  }

  /** Who has left, and why. */
  ghost predicate Control(p: Pipe) {
    && |p.dropped| <= 1 && |p.q.items| <= CAP
    && (p.rx.Pushing? ==> Acceptable(p.rx.msg))
    && (p.rx == RxGone ==> p.q.closed)
    && (p.q.closed ==> p.stop || p.rx == RxGone)
    && (p.dropped != [] ==> p.stop && (p.rx == RxLeaving || p.rx == RxGone))
    && (p.disp == DispGone ==> p.stop || (p.q.closed && p.q.items == []))
  }

  /** The state reached and the responses sent are those of the sequential server. */
  ghost predicate History(e0: Uds.Ecu, log: seq<Timed>, ecu: Uds.Ecu, sent: seq<Message>) {
    ecu == StateAt(e0, log, |log|) && sent == Responses(e0, log)
  }

  ghost predicate Inv(e0: Uds.Ecu, p: Pipe) {
    && Control(p)
    && History(e0, p.log, p.ecu, p.sent)
    && p.received == Requests(p.log) + Unserved(p)
  }

  lemma {:induction false} StepKeepsControl(p: Pipe, s: Step)
    requires Control(p) && Enabled(p, s)
    ensures Control(Do(p, s))
  {
  }

  lemma {:induction false} StateAtPrefix(e0: Uds.Ecu, log: seq<Timed>, t: Timed, n: nat)
    requires n <= |log|
    ensures StateAt(e0, log + [t], n) == StateAt(e0, log, n)
  {
    if n > 0 {
      StateAtPrefix(e0, log, t, n - 1);
      assert (log + [t])[n - 1] == log[n - 1];
    }
  }

  lemma {:induction false} LogExtends(e0: Uds.Ecu, log: seq<Timed>, t: Timed)
    ensures var e := StateAt(e0, log, |log|);
            && StateAt(e0, log + [t], |log| + 1) == Next(e, t)
            && Requests(log + [t]) == Requests(log) + (if t.action.Request? then [t.action.req] else [])
            && Responses(e0, log + [t]) == Responses(e0, log) + (if t.action.Request? then Outgoing(Answer(e, t)) else [])
  {
    assert (log + [t])[..|log|] == log;
    StateAtPrefix(e0, log, t, |log|);
  }

  lemma {:induction false} HistoryExtends(e0: Uds.Ecu, log: seq<Timed>, ecu: Uds.Ecu, sent: seq<Message>, t: Timed)
    requires History(e0, log, ecu, sent)
    ensures History(e0, log + [t], Next(ecu, t), sent + (if t.action.Request? then Outgoing(Answer(ecu, t)) else []))
    ensures Requests(log + [t]) == Requests(log) + (if t.action.Request? then [t.action.req] else [])
  {
    LogExtends(e0, log, t);
  }

  lemma {:induction false} ServeKeepsInv(e0: Uds.Ecu, p: Pipe, now: nat, entropy: Security.Entropy)
    requires Inv(e0, p) && Enabled(p, DispServe(now, entropy))
    ensures Inv(e0, Do(p, DispServe(now, entropy)))
  {
    var t := At(now, Request(p.disp.msg, entropy));
    HistoryExtends(e0, p.log, p.ecu, p.sent, t);
    ServeTakesFirst(p, now, entropy);
    AppendAssoc(Requests(p.log), [t.action.req], Unserved(Do(p, DispServe(now, entropy))));
  }

  lemma {:induction false} ServeTakesFirst(p: Pipe, now: nat, entropy: Security.Entropy)
    requires Enabled(p, DispServe(now, entropy))
    ensures Unserved(p) == [p.disp.msg] + Unserved(Do(p, DispServe(now, entropy)))
  {
    assert [] + p.q.items == p.q.items;
    AppendAssoc([p.disp.msg], p.q.items, RxHand(p.rx));
    AppendAssoc([p.disp.msg], p.q.items + RxHand(p.rx), p.dropped);
  }

  lemma {:induction false} EnvironmentKeepsInv(e0: Uds.Ecu, p: Pipe, t: Timed)
    requires Inv(e0, p) && !t.action.Request?
    ensures Inv(e0, Act(p, t))
  {
    HistoryExtends(e0, p.log, p.ecu, p.sent, t);
    assert p.sent + [] == p.sent && Requests(p.log) + [] == Requests(p.log);
  }

  lemma {:induction false} RxReadKeepsInv(e0: Uds.Ecu, p: Pipe, msg: Message)
    requires Inv(e0, p) && Enabled(p, RxRead(msg))
    ensures Inv(e0, Do(p, RxRead(msg)))
  {
    assert p.dropped == [] && RxHand(p.rx) == [];
    assert Unserved(Do(p, RxRead(msg))) == Unserved(p) + [msg];
    AppendAssoc(Requests(p.log), Unserved(p), [msg]);
  }

  lemma {:induction false} RxPushKeepsInv(e0: Uds.Ecu, p: Pipe)
    requires Inv(e0, p) && Enabled(p, RxPush)
    ensures Inv(e0, Do(p, RxPush))
  {
    StepKeepsControl(p, RxPush);
    assert p.dropped == [];
    PushKeepsUnserved(p);
  }

  lemma {:induction false} PushKeepsUnserved(p: Pipe)
    requires Enabled(p, RxPush) && p.dropped == []
    ensures Unserved(Do(p, RxPush)) == Unserved(p)
  {
    AppendAssoc(DispHand(p.disp), p.q.items, [p.rx.msg]);
  }

  lemma {:induction false} DispPopKeepsInv(e0: Uds.Ecu, p: Pipe)
    requires Inv(e0, p) && Enabled(p, DispPop)
    ensures Inv(e0, Do(p, DispPop))
  {
    StepKeepsControl(p, DispPop);
    PopKeepsUnserved(p);
  }

  lemma {:induction false} PopKeepsUnserved(p: Pipe)
    requires Enabled(p, DispPop)
    ensures Unserved(Do(p, DispPop)) == Unserved(p)
  {
    if p.q.items != [] {
      assert [] + p.q.items == [p.q.items[0]] + p.q.items[1..];
    }
  }

  /** Every step of every thread keeps the invariant. */
  lemma {:induction false} StepKeepsInv(e0: Uds.Ecu, p: Pipe, s: Step)
    requires Inv(e0, p) && Enabled(p, s)
    ensures Inv(e0, Do(p, s))
  {
    match s {
      case RxRead(msg) => RxReadKeepsInv(e0, p, msg);
      case RxPush => RxPushKeepsInv(e0, p);
      case DispPop => DispPopKeepsInv(e0, p);
      case DispServe(now, entropy) => ServeKeepsInv(e0, p, now, entropy);
      case PollS3(now) => EnvironmentKeepsInv(e0, p, At(now, Poll));
      case UpdateEngine(now, engine) => EnvironmentKeepsInv(e0, p, At(now, Telemetry(engine)));
      case _ => StepKeepsControl(p, s);
    }
  }

  ghost predicate Steps(p: Pipe, steps: seq<Step>, p': Pipe)
    decreases |steps|
  {
    if steps == [] then p == p'
    else Enabled(p, steps[0]) && Steps(Do(p, steps[0]), steps[1..], p')
  }

  lemma {:induction false} StepsAppend(p: Pipe, steps: seq<Step>, p': Pipe, s: Step)
    requires Steps(p, steps, p') && Enabled(p', s)
    ensures Steps(p, steps + [s], Do(p', s))
    decreases |steps|
  {
    if steps != [] {
      StepsAppend(Do(p, steps[0]), steps[1..], p', s);
      assert (steps + [s])[1..] == steps[1..] + [s];
    }
  }

  lemma {:induction false} StepsKeepInv(e0: Uds.Ecu, p: Pipe, steps: seq<Step>, p': Pipe)
    requires Inv(e0, p) && Steps(p, steps, p')
    ensures Inv(e0, p')
    decreases |steps|
  {
    if steps != [] {
      StepKeepsInv(e0, p, steps[0]);
      StepsKeepInv(e0, Do(p, steps[0]), steps[1..], p');
    }
  }

  lemma {:induction false} UnservedIsBounded(served: seq<Message>, p: Pipe)
    requires Control(p)
    requires p.received == served + Unserved(p)
    ensures served <= p.received && |p.received| - |served| <= CAP + 2
    ensures p.rx == RxGone && p.disp == DispGone ==> p.received == served + p.q.items + p.dropped
    ensures p.disp == DispGone && !p.stop ==> p.rx == RxGone && p.received == served
  {
    if p.rx == RxGone && p.disp == DispGone {
      assert Unserved(p) == p.q.items + p.dropped;
      AppendAssoc(served, p.q.items, p.dropped);
    }
  }

  /**
   * Refinement: whatever the interleaving, what has been sent is what a sequential server sends that
   * handles a prefix of the received requests, once each and in order, and at most ten requests
   * are not served yet. When both threads have left, only what is still queued or was refused by the
   * closed queue is missing; when the dispatcher leaves without a stop, nothing is.
   */
  lemma {:induction false} RefinesSequentialServer(e0: Uds.Ecu, steps: seq<Step>, p: Pipe)
    requires Steps(Start(e0), steps, p)
    ensures p.sent == Responses(e0, p.log) && p.ecu == StateAt(e0, p.log, |p.log|)
    ensures Requests(p.log) <= p.received && |p.received| - |Requests(p.log)| <= 10
    ensures p.rx == RxGone && p.disp == DispGone ==> p.received == Requests(p.log) + p.q.items + p.dropped
    ensures p.disp == DispGone && !p.stop ==> p.rx == RxGone && p.received == Requests(p.log)
  {
    StepsKeepInv(e0, Start(e0), steps, p);
    UnservedIsBounded(Requests(p.log), p);
  }

  // ---------- shutdown ----------

  /** How many steps the receive thread may still take once the stop flag is up. */
  function RxLeft(rx: RxPc): nat {
    match rx
    case Reading => 4
    case Pushing(_) => 3
    case RxTop => 2
    case RxLeaving => 1
    case RxGone => 0
  }

  /** The same for the dispatch thread. */
  function DispLeft(disp: DispPc): nat {
    match disp
    case Popping => 3
    case Serving(_) => 2
    case DispTop => 1
    case DispGone => 0
  }

  /** The steps that the two threads take in a run. */
  function Turns(steps: seq<Step>): nat {
    if steps == [] then 0
    else (if ThreadOf(steps[0]) in {RxThread, DispThread} then 1 else 0) + Turns(steps[1..])
  }

  ghost predicate RxCanStep(p: Pipe) {
    exists s: Step :: ThreadOf(s) == RxThread && Enabled(p, s)
  }

  ghost predicate DispCanStep(p: Pipe) {
    exists s: Step :: ThreadOf(s) == DispThread && Enabled(p, s)
  }

  /** Only a full or an empty open queue keeps a running thread from its next step. */
  lemma {:induction false} CanStepExactly(p: Pipe)
    requires Control(p)
    ensures RxCanStep(p) <==> p.rx != RxGone && !(p.rx.Pushing? && !p.q.closed && |p.q.items| == CAP)
    ensures DispCanStep(p) <==> p.disp != DispGone && !(p.disp == Popping && !p.q.closed && p.q.items == [])
  {
    match p.rx {
      case RxTop => assert Enabled(p, RxCheck) && ThreadOf(RxCheck) == RxThread;
      case Reading => assert Enabled(p, RxRetry) && ThreadOf(RxRetry) == RxThread;
      case Pushing(_) => assert Enabled(p, RxPush) <==> PushAttempt(p.q, p.rx.msg).0 != Waits;
        assert ThreadOf(RxPush) == RxThread;
      case RxLeaving => assert Enabled(p, RxClose) && ThreadOf(RxClose) == RxThread;
      case RxGone =>
    }
    match p.disp {
      case DispTop => assert Enabled(p, DispCheck) && ThreadOf(DispCheck) == DispThread;
      case Popping => assert Enabled(p, DispPop) <==> PopAttempt(p.q).0 != Waits;
        assert ThreadOf(DispPop) == DispThread;
      case Serving(_) =>
        var serve := DispServe(0, Security.Unavailable);
        assert Enabled(p, serve) && ThreadOf(serve) == DispThread;
      case DispGone =>
    }
  }

  /**
   * Deadlock, exactly: in a reachable state nothing that runs can go on if and only if a stop came
   * while the receive thread waits on the full queue, and the dispatcher has left before the queue
   * was closed. The step that resolves it is then enabled: `main` closes the queue.
   */
  lemma {:induction false} DeadlockExactly(e0: Uds.Ecu, steps: seq<Step>, p: Pipe)
    requires Steps(Start(e0), steps, p)
    ensures (p.rx != RxGone || p.disp != DispGone) && !RxCanStep(p) && !DispCanStep(p)
            <==> p.rx.Pushing? && |p.q.items| == 8 && !p.q.closed && p.disp == DispGone
    ensures p.rx.Pushing? && !p.q.closed && p.disp == DispGone ==> Enabled(p, CloseQueue)
  {
    StepsKeepInv(e0, Start(e0), steps, p);
    CanStepExactly(p);
  }

  /** The receive thread has queued `ms`, and nobody else has done anything. */
  function Filled(e0: Uds.Ecu, ms: seq<Message>): Pipe {
    Start(e0).(q := Fifo(ms, false), received := ms)
  }

  function Fill(ms: seq<Message>): seq<Step> {
    if ms == [] then [] else Fill(ms[..|ms| - 1]) + [RxCheck] + [RxRead(ms[|ms| - 1])] + [RxPush]
  }

  lemma {:induction false} FillSteps(e0: Uds.Ecu, ms: seq<Message>)
    requires |ms| <= CAP && forall i :: 0 <= i < |ms| ==> Acceptable(ms[i])
    ensures Steps(Start(e0), Fill(ms), Filled(e0, ms))
  {
    if ms != [] {
      var init, m := ms[..|ms| - 1], ms[|ms| - 1];
      assert ms == init + [m];
      FillSteps(e0, init);
      var p := Filled(e0, init);
      StepsAppend(Start(e0), Fill(init), p, RxCheck);
      StepsAppend(Start(e0), Fill(init) + [RxCheck], Do(p, RxCheck), RxRead(m));
      StepsAppend(Start(e0), Fill(init) + [RxCheck] + [RxRead(m)], Do(Do(p, RxCheck), RxRead(m)), RxPush);
    }
  }

  lemma {:induction false} FillIsReceiving(ms: seq<Message>)
    ensures CloseQueue !in Fill(ms)
  {
    if ms != [] {
      FillIsReceiving(ms[..|ms| - 1]);
    }
  }

  /** Such a state is reached: eight requests are queued, and the stop comes while the ninth is read. */
  lemma {:induction false} DeadlockReached(e0: Uds.Ecu, ms: seq<Message>, m: Message) returns (steps: seq<Step>, p: Pipe)
    requires |ms| == 8 && Acceptable(m) && forall i :: 0 <= i < |ms| ==> Acceptable(ms[i])
    ensures Steps(Start(e0), steps, p) && CloseQueue !in steps
    ensures p.rx == Pushing(m) && !RxCanStep(p) && p.disp == DispGone && !DispCanStep(p)
  {
    FillSteps(e0, ms);
    FillIsReceiving(ms);
    steps, p := Fill(ms), Filled(e0, ms);
    var rest := [RxCheck, SignalStop, DispCheck, RxRead(m)];
    for i := 0 to 4
      invariant Steps(Start(e0), steps, p) && CloseQueue !in steps
      invariant p.stop == (i >= 2) && p.q == Fifo(ms, false) && p.dropped == []
      invariant p.rx == (if i == 0 then RxTop else if i < 4 then Reading else Pushing(m))
      invariant p.disp == if i < 3 then DispTop else DispGone
    {
      StepsAppend(Start(e0), steps, p, rest[i]);
      steps, p := steps + [rest[i]], Do(p, rest[i]);
    }
    CanStepExactly(p);
  }

  lemma {:induction false} StoppedStep(p: Pipe, s: Step)
    requires Control(p) && p.stop && Enabled(p, s)
    ensures var p' := Do(p, s);
            && p'.stop && (p.q.closed ==> p'.q.closed)
            && Turns([s]) + RxLeft(p'.rx) + DispLeft(p'.disp) <= RxLeft(p.rx) + DispLeft(p.disp)
  {
  }

  lemma {:induction false} StoppedRun(p: Pipe, steps: seq<Step>, p': Pipe)
    requires Control(p) && p.stop && Steps(p, steps, p')
    ensures Control(p') && p'.stop && (p.q.closed ==> p'.q.closed)
    ensures Turns(steps) + RxLeft(p'.rx) + DispLeft(p'.disp) <= RxLeft(p.rx) + DispLeft(p.disp)
    decreases |steps|
  {
    if steps != [] {
      StepKeepsControl(p, steps[0]);
      StoppedStep(p, steps[0]);
      StoppedRun(Do(p, steps[0]), steps[1..], p');
    }
  }

  /**
   * Shutdown makes progress: from any reachable state with the stop flag up, the two threads take at
   * most seven steps more, whatever else happens; and once the queue is closed as well, each of them
   * can take its next step at any time until it has left.
   */
  lemma {:induction false} ShutdownProgress(e0: Uds.Ecu, before: seq<Step>, p: Pipe, after: seq<Step>, p': Pipe)
    requires Steps(Start(e0), before, p) && p.stop && Steps(p, after, p')
    ensures Turns(after) + RxLeft(p'.rx) + DispLeft(p'.disp) <= RxLeft(p.rx) + DispLeft(p.disp) <= 7
    ensures p.q.closed ==> (p'.rx == RxGone || RxCanStep(p')) && (p'.disp == DispGone || DispCanStep(p'))
  {
    StepsKeepInv(e0, Start(e0), before, p);
    StoppedRun(p, after, p');
    CanStepExactly(p');
  }

  // ---------- what is sent for a request ----------

  /** The one case of silence: a positive answer of a service with sub-function whose request has bit 7 set. */
  predicate Silent(req: seq<byte>, b: seq<byte>) {
    |req| >= 2 && req[1] >= 0x80 && req[0] in {0x10, 0x11, 0x19, 0x27, 0x3E} && |b| >= 1 && b[0] != 0x7F
  }

  /** Action `k` is a request with an answer to send. */
  predicate Answered(e0: Uds.Ecu, log: seq<Timed>, k: nat)
    requires k < |log|
  {
    log[k].action.Request? && !Silent(log[k].action.req, Answer(StateAt(e0, log, k), log[k]).bytes)
  }

  function CountAnswered(e0: Uds.Ecu, log: seq<Timed>, n: nat): nat
    requires n <= |log|
  {
    if n == 0 then 0 else CountAnswered(e0, log, n - 1) + (if Answered(e0, log, n - 1) then 1 else 0)
  }

  function CountSilent(e0: Uds.Ecu, log: seq<Timed>, n: nat): nat
    requires n <= |log|
  {
    if n == 0 then 0
    else CountSilent(e0, log, n - 1) + (if log[n - 1].action.Request? && !Answered(e0, log, n - 1) then 1 else 0)
  }

  /** Each served request has its answer at its place in `sent`, byte for byte, except the silent ones; nothing else is sent. */
  ghost predicate SendsAll(e0: Uds.Ecu, log: seq<Timed>, sent: seq<Message>) {
    && |sent| == CountAnswered(e0, log, |log|)
    && |sent| + CountSilent(e0, log, |log|) == |Requests(log)|
    && forall k :: 0 <= k < |log| && Answered(e0, log, k) ==> Placed(e0, log, sent, k)
  }

  /** The answer to request `k` is in `sent`, after as many others as were answered before. */
  ghost predicate Placed(e0: Uds.Ecu, log: seq<Timed>, sent: seq<Message>, k: nat)
    requires k < |log| && log[k].action.Request?
  {
    var at := CountAnswered(e0, log, k);
    at < |sent| && sent[at] == Answer(StateAt(e0, log, k), log[k]).bytes
  }

  lemma {:induction false} OneAnswer(e: Uds.Ecu, t: Timed)
    requires EcuInv(e) && t.action.Request? && |t.action.req| >= 1
    ensures Outgoing(Answer(e, t)) == if Silent(t.action.req, Answer(e, t).bytes) then [] else [Answer(e, t).bytes]
  {
    UdsProps.ResponseDiscipline(e, t.action.req, RESP_CAP, t.now, t.action.entropy);
  }

  lemma {:induction false} CountsPrefix(e0: Uds.Ecu, log: seq<Timed>, t: Timed, n: nat)
    requires n <= |log|
    ensures CountAnswered(e0, log + [t], n) == CountAnswered(e0, log, n)
    ensures CountSilent(e0, log + [t], n) == CountSilent(e0, log, n)
    ensures n < |log| ==> (Answered(e0, log + [t], n) <==> Answered(e0, log, n))
  {
    if n < |log| {
      AnsweredPrefix(e0, log, t, n);
    }
    if n > 0 {
      CountsPrefix(e0, log, t, n - 1);
      AnsweredPrefix(e0, log, t, n - 1);
    }
  }

  lemma {:induction false} AnsweredPrefix(e0: Uds.Ecu, log: seq<Timed>, t: Timed, k: nat)
    requires k < |log|
    ensures (log + [t])[k] == log[k] && StateAt(e0, log + [t], k) == StateAt(e0, log, k)
    ensures Answered(e0, log + [t], k) <==> Answered(e0, log, k)
  {
    StateAtPrefix(e0, log, t, k);
  }

  lemma {:induction false} CountGrows(e0: Uds.Ecu, log: seq<Timed>, k: nat, n: nat)
    requires k < n <= |log| && Answered(e0, log, k)
    ensures CountAnswered(e0, log, k) < CountAnswered(e0, log, n)
  {
    if k < n - 1 {
      CountGrows(e0, log, k, n - 1);
    }
  }

  /** What goes out for one action. */
  function OutFor(e: Uds.Ecu, t: Timed): seq<Message> {
    if t.action.Request? && !Silent(t.action.req, Answer(e, t).bytes) then [Answer(e, t).bytes] else []
  }

  lemma {:induction false} CountsExtend(e0: Uds.Ecu, log: seq<Timed>, t: Timed)
    ensures var n, log', out := |log|, log + [t], OutFor(StateAt(e0, log, |log|), t);
            && (Answered(e0, log', n) <==> out != [])
            && (out != [] ==> out == [Answer(StateAt(e0, log', n), log'[n]).bytes])
            && CountAnswered(e0, log', n) == CountAnswered(e0, log, n)
            && CountAnswered(e0, log', n + 1) == CountAnswered(e0, log, n) + |out|
            && CountSilent(e0, log', n + 1) + |out| == CountSilent(e0, log, n) + (if t.action.Request? then 1 else 0)
            && |Requests(log')| == |Requests(log)| + (if t.action.Request? then 1 else 0)
  {
    StateAtPrefix(e0, log, t, |log|);
    CountsPrefix(e0, log, t, |log|);
    LogExtends(e0, log, t);
  }

  /** One action more, and what is sent for it. */
  lemma {:induction false} SendsOneMore(e0: Uds.Ecu, log: seq<Timed>, sent: seq<Message>, t: Timed, out: seq<Message>)
    requires SendsAll(e0, log, sent) && out == OutFor(StateAt(e0, log, |log|), t)
    ensures SendsAll(e0, log + [t], sent + out)
  {
    AllPlaced(e0, log, sent, t, out);
    CountsExtend(e0, log, t);
  }

  lemma {:induction false} AllPlaced(e0: Uds.Ecu, log: seq<Timed>, sent: seq<Message>, t: Timed, out: seq<Message>)
    requires SendsAll(e0, log, sent) && out == OutFor(StateAt(e0, log, |log|), t)
    ensures forall k :: 0 <= k <= |log| && Answered(e0, log + [t], k) ==> Placed(e0, log + [t], sent + out, k)
  {
    forall k | 0 <= k <= |log| && Answered(e0, log + [t], k)
      ensures Placed(e0, log + [t], sent + out, k)
    {
      PlacedOneMore(e0, log, sent, t, out, k);
    }
  }

  lemma {:induction false} PlacedOneMore(e0: Uds.Ecu, log: seq<Timed>, sent: seq<Message>, t: Timed, out: seq<Message>, k: nat)
    requires SendsAll(e0, log, sent) && out == OutFor(StateAt(e0, log, |log|), t)
    requires k <= |log| && Answered(e0, log + [t], k)
    ensures Placed(e0, log + [t], sent + out, k)
  {
    if k < |log| {
      EarlierSent(e0, log, sent, t, out, k);
    } else {
      CountsExtend(e0, log, t);
      LastSent(e0, log, sent, t, out);
    }
  }

  lemma {:induction false} EarlierSent(e0: Uds.Ecu, log: seq<Timed>, sent: seq<Message>, t: Timed, out: seq<Message>, k: nat)
    requires SendsAll(e0, log, sent) && k < |log| && Answered(e0, log + [t], k)
    ensures (log + [t])[k].action.Request? && Placed(e0, log + [t], sent + out, k)
  {
    AnsweredPrefix(e0, log, t, k);
    CountsPrefix(e0, log, t, k);
    assert Placed(e0, log, sent, k);
  }

  lemma {:induction false} LastSent(e0: Uds.Ecu, log: seq<Timed>, sent: seq<Message>, t: Timed, out: seq<Message>)
    requires |sent| == CountAnswered(e0, log, |log|) && out == OutFor(StateAt(e0, log, |log|), t) && out != []
    ensures Placed(e0, log + [t], sent + out, |log|)
  {
    CountsExtend(e0, log, t);
  }

  lemma {:induction false} ResponsesExact(e0: Uds.Ecu, log: seq<Timed>)
    requires EcuInv(e0) && forall k :: 0 <= k < |log| && log[k].action.Request? ==> |log[k].action.req| >= 1
    ensures SendsAll(e0, log, Responses(e0, log))
  {
    if log != [] {
      var n := |log| - 1;
      var init, t := log[..n], log[n];
      LastOf(log);
      ResponsesExact(e0, init);
      ReachableInv(e0, init, n);
      LogExtends(e0, init, t);
      SendsOneMore(e0, init, Responses(e0, init), t, OutFor(StateAt(e0, init, n), t));
      if t.action.Request? {
        OneAnswer(StateAt(e0, init, n), t);
      }
    }
  }

  lemma {:induction false} OnlyAcceptable(p: Pipe, steps: seq<Step>, p': Pipe)
    requires Steps(p, steps, p') && forall i :: 0 <= i < |p.received| ==> Acceptable(p.received[i])
    ensures forall i :: 0 <= i < |p'.received| ==> Acceptable(p'.received[i])
    decreases |steps|
  {
    if steps != [] {
      OnlyAcceptable(Do(p, steps[0]), steps[1..], p');
    }
  }

  lemma {:induction false} RequestListed(log: seq<Timed>, k: nat) returns (m: nat)
    requires k < |log| && log[k].action.Request?
    ensures m < |Requests(log)| && Requests(log)[m] == log[k].action.req
  {
    if k == |log| - 1 {
      m := |Requests(log)| - 1;
    } else {
      m := RequestListed(log[..|log| - 1], k);
    }
  }

  /**
   * What is sent, in every interleaving: the answers of the served requests, byte for byte and in
   * order. Negative ones always; positive ones unless bit 7 of a sub-function suppresses them.
   */
  lemma {:induction false} SentExactly(e0: Uds.Ecu, steps: seq<Step>, p: Pipe)
    requires EcuInv(e0) && Steps(Start(e0), steps, p)
    ensures SendsAll(e0, p.log, p.sent)
  {
    RefinesSequentialServer(e0, steps, p);
    OnlyAcceptable(Start(e0), steps, p);
    forall k | 0 <= k < |p.log| && p.log[k].action.Request?
      ensures |p.log[k].action.req| >= 1
    {
      var m := RequestListed(p.log, k);
      assert p.received[m] == p.log[k].action.req;
    }
    ResponsesExact(e0, p.log);
  }

  /** A response is never too long or too short for the transport. */
  lemma {:induction false} ResponsesFit(e0: Uds.Ecu, log: seq<Timed>)
    requires EcuInv(e0)
    ensures forall i :: 0 <= i < |Responses(e0, log)| ==> 1 <= |Responses(e0, log)[i]| <= 67
  {
    if log != [] {
      var init, t := log[..|log| - 1], log[|log| - 1];
      ResponsesFit(e0, init);
      ReachableInv(e0, init, |init|);
      if t.action.Request? && |t.action.req| >= 1 {
        UdsProps.ResponseDiscipline(StateAt(e0, init, |init|), t.action.req, RESP_CAP, t.now, t.action.entropy);
      }
    }
  }
}
