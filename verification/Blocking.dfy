/**
 * The blocking push and pop of the two threads, made by the mutex and the condition variables: one
 * producer and one consumer on the monitor, beside everything else the threads do. The runs of
 * `Pipeline` are exactly what is left of such runs when the waits and wakeups are taken out.
 */
module Blocking {
  import opened Queue
  import Monitor
  import Pipeline
  import Uds

  /** The producer is the receive thread, the consumer the dispatch thread. */
  const RX: Monitor.Tid := 0
  const DISP: Monitor.Tid := 1

  datatype System = System(p: Pipeline.Pipe, m: Monitor.Mon)

  function Start(e0: Uds.Ecu): System {
    System(Pipeline.Start(e0), Monitor.START)
  }

  datatype Step =
    | Other(s: Pipeline.Step)         // anything but a push or a pop
    | Push(wake: set<Monitor.Tid>)    // one pass of the push of the receive thread, first or after a wakeup
    | Pop(wake: set<Monitor.Tid>)     // the same for the pop of the dispatch thread
    | Spurious(t: Monitor.Tid)        // a wakeup for no reason

  /** What the step does on the monitor. */
  function OnMonitor(c: System, u: Step): seq<Monitor.Step> {
    match u
    case Other(s) => if s.RxClose? || s.CloseQueue? then [Monitor.Shutdown] else []
    case Push(wake) =>
      if RX in c.m.wokenFull then [Monitor.PushAgain(RX, wake)]
      else if c.p.rx.Pushing? then [Monitor.PushCall(RX, c.p.rx.msg, wake)] else []
    case Pop(wake) => if DISP in c.m.wokenEmpty then [Monitor.PopAgain(DISP, wake)] else [Monitor.PopCall(DISP, wake)]
    case Spurious(t) => if t in c.m.waitFull then [Monitor.SpuriousProducer(t)] else [Monitor.SpuriousConsumer(t)]
  }

  /** What it does in the pipeline: nothing if it is a pass that ends in a wait, or a wakeup. */
  function InPipeline(c: System, u: Step): seq<Pipeline.Step> {
    match u
    case Other(s) => [s]
    case Push(_) => if Pipeline.Enabled(c.p, Pipeline.RxPush) then [Pipeline.RxPush] else []
    case Pop(_) => if Pipeline.Enabled(c.p, Pipeline.DispPop) then [Pipeline.DispPop] else []
    case Spurious(_) => []
  }

  predicate Enabled(c: System, u: Step) {
    && (match u
        case Other(s) => !s.RxPush? && !s.DispPop? && Pipeline.Enabled(c.p, s)
        case Push(_) => c.p.rx.Pushing?
        case Pop(_) => c.p.disp == Pipeline.Popping
        case Spurious(_) => true)
    && forall i :: 0 <= i < |OnMonitor(c, u)| ==> Monitor.Enabled(c.m, OnMonitor(c, u)[i])
  }

  function Do(c: System, u: Step): System
    requires Enabled(c, u)
  {
    var pipeline, monitor := InPipeline(c, u), OnMonitor(c, u);
    System(if pipeline == [] then c.p else Pipeline.Do(c.p, pipeline[0]),
           if monitor == [] then c.m else Monitor.Do(c.m, monitor[0]))
  }

  /** One queue, and each of the two threads waits, asleep or woken, only in its own call. */
  ghost predicate Linked(c: System) {
    && c.m.q == c.p.q
    && Monitor.Inv(c.m)
    && c.m.waitFull + c.m.wokenFull <= {RX}
    && c.m.waitEmpty + c.m.wokenEmpty <= {DISP}
    && (c.m.waitFull + c.m.wokenFull != {} ==> c.p.rx == Pipeline.Pushing(c.m.pending[RX]))
    && (c.m.waitEmpty + c.m.wokenEmpty != {} ==> c.p.disp == Pipeline.Popping)
  }

  lemma {:induction false} MonitorKeepsInv(c: System, u: Step)
    requires Monitor.Inv(c.m) && Enabled(c, u)
    ensures Monitor.Inv(Do(c, u).m)
  {
    var steps := OnMonitor(c, u);
    if steps != [] {
      assert Monitor.Enabled(c.m, steps[0]);
      Monitor.StepKeepsInv(c.m, steps[0]);
    }
  }

  lemma {:induction false} OtherKeepsLinked(c: System, s: Pipeline.Step)
    requires Linked(c) && Enabled(c, Other(s))
    ensures Linked(Do(c, Other(s)))
  {
    MonitorKeepsInv(c, Other(s));
  }

  /** Waking moves threads from the sleeping to the woken ones. */
  lemma {:induction false} WakeMoves(wake: set<Monitor.Tid>, waiters: set<Monitor.Tid>, woken: set<Monitor.Tid>)
    requires wake <= waiters
    ensures (waiters - wake) + (woken + wake) == waiters + woken
  {
  }

  /** The monitor with the thread awake, as it makes its pass of the push. */
  function AwakeToPush(m: Monitor.Mon): Monitor.Mon {
    if RX in m.wokenFull then m.(wokenFull := m.wokenFull - {RX}) else m
  }

  lemma {:induction false} PushIsPass(c: System, wake: set<Monitor.Tid>)
    requires Linked(c) && Enabled(c, Push(wake))
    ensures var m := AwakeToPush(c.m);
            && m.waitFull == {} && m.wokenFull == {} && Monitor.Signals(wake, m.waitEmpty)
            && Do(c, Push(wake)).m == Monitor.PushPass(m, RX, c.p.rx.msg, wake)
  {
    assert Monitor.Enabled(c.m, OnMonitor(c, Push(wake))[0]);
    assert RX !in c.m.waitFull;
    assert c.m.waitFull <= c.m.waitFull + c.m.wokenFull && c.m.wokenFull <= c.m.waitFull + c.m.wokenFull;
    assert RX in c.m.wokenFull ==> c.m.waitFull + c.m.wokenFull != {};
  }

  lemma {:induction false} PushPassWaits(m: Monitor.Mon, data: Message, wake: set<Monitor.Tid>)
    requires m.waitFull == {} && m.wokenFull == {} && Monitor.Signals(wake, m.waitEmpty)
    ensures var (r, q) := PushAttempt(m.q, data);
            var m' := Monitor.PushPass(m, RX, data, wake);
            && m'.q == q && m'.wokenFull == {}
            && (if r == Waits then m'.waitFull == {RX} && m'.pending == m.pending[RX := data] else m'.waitFull == {})
            && m'.waitEmpty + m'.wokenEmpty == m.waitEmpty + m.wokenEmpty
  {
    WakeMoves(wake, m.waitEmpty, m.wokenEmpty);
  }

  lemma {:induction false} PushKeepsLinked(c: System, wake: set<Monitor.Tid>)
    requires Linked(c) && Enabled(c, Push(wake))
    ensures Linked(Do(c, Push(wake)))
  {
    MonitorKeepsInv(c, Push(wake));
    StepIsPipeline(c, Push(wake));
    PushIsPass(c, wake);
    PushPassWaits(AwakeToPush(c.m), c.p.rx.msg, wake);
  }

  function AwakeToPop(m: Monitor.Mon): Monitor.Mon {
    if DISP in m.wokenEmpty then m.(wokenEmpty := m.wokenEmpty - {DISP}) else m
  }

  lemma {:induction false} PopIsPass(c: System, wake: set<Monitor.Tid>)
    requires Linked(c) && Enabled(c, Pop(wake))
    ensures var m := AwakeToPop(c.m);
            && m.waitEmpty == {} && m.wokenEmpty == {} && Monitor.Signals(wake, m.waitFull)
            && Do(c, Pop(wake)).m == Monitor.PopPass(m, DISP, wake)
  {
    assert Monitor.Enabled(c.m, OnMonitor(c, Pop(wake))[0]);
    assert DISP !in c.m.waitEmpty;
    assert c.m.waitEmpty <= c.m.waitEmpty + c.m.wokenEmpty && c.m.wokenEmpty <= c.m.waitEmpty + c.m.wokenEmpty;
  }

  lemma {:induction false} PopPassWaits(m: Monitor.Mon, wake: set<Monitor.Tid>)
    requires m.waitEmpty == {} && m.wokenEmpty == {} && Monitor.Signals(wake, m.waitFull)
    ensures var (r, q) := PopAttempt(m.q);
            var m' := Monitor.PopPass(m, DISP, wake);
            && m'.q == q && m'.pending == m.pending
            && m'.waitEmpty + m'.wokenEmpty == (if r == Waits then {DISP} else {})
            && m'.waitFull + m'.wokenFull == m.waitFull + m.wokenFull
  {
    WakeMoves(wake, m.waitFull, m.wokenFull);
  }

  lemma {:induction false} PopKeepsLinked(c: System, wake: set<Monitor.Tid>)
    requires Linked(c) && Enabled(c, Pop(wake))
    ensures Linked(Do(c, Pop(wake)))
  {
    MonitorKeepsInv(c, Pop(wake));
    StepIsPipeline(c, Pop(wake));
    PopIsPass(c, wake);
    PopPassWaits(AwakeToPop(c.m), wake);
    PopLinks(c, Do(c, Pop(wake)));
  }

  lemma {:induction false} PopLinks(c: System, c': System)
    requires Linked(c) && c.p.disp == Pipeline.Popping && Monitor.Inv(c'.m)
    requires c'.p == if Pipeline.Enabled(c.p, Pipeline.DispPop) then Pipeline.Do(c.p, Pipeline.DispPop) else c.p
    requires var (r, q) := PopAttempt(c.m.q);
             && c'.m.q == q && c'.m.pending == c.m.pending
             && c'.m.waitEmpty + c'.m.wokenEmpty == (if r == Waits then {DISP} else {})
             && c'.m.waitFull + c'.m.wokenFull == c.m.waitFull + c.m.wokenFull
    ensures Linked(c')
  {
  }

  lemma {:induction false} SpuriousKeepsLinked(c: System, t: Monitor.Tid)
    requires Linked(c) && Enabled(c, Spurious(t))
    ensures Linked(Do(c, Spurious(t)))
  {
    MonitorKeepsInv(c, Spurious(t));
    assert Monitor.Enabled(c.m, OnMonitor(c, Spurious(t))[0]);
  }

  lemma {:induction false} StepKeepsLinked(c: System, u: Step)
    requires Linked(c) && Enabled(c, u)
    ensures Linked(Do(c, u))
  {
    match u {
      case Other(s) => OtherKeepsLinked(c, s);
      case Push(wake) => PushKeepsLinked(c, wake);
      case Pop(wake) => PopKeepsLinked(c, wake);
      case Spurious(t) => SpuriousKeepsLinked(c, t);
    }
  }

  ghost predicate Steps(c: System, us: seq<Step>, c': System)
    decreases |us|
  {
    if us == [] then c == c' else Enabled(c, us[0]) && Steps(Do(c, us[0]), us[1..], c')
  }

  // ---------- what the monitor makes is a run of the pipeline ----------

  lemma {:induction false} StepIsPipeline(c: System, u: Step)
    requires Enabled(c, u)
    ensures var s := InPipeline(c, u);
            if s == [] then Do(c, u).p == c.p else |s| == 1 && Pipeline.Enabled(c.p, s[0]) && Do(c, u).p == Pipeline.Do(c.p, s[0])
  {
  }

  /** Soundness: taking out the waits and wakeups leaves a run of the pipeline. */
  lemma {:induction false} RunIsPipeline(c: System, us: seq<Step>, c': System) returns (steps: seq<Pipeline.Step>)
    requires Linked(c) && Steps(c, us, c')
    ensures Linked(c') && Pipeline.Steps(c.p, steps, c'.p)
    decreases |us|
  {
    steps := [];
    if us != [] {
      StepKeepsLinked(c, us[0]);
      StepIsPipeline(c, us[0]);
      var rest := RunIsPipeline(Do(c, us[0]), us[1..], c');
      steps := InPipeline(c, us[0]) + rest;
      assert InPipeline(c, us[0]) == [] ==> steps == rest;
      assert InPipeline(c, us[0]) != [] ==> steps[1..] == rest;
    }
  }

  // ---------- and every run of the pipeline is made ----------

  /** Who sleeps, faces a queue that makes it wait: with one thread of each kind a woken one is itself. */
  lemma {:induction false} SleepersHaveReason(c: System)
    requires Linked(c)
    ensures RX in c.m.waitFull ==> PushAttempt(c.p.q, c.m.pending[RX]).0 == Waits
    ensures DISP in c.m.waitEmpty ==> PopAttempt(c.p.q).0 == Waits
  {
    if RX in c.m.waitFull {
      assert c.m.wokenFull == {};
    }
    if DISP in c.m.waitEmpty {
      assert c.m.wokenEmpty == {};
    }
    Monitor.NobodyForgotten(c.m);
  }

  lemma {:induction false} PushIsAvailable(c: System)
    requires Linked(c) && Pipeline.Enabled(c.p, Pipeline.RxPush)
    ensures RX !in c.m.waitFull && Enabled(c, Push(c.m.waitEmpty))
  {
    SleepersHaveReason(c);
    assert RX !in c.m.waitFull;
    assert c.m.Free(RX) || RX in c.m.wokenFull;
  }

  lemma {:induction false} PopIsAvailable(c: System)
    requires Linked(c) && Pipeline.Enabled(c.p, Pipeline.DispPop)
    ensures DISP !in c.m.waitEmpty && Enabled(c, Pop(c.m.waitFull))
  {
    SleepersHaveReason(c);
    assert DISP !in c.m.waitEmpty;
    assert c.m.Free(DISP) || DISP in c.m.wokenEmpty;
  }

  /**
   * The wait is no longer than the pipeline says: when the queue lets the push or the pop through,
   * its thread is awake, and one pass of its own makes the step.
   */
  lemma {:induction false} PassIsAvailable(c: System)
    requires Linked(c)
    ensures var u := Push(c.m.waitEmpty);
            Pipeline.Enabled(c.p, Pipeline.RxPush) ==>
              RX !in c.m.waitFull && Enabled(c, u) && Do(c, u).p == Pipeline.Do(c.p, Pipeline.RxPush)
    ensures var u := Pop(c.m.waitFull);
            Pipeline.Enabled(c.p, Pipeline.DispPop) ==>
              DISP !in c.m.waitEmpty && Enabled(c, u) && Do(c, u).p == Pipeline.Do(c.p, Pipeline.DispPop)
  {
    if Pipeline.Enabled(c.p, Pipeline.RxPush) {
      PushIsAvailable(c);
      StepIsPipeline(c, Push(c.m.waitEmpty));
    }
    if Pipeline.Enabled(c.p, Pipeline.DispPop) {
      PopIsAvailable(c);
      StepIsPipeline(c, Pop(c.m.waitFull));
    }
  }

  /** The step of the monitor that makes a step of the pipeline. */
  function Making(c: System, s: Pipeline.Step): Step {
    match s
    case RxPush => Push(c.m.waitEmpty)
    case DispPop => Pop(c.m.waitFull)
    case _ => Other(s)
  }

  lemma {:induction false} StepIsMade(c: System, s: Pipeline.Step)
    requires Linked(c) && Pipeline.Enabled(c.p, s)
    ensures Enabled(c, Making(c, s)) && Do(c, Making(c, s)).p == Pipeline.Do(c.p, s)
  {
    PassIsAvailable(c);
  }

  /** Completeness: every run of the pipeline is made by the monitor, without a single wait. */
  lemma {:induction false} PipelineIsMade(c: System, steps: seq<Pipeline.Step>, p': Pipeline.Pipe) returns (us: seq<Step>, c': System)
    requires Linked(c) && Pipeline.Steps(c.p, steps, p')
    ensures Steps(c, us, c') && Linked(c') && c'.p == p'
    decreases |steps|
  {
    us, c' := [], c;
    if steps != [] {
      var u := Making(c, steps[0]);
      StepIsMade(c, steps[0]);
      StepKeepsLinked(c, u);
      us, c' := PipelineIsMade(Do(c, u), steps[1..], p');
      us := [u] + us;
    }
  }

  lemma {:induction false} StartLinked(e0: Uds.Ecu)
    ensures Linked(Start(e0))
  {
  }

  ghost predicate Reaches(e0: Uds.Ecu, c: System) {
    exists us: seq<Step> :: Steps(Start(e0), us, c)
  }

  ghost predicate PipelineReaches(e0: Uds.Ecu, p: Pipeline.Pipe) {
    exists steps: seq<Pipeline.Step> :: Pipeline.Steps(Pipeline.Start(e0), steps, p)
  }

  /** The two systems reach the same states of the pipeline. */
  lemma {:induction false} SameStates(e0: Uds.Ecu, p: Pipeline.Pipe)
    ensures PipelineReaches(e0, p) <==> exists c: System :: Reaches(e0, c) && c.p == p
  {
    StartLinked(e0);
    if PipelineReaches(e0, p) {
      var steps: seq<Pipeline.Step> :| Pipeline.Steps(Pipeline.Start(e0), steps, p);
      var us, c := PipelineIsMade(Start(e0), steps, p);
      assert Reaches(e0, c);
    }
    forall c: System | Reaches(e0, c) && c.p == p
      ensures PipelineReaches(e0, p)
    {
      var us: seq<Step> :| Steps(Start(e0), us, c);
      var steps := RunIsPipeline(Start(e0), us, c);
    }
  }
}
