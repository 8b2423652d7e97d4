/**
 * The mutex and the two condition variables of queue.c, with any number of threads. A step is one
 * pass of a critical section: it ends in a wait or in the return of the call. A signal wakes at
 * least one waiter if there is one; waiters may also wake spuriously; a woken thread has to run
 * again and may find that another thread has been faster.
 */
module Monitor {
  import opened Queue

  type Tid = nat

  /**
   * Per condition variable, the threads that sleep on it and those woken but not yet run again;
   * `pending` is the message each blocked producer carries, `accepted` and `popped` the history.
   */
  datatype Mon = Mon(
    q: Fifo,
    waitFull: set<Tid>,
    wokenFull: set<Tid>,
    waitEmpty: set<Tid>,
    wokenEmpty: set<Tid>,
    pending: map<Tid, Message>,
    accepted: seq<Message>,
    popped: seq<Message>
  ) {
    predicate Free(t: Tid) {
      t !in waitFull && t !in wokenFull && t !in waitEmpty && t !in wokenEmpty
    }
  }

  const START := Mon(EMPTY, {}, {}, {}, {}, map[], [], [])

  /** `wake` is the set of threads that the signal sent by this step, if any, unblocks. */
  datatype Step =
    | PushCall(t: Tid, data: Message, wake: set<Tid>)
    | PushAgain(t: Tid, wake: set<Tid>)
    | PopCall(t: Tid, wake: set<Tid>)
    | PopAgain(t: Tid, wake: set<Tid>)
    | SpuriousProducer(t: Tid)
    | SpuriousConsumer(t: Tid)
    | Shutdown

  predicate Signals(wake: set<Tid>, waiters: set<Tid>) {
    wake <= waiters && (waiters != {} ==> wake != {})
  }

  predicate Enabled(m: Mon, s: Step) {
    match s
    case PushCall(t, _, wake) => m.Free(t) && Signals(wake, m.waitEmpty)
    case PushAgain(t, wake) => t in m.wokenFull && t in m.pending && Signals(wake, m.waitEmpty)
    case PopCall(t, wake) => m.Free(t) && Signals(wake, m.waitFull)
    case PopAgain(t, wake) => t in m.wokenEmpty && Signals(wake, m.waitFull)
    case SpuriousProducer(t) => t in m.waitFull
    case SpuriousConsumer(t) => t in m.waitEmpty
    case Shutdown => true
  }

  function WakeFull(m: Mon, wake: set<Tid>): Mon {
    m.(waitFull := m.waitFull - wake, wokenFull := m.wokenFull + wake)
  }

  function WakeEmpty(m: Mon, wake: set<Tid>): Mon {
    m.(waitEmpty := m.waitEmpty - wake, wokenEmpty := m.wokenEmpty + wake)
  }

  /** The critical section of a push by a thread that is not asleep. */
  function PushPass(m: Mon, t: Tid, data: Message, wake: set<Tid>): Mon {
    var (r, q) := PushAttempt(m.q, data);
    match r
    case Waits => m.(waitFull := m.waitFull + {t}, pending := m.pending[t := data])
    case Refused => m
    case Succeeded => WakeEmpty(m.(q := q, accepted := m.accepted + [data]), wake)
  }

  function PopPass(m: Mon, t: Tid, wake: set<Tid>): Mon {
    var (r, q) := PopAttempt(m.q);
    match r
    case Waits => m.(waitEmpty := m.waitEmpty + {t})
    case Refused => m
    case Succeeded => WakeFull(m.(q := q, popped := m.popped + [m.q.items[0]]), wake)
  }

  function Do(m: Mon, s: Step): Mon
    requires Enabled(m, s)
  {
    match s
    case PushCall(t, data, wake) => PushPass(m, t, data, wake)
    case PushAgain(t, wake) => PushPass(m.(wokenFull := m.wokenFull - {t}), t, m.pending[t], wake)
    case PopCall(t, wake) => PopPass(m, t, wake)
    case PopAgain(t, wake) => PopPass(m.(wokenEmpty := m.wokenEmpty - {t}), t, wake)
    case SpuriousProducer(t) => WakeFull(m, {t})
    case SpuriousConsumer(t) => WakeEmpty(m, {t})
    case Shutdown => WakeEmpty(WakeFull(m.(q := m.q.(closed := true)), m.waitFull), m.waitEmpty)
  }

  // ---------- the invariant ----------

  /** A thread is in at most one of the four sets, and blocked producers carry a legal message. */
  ghost predicate Apart(m: Mon) {
    && m.waitFull !! m.wokenFull
    && m.waitEmpty !! m.wokenEmpty
    && (m.waitFull + m.wokenFull) !! (m.waitEmpty + m.wokenEmpty)
    && forall t :: t in m.waitFull || t in m.wokenFull ==> t in m.pending && Acceptable(m.pending[t])
  }

  /** Messages leave in the order in which they were accepted, and none is lost or invented. */
  ghost predicate FifoHistory(m: Mon) {
    |m.q.items| <= CAP && m.accepted == m.popped + m.q.items
  }

  /** While the queue is open and a consumer sleeps, every queued message has a woken consumer coming. */
  ghost predicate NoLostItem(m: Mon) {
    !m.q.closed && m.waitEmpty != {} ==> |m.wokenEmpty| >= |m.q.items|
  }

  /** While the queue is open and a producer sleeps, every free slot has a woken producer coming. */
  ghost predicate NoLostSlot(m: Mon) {
    !m.q.closed && m.waitFull != {} ==> |m.wokenFull| >= CAP - |m.q.items|
  }

  ghost predicate ClosedWakesAll(m: Mon) {
    m.q.closed ==> m.waitEmpty == {} && m.waitFull == {}
  }

  ghost predicate Inv(m: Mon) {
    && Apart(m)
    && FifoHistory(m)
    && NoLostItem(m)
    && NoLostSlot(m)
    && ClosedWakesAll(m)
  }

  /** A signal to a set of sleepers makes the set of woken threads larger if anybody sleeps. */
  lemma {:induction false} SignalCounts(wake: set<Tid>, waiters: set<Tid>, woken: set<Tid>)
    requires waiters !! woken && Signals(wake, waiters)
    ensures |woken + wake| == |woken| + |wake|
    ensures waiters != {} ==> |wake| >= 1
  {
    assert woken !! wake;
  }

  /**
   * A push pass keeps the invariant. A caller just woken from `not_full` no longer counts as
   * coming, so one slot may lack its woken producer until this pass is over.
   */
  lemma {:induction false} PushPassKeepsInv(m: Mon, t: Tid, data: Message, wake: set<Tid>)
    requires Apart(m) && FifoHistory(m) && NoLostItem(m) && ClosedWakesAll(m)
    requires m.Free(t) && Signals(wake, m.waitEmpty) && Acceptable(data)
    requires !m.q.closed && m.waitFull != {} ==> |m.wokenFull| + 1 >= CAP - |m.q.items|
    ensures Inv(PushPass(m, t, data, wake))
  {
    if PushAttempt(m.q, data).0 == Succeeded {
      SignalCounts(wake, m.waitEmpty, m.wokenEmpty);
      var m' := PushPass(m, t, data, wake);
      assert m'.wokenEmpty == m.wokenEmpty + wake && m'.waitEmpty == m.waitEmpty - wake;
      assert m.accepted + [data] == m.popped + (m.q.items + [data]);
    }
  }

  lemma {:induction false} PopPassKeepsInv(m: Mon, t: Tid, wake: set<Tid>)
    requires Apart(m) && FifoHistory(m) && NoLostSlot(m) && ClosedWakesAll(m)
    requires m.Free(t) && Signals(wake, m.waitFull)
    requires !m.q.closed && m.waitEmpty != {} ==> |m.wokenEmpty| + 1 >= |m.q.items|
    ensures Inv(PopPass(m, t, wake))
  {
    if PopAttempt(m.q).0 == Succeeded {
      SignalCounts(wake, m.waitFull, m.wokenFull);
      assert m.popped + m.q.items == (m.popped + [m.q.items[0]]) + m.q.items[1..];
    }
  }

  lemma {:induction false} PushAgainKeepsInv(m: Mon, t: Tid, wake: set<Tid>)
    requires Inv(m) && Enabled(m, PushAgain(t, wake))
    ensures Inv(Do(m, PushAgain(t, wake)))
  {
    var m1 := m.(wokenFull := m.wokenFull - {t});
    assert |m1.wokenFull| + 1 == |m.wokenFull|;
    PushPassKeepsInv(m1, t, m.pending[t], wake);
  }

  lemma {:induction false} PopAgainKeepsInv(m: Mon, t: Tid, wake: set<Tid>)
    requires Inv(m) && Enabled(m, PopAgain(t, wake))
    ensures Inv(Do(m, PopAgain(t, wake)))
  {
    var m1 := m.(wokenEmpty := m.wokenEmpty - {t});
    assert |m1.wokenEmpty| + 1 == |m.wokenEmpty|;
    PopPassKeepsInv(m1, t, wake);
  }

  lemma {:induction false} SpuriousKeepsInv(m: Mon, s: Step)
    requires Inv(m) && Enabled(m, s) && (s.SpuriousProducer? || s.SpuriousConsumer?)
    ensures Inv(Do(m, s))
  {
    if s.SpuriousProducer? {
      SignalCounts({s.t}, m.waitFull, m.wokenFull);
    } else {
      SignalCounts({s.t}, m.waitEmpty, m.wokenEmpty);
    }
  }

  lemma {:induction false} ShutdownKeepsInv(m: Mon)
    requires Inv(m)
    ensures Inv(Do(m, Shutdown))
  {
  }

  /** Every step of every thread, in any interleaving, keeps the invariant. */
  lemma {:induction false} StepKeepsInv(m: Mon, s: Step)
    requires Inv(m) && Enabled(m, s)
    ensures Inv(Do(m, s))
  {
    match s {
      case PushCall(t, data, wake) =>
        if Acceptable(data) {
          PushPassKeepsInv(m, t, data, wake);
        } else {
          assert Do(m, s) == m;
        }
      case PushAgain(t, wake) => PushAgainKeepsInv(m, t, wake);
      case PopCall(t, wake) => PopPassKeepsInv(m, t, wake);
      case PopAgain(t, wake) => PopAgainKeepsInv(m, t, wake);
      case Shutdown => ShutdownKeepsInv(m);
      case _ => SpuriousKeepsInv(m, s);
    }
  }

  // ---------- every reachable state ----------

  ghost predicate Runs(m: Mon, steps: seq<Step>, m': Mon)
    decreases |steps|
  {
    if steps == [] then m == m'
    else Enabled(m, steps[0]) && Runs(Do(m, steps[0]), steps[1..], m')
  }

  lemma {:induction false} RunsKeepInv(m: Mon, steps: seq<Step>, m': Mon)
    requires Inv(m) && Runs(m, steps, m')
    ensures Inv(m')
    decreases |steps|
  {
    if steps != [] {
      StepKeepsInv(m, steps[0]);
      RunsKeepInv(Do(m, steps[0]), steps[1..], m');
    }
  }

  /**
   * No lost wakeup and no deadlock, in every reachable state. Accepted messages are the popped
   * ones followed by the queued ones. If no woken thread is left to run, sleeping consumers face
   * an empty open queue and sleeping producers a full open one, so both kinds never sleep at once,
   * and nobody sleeps on a closed queue.
   */
  lemma {:induction false} NoLostWakeup(steps: seq<Step>, m: Mon)
    requires Runs(START, steps, m)
    ensures m.accepted == m.popped + m.q.items && |m.q.items| <= 8
    ensures !m.q.closed && m.waitEmpty != {} ==> |m.wokenEmpty| >= |m.q.items|
    ensures !m.q.closed && m.waitFull != {} ==> |m.wokenFull| >= 8 - |m.q.items|
    ensures m.q.closed ==> m.waitEmpty == {} && m.waitFull == {}
    ensures m.wokenEmpty == {} && m.waitEmpty != {} ==> !m.q.closed && m.q.items == []
    ensures m.wokenFull == {} && m.waitFull != {} ==> !m.q.closed && |m.q.items| == 8
    ensures m.wokenEmpty == {} && m.wokenFull == {} ==> m.waitEmpty == {} || m.waitFull == {}
  {
    RunsKeepInv(START, steps, m);
    NobodyForgotten(m);
  }

  lemma {:induction false} NobodyForgotten(m: Mon)
    requires Inv(m)
    ensures m.wokenEmpty == {} && m.waitEmpty != {} ==> !m.q.closed && m.q.items == []
    ensures m.wokenFull == {} && m.waitFull != {} ==> !m.q.closed && |m.q.items| == CAP
    ensures m.wokenEmpty == {} && m.wokenFull == {} ==> m.waitEmpty == {} || m.waitFull == {}
  {
    assert m.wokenEmpty == {} ==> |m.wokenEmpty| == 0;
    assert m.wokenFull == {} ==> |m.wokenFull| == 0;
  }

  /** A woken thread can always run, and a woken consumer that finds a message takes it. */
  lemma {:induction false} WokenCanRun(m: Mon, t: Tid)
    requires Inv(m)
    ensures t in m.wokenEmpty ==> Enabled(m, PopAgain(t, m.waitFull))
    ensures t in m.wokenEmpty && m.q.items != [] ==> Do(m, PopAgain(t, m.waitFull)).popped == m.popped + [m.q.items[0]]
    ensures t in m.wokenFull ==> Enabled(m, PushAgain(t, m.waitEmpty))
    ensures t in m.wokenFull && !m.q.closed && |m.q.items| < CAP ==>
              Do(m, PushAgain(t, m.waitEmpty)).accepted == m.accepted + [m.pending[t]]
  {
  }

  lemma {:induction false} ClosedStep(m: Mon, s: Step)
    requires m.q.closed && Enabled(m, s)
    ensures var m' := Do(m, s); m'.q.closed && m'.accepted == m.accepted && m.popped <= m'.popped
  {
  }

  /** Once closed, a queue stays closed, accepts nothing more, and hands out at most what it held. */
  lemma {:induction false} ClosedForGood(m: Mon, steps: seq<Step>, m': Mon)
    requires Inv(m) && m.q.closed && Runs(m, steps, m')
    ensures Inv(m') && m'.q.closed && m'.accepted == m.accepted
    ensures m.popped <= m'.popped <= m.popped + m.q.items
    decreases |steps|
  {
    RunsKeepInv(m, steps, m');
    if steps != [] {
      ClosedStep(m, steps[0]);
      StepKeepsInv(m, steps[0]);
      ClosedForGood(Do(m, steps[0]), steps[1..], m');
    }
  }
}
