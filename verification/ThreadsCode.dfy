/**
 * The threads of threads.c over the mutable queue and ECU. Each atomic step is a method proved to be
 * a step of `Pipeline`; each thread's loop is a method that lets the other threads run, in any way,
 * between its own steps.
 */
module ThreadsCode {
  import opened Bytes
  import opened Pipeline
  import opened Queue
  import opened Runs
  import opened Sequences
  import Security
  import Uds
  import UdsCode

  /** The times of the S3 polls in a run. */
  function PollTimes(steps: seq<Step>): seq<nat> {
    if steps == [] then []
    else
      var s := steps[|steps| - 1];
      PollTimes(steps[..|steps| - 1]) + (if s.PollS3? then [s.now] else [])
  }

  /** The run goes on with step `s`. */
  ghost predicate Took(p: Pipe, trace: seq<Step>, s: Step, p': Pipe, trace': seq<Step>) {
    Enabled(p, s) && p' == Do(p, s) && trace' == trace + [s]
  }

  /** What a thread still finds as it was after the others have run. */
  ghost predicate Kept(me: Thread, p: Pipe, trace: seq<Step>, p': Pipe, trace': seq<Step>) {
    && trace <= trace'
    && (p.stop ==> p'.stop)
    && match me
       case RxThread => p'.rx == p.rx && p'.received == p.received
       case DispThread => p'.disp == p.disp && p'.sent == p.sent && Requests(p'.log) == Requests(p.log)
       case S3Thread => PollTimes(trace') == PollTimes(trace)
       case _ => true
  }

  lemma {:induction false} OtherStepKeeps(me: Thread, p: Pipe, trace: seq<Step>, s: Step, p': Pipe, trace': seq<Step>)
    requires ThreadOf(s) != me && Took(p, trace, s, p', trace')
    ensures Kept(me, p, trace, p', trace')
  {
    PollTimesExtend(trace, s);
    match me {
      case RxThread => RxKept(p, s);
      case DispThread => DispKept(p, s);
      case _ =>
    }
  }

  lemma {:induction false} RxKept(p: Pipe, s: Step)
    requires Enabled(p, s) && ThreadOf(s) != RxThread
    ensures Do(p, s).rx == p.rx && Do(p, s).received == p.received
  {
  }

  lemma {:induction false} DispKept(p: Pipe, s: Step)
    requires Enabled(p, s) && ThreadOf(s) != DispThread
    ensures Do(p, s).disp == p.disp && Do(p, s).sent == p.sent && Requests(Do(p, s).log) == Requests(p.log)
  {
    if s.PollS3? {
      RequestsKept(p.log, At(s.now, Poll));
    } else if s.UpdateEngine? {
      RequestsKept(p.log, At(s.now, Telemetry(s.engine)));
    }
  }

  lemma {:induction false} PollTimesExtend(trace: seq<Step>, s: Step)
    ensures PollTimes(trace + [s]) == PollTimes(trace) + if s.PollS3? then [s.now] else []
  {
    assert (trace + [s])[..|trace|] == trace;
  }

  lemma {:induction false} RequestsKept(log: seq<Timed>, t: Timed)
    requires !t.action.Request?
    ensures Requests(log + [t]) == Requests(log)
  {
    assert (log + [t])[..|log|] == log;
  }

  /**
   * The queue, the ECU, the stop flag, and of each thread where it is and what it holds. The ghost
   * fields say which run of `Pipeline` has led here.
   */
  class Runtime {
    const v: UdsCode.Vecu
    const q: UdsQueue
    const resp: array<byte>
    var stop: bool
    var rx: RxPc
    var disp: DispPc
    var sent: seq<Message>
    ghost const start: Uds.Ecu
    ghost var trace: seq<Step>
    ghost var p: Pipe

    ghost function Repr(): set<object> {
      {this, v, v.security, v.dtcs, v.dtcs.entries, v.ownerName, q, q.slots, resp}
    }

    ghost predicate Valid()
      reads Repr()
    {
      && v.Valid() && q.Valid() && resp.Length == RESP_CAP
      && rx == p.rx && disp == p.disp && stop == p.stop && sent == p.sent
      && q.View() == p.q && v.View() == p.ecu
      && Steps(Start(start), trace, p)
    }

    constructor (now: nat)
      ensures Valid() && p == Start(Uds.Boot(now)) && trace == []
    {
      v := new UdsCode.Vecu(now);
      q := new UdsQueue();
      resp := new byte[RESP_CAP](i => 0);
      stop, rx, disp, sent := false, RxTop, DispTop, [];
      start, trace, p := Uds.Boot(now), [], Start(Uds.Boot(now));
    }

    /** Notes a step that has been made. */
    ghost method Note(s: Step)
      requires Steps(Start(start), trace, p) && Enabled(p, s)
      modifies this`trace, this`p
      ensures Steps(Start(start), trace, p) && Took(old(p), old(trace), s, p, trace)
    {
      StepsAppend(Start(start), trace, p, s);
      trace, p := trace + [s], Do(p, s);
    }

    // ---------- atomic steps ----------

    method RxTestStop()
      requires Valid() && rx == RxTop
      modifies Repr()
      ensures Valid() && Took(old(p), old(trace), RxCheck, p, trace)
    {
      rx := if stop then RxLeaving else Reading;
      Note(RxCheck);
    }

    method RxReceive(msg: Message)
      requires Valid() && rx == Reading && Acceptable(msg)
      modifies Repr()
      ensures Valid() && Took(old(p), old(trace), RxRead(msg), p, trace)
    {
      rx := Pushing(msg);
      Note(RxRead(msg));
    }

    method RxContinue()
      requires Valid() && rx == Reading
      modifies Repr()
      ensures Valid() && Took(old(p), old(trace), RxRetry, p, trace)
    {
      rx := RxTop;
      Note(RxRetry);
    }

    method RxBreak()
      requires Valid() && rx == Reading
      modifies Repr()
      ensures Valid() && Took(old(p), old(trace), RxFail, p, trace)
    {
      rx := RxLeaving;
      Note(RxFail);
    }

    method RxTryPush() returns (r: Attempt)
      requires Valid() && rx.Pushing?
      modifies Repr()
      ensures Valid() && r == PushAttempt(old(p).q, old(rx).msg).0
      ensures if r == Waits then p == old(p) && trace == old(trace) else Took(old(p), old(trace), RxPush, p, trace)
    {
      r := q.Push(rx.msg);
      if r != Waits {
        rx := if r == Succeeded then RxTop else RxLeaving;
        Note(RxPush);
      }
    }

    method RxShutdown()
      requires Valid() && rx == RxLeaving
      modifies Repr()
      ensures Valid() && Took(old(p), old(trace), RxClose, p, trace)
    {
      q.Shutdown();
      rx := RxGone;
      Note(RxClose);
    }

    method DispTestStop()
      requires Valid() && disp == DispTop
      modifies Repr()
      ensures Valid() && Took(old(p), old(trace), DispCheck, p, trace)
    {
      disp := if stop then DispGone else Popping;
      Note(DispCheck);
    }

    method DispTryPop() returns (r: Attempt)
      requires Valid() && disp == Popping
      modifies Repr()
      ensures Valid() && r == PopAttempt(old(p).q).0
      ensures if r == Waits then p == old(p) && trace == old(trace) else Took(old(p), old(trace), DispPop, p, trace)
    {
      var msg;
      r, msg := q.Pop();
      if r != Waits {
        disp := if r == Succeeded then Serving(msg) else DispGone;
        Note(DispPop);
      }
    }

    /** Handles the popped request and sends the answer, if there is one to send. */
    method Serve(now: nat, entropy: Security.Entropy)
      requires Valid() && disp.Serving?
      modifies Repr()
      ensures Valid() && Took(old(p), old(trace), DispServe(now, entropy), p, trace)
    {
      var out := Handle(disp.msg, now, entropy);
      sent := sent + out;
      disp := DispTop;
      Note(DispServe(now, entropy));
    }

    /** Handles one request and says what goes out for it. */
    method Handle(msg: Message, now: nat, entropy: Security.Entropy) returns (out: seq<Message>)
      requires v.Valid() && resp.Length == RESP_CAP
      modifies v, v.security, v.dtcs, v.dtcs.entries, v.ownerName, resp
      ensures var t := At(now, Request(msg, entropy));
              v.Valid() && v.View() == Next(old(v.View()), t) && out == Outgoing(Answer(old(v.View()), t))
    {
      var rc, len := v.ProcessRequest(msg, resp, resp.Length, now, entropy);
      out := if rc < 0 || rc == 1 || len == 0 then [] else [resp[..len]];
    }

    method Poll(now: nat)
      requires Valid()
      modifies Repr()
      ensures Valid() && Took(old(p), old(trace), PollS3(now), p, trace)
    {
      v.PollS3(now);
      Note(PollS3(now));
    }

    method SetEngine(now: nat, engine: Uds.Engine)
      requires Valid()
      modifies Repr()
      ensures Valid() && Took(old(p), old(trace), UpdateEngine(now, engine), p, trace)
    {
      v.engine := engine;
      Note(UpdateEngine(now, engine));
    }

    method OnSignal()
      requires Valid()
      modifies Repr()
      ensures Valid() && Took(old(p), old(trace), SignalStop, p, trace)
    {
      stop := true;
      Note(SignalStop);
    }

    method MainShutdown()
      requires Valid() && stop
      modifies Repr()
      ensures Valid() && Took(old(p), old(trace), CloseQueue, p, trace)
    {
      q.Shutdown();
      Note(CloseQueue);
    }

    // ---------- any interleaving ----------

    /** Makes the step if it is enabled, and nothing otherwise. */
    method Offer(s: Step)
      requires Valid()
      modifies Repr()
      ensures Valid()
      ensures if Enabled(old(p), s) then Took(old(p), old(trace), s, p, trace) else p == old(p) && trace == old(trace)
    {
      match s
      case RxCheck => if rx == RxTop { RxTestStop(); }
      case RxRead(msg) => if rx == Reading && Acceptable(msg) { RxReceive(msg); }
      case RxRetry => if rx == Reading { RxContinue(); }
      case RxFail => if rx == Reading { RxBreak(); }
      case RxPush => if rx.Pushing? { var r := RxTryPush(); }
      case RxClose => if rx == RxLeaving { RxShutdown(); }
      case DispCheck => if disp == DispTop { DispTestStop(); }
      case DispPop => if disp == Popping { var r := DispTryPop(); }
      case DispServe(now, entropy) => if disp.Serving? { Serve(now, entropy); }
      case PollS3(now) => Poll(now);
      case UpdateEngine(now, engine) => SetEngine(now, engine);
      case SignalStop => OnSignal();
      case CloseQueue => if stop { MainShutdown(); }
    }

    /** Lets the other threads make those of the steps that are theirs and enabled. */
    method Others(me: Thread, steps: seq<Step>)
      requires Valid()
      modifies Repr()
      ensures Valid() && Kept(me, old(p), old(trace), p, trace)
    {
      for i := 0 to |steps|
        invariant Valid() && Kept(me, old(p), old(trace), p, trace)
      {
        if ThreadOf(steps[i]) != me {
          ghost var before, run := p, trace;
          Offer(steps[i]);
          if Enabled(before, steps[i]) {
            OtherStepKeeps(me, before, run, steps[i], p, trace);
          }
        }
      }
    }

    // ---------- the loops ----------

    /** One round of the receive loop; `read` is false if it saw the stop flag instead of reading. */
    method RxRound(t: RxTurn) returns (read: bool)
      requires Valid() && rx == RxTop && (t.got.Arrived? ==> |t.got.msg| <= MAX_MSG)
      modifies Repr()
      ensures Valid() && old(trace) <= trace
      ensures p.received == old(p.received) + if read then Messages([t]) else []
      ensures !read ==> rx == RxLeaving && stop
      ensures read ==> match rx
                       case RxTop => !t.got.Failure?
                       case Pushing(_) => !t.got.Failure? && !Enabled(p, RxPush)
                       case RxLeaving => t.got.Failure? || stop
                       case _ => false
    {
      Others(RxThread, t.atTop);
      RxTestStop();
      read := rx == Reading;
      if read { ReadAndPush(t); }
    }

    /** The body of the receive loop. */
    method ReadAndPush(t: RxTurn)
      requires Valid() && rx == Reading && (t.got.Arrived? ==> |t.got.msg| <= MAX_MSG)
      modifies Repr()
      ensures Valid() && old(trace) <= trace
      ensures p.received == old(p.received) + Messages([t])
      ensures match rx
              case RxTop => !t.got.Failure?
              case Pushing(_) => !t.got.Failure? && !Enabled(p, RxPush)
              case RxLeaving => t.got.Failure? || stop
              case _ => false
    {
      Others(RxThread, t.atRead);
      if t.got.Failure? {
        RxBreak();
      } else if t.got.Retry? || t.got.msg == [] {
        RxContinue();
      } else {
        ReceiveAndPush(t);
      }
    }

    method ReceiveAndPush(t: RxTurn)
      requires Valid() && rx == Reading && t.got.Arrived? && Acceptable(t.got.msg)
      modifies Repr()
      ensures Valid() && old(trace) <= trace
      ensures p.received == old(p.received) + [t.got.msg]
      ensures match rx
              case RxTop => true
              case Pushing(_) => !Enabled(p, RxPush)
              case RxLeaving => stop
              case _ => false
    {
      RxReceive(t.got.msg);
      Others(RxThread, t.atPush);
      var r := PushBlocking(t.wakeups);
    }

    /** The push with its wait: it is tried again whenever the others have run. */
    method PushBlocking(wakeups: seq<seq<Step>>) returns (r: Attempt)
      requires Valid() && rx.Pushing?
      modifies Repr()
      ensures Valid() && old(trace) <= trace && p.received == old(p.received)
      ensures match r
              case Waits => rx.Pushing? && !Enabled(p, RxPush)
              case Succeeded => rx == RxTop
              case Refused => rx == RxLeaving && stop
    {
      r := PushOnce();
      var i := 0;
      while r == Waits && i < |wakeups|
        invariant Valid() && old(trace) <= trace && p.received == old(p.received)
        invariant match r
                  case Waits => rx.Pushing? && !Enabled(p, RxPush)
                  case Succeeded => rx == RxTop
                  case Refused => rx == RxLeaving && stop
      {
        Others(RxThread, wakeups[i]);
        r := PushOnce();
        i := i + 1;
      }
    }

    /** One attempt; the queue refuses a message only after a stop. */
    method PushOnce() returns (r: Attempt)
      requires Valid() && rx.Pushing?
      modifies Repr()
      ensures Valid() && old(trace) <= trace && p.received == old(p.received)
      ensures match r
              case Waits => rx.Pushing? && !Enabled(p, RxPush)
              case Succeeded => rx == RxTop
              case Refused => rx == RxLeaving && stop
    {
      r := RxTryPush();
      StepsKeepInv(start, Start(start), trace, p);
    }

    /**
     * The loop of the receive thread, which makes `n` reads. It leaves at a stop or a failed read, and
     * then closes the queue; otherwise it is blocked in a push, or the rounds have run out.
     */
    method RxLoop(turns: seq<RxTurn>, last: seq<Step>) returns (blocked: bool, n: nat)
      requires Valid() && rx == RxTop
      requires forall i :: 0 <= i < |turns| ==> turns[i].got.Arrived? ==> |turns[i].got.msg| <= 4095
      modifies Repr()
      ensures Valid() && old(trace) <= trace && n <= |turns|
      ensures p.received == old(p.received) + Messages(turns[..n])
      ensures !blocked ==> rx == RxGone && q.closed && (stop || Failed(turns[..n]))
      ensures blocked ==> !Failed(turns[..n]) && if rx.Pushing? then !Enabled(p, RxPush) else rx == RxTop && n == |turns|
    {
      n, blocked := 0, true;
      while n < |turns| && rx == RxTop
        invariant Valid() && old(trace) <= trace && n <= |turns|
        invariant p.received == old(p.received) + Messages(turns[..n])
        invariant match rx
                  case RxTop => !Failed(turns[..n])
                  case Pushing(_) => !Failed(turns[..n]) && !Enabled(p, RxPush)
                  case RxLeaving => stop || Failed(turns[..n])
                  case _ => false
        decreases |turns| - n, rx == RxTop
      {
        var read := RxRound(turns[n]);
        if read {
          NextRead(turns, n);
          AppendAssoc(old(p.received), Messages(turns[..n]), Messages([turns[n]]));
          n := n + 1;
        }
      }
      if rx == RxLeaving {
        RxLeave(last);
        blocked := false;
      }
    }

    method RxLeave(last: seq<Step>)
      requires Valid() && rx == RxLeaving
      modifies Repr()
      ensures Valid() && old(trace) <= trace && p.received == old(p.received) && (old(stop) ==> stop)
      ensures rx == RxGone && q.closed
    {
      Others(RxThread, last);
      RxShutdown();
    }

    /** One round of the dispatch loop; it ends in the pop, or gone, or with one request more served. */
    method DispRound(t: DispTurn)
      requires Valid() && disp == DispTop
      modifies Repr()
      ensures Valid() && old(trace) <= trace
      ensures |Requests(p.log)| == |Requests(old(p.log))| + if disp == DispTop then 1 else 0
      ensures disp == DispTop || disp == DispGone || (disp == Popping && !Enabled(p, DispPop))
    {
      Others(DispThread, t.atTop);
      DispTestStop();
      if disp == Popping { PopAndServe(t); }
    }

    /** The body of the dispatch loop. */
    method PopAndServe(t: DispTurn)
      requires Valid() && disp == Popping
      modifies Repr()
      ensures Valid() && old(trace) <= trace
      ensures |Requests(p.log)| == |Requests(old(p.log))| + if disp == DispTop then 1 else 0
      ensures disp == DispTop || disp == DispGone || (disp == Popping && !Enabled(p, DispPop))
    {
      Others(DispThread, t.atPop);
      var r := PopBlocking(t.wakeups);
      if r == Succeeded { ServePopped(t); }
    }

    method ServePopped(t: DispTurn)
      requires Valid() && disp.Serving?
      modifies Repr()
      ensures Valid() && old(trace) <= trace && disp == DispTop
      ensures Requests(p.log) == Requests(old(p.log)) + [old(disp).msg]
    {
      Others(DispThread, t.atServe);
      ghost var log := p.log;
      Serve(t.now, t.entropy);
      assert p.log[..|log|] == log;
    }

    /** The loop of the dispatch thread, which serves `n` requests. */
    method DispLoop(turns: seq<DispTurn>) returns (n: nat)
      requires Valid() && disp == DispTop
      modifies Repr()
      ensures Valid() && old(trace) <= trace && n <= |turns|
      ensures |Requests(p.log)| == |Requests(old(p.log))| + n
      ensures match disp
              case DispTop => n == |turns|
              case Popping => !Enabled(p, DispPop)
              case Serving(_) => false
              case DispGone => stop || (q.closed && p.received == Requests(p.log))
    {
      n := 0;
      while n < |turns| && disp == DispTop
        invariant Valid() && old(trace) <= trace && n <= |turns|
        invariant |Requests(p.log)| == |Requests(old(p.log))| + n
        invariant disp == DispTop || disp == DispGone || (disp == Popping && !Enabled(p, DispPop))
        decreases |turns| - n, disp == DispTop
      {
        DispRound(turns[n]);
        if disp == DispTop { n := n + 1; }
      }
      StepsKeepInv(start, Start(start), trace, p);
      UnservedIsBounded(Requests(p.log), p);
    }

    /** The pop with its wait. */
    method PopBlocking(wakeups: seq<seq<Step>>) returns (r: Attempt)
      requires Valid() && disp == Popping
      modifies Repr()
      ensures Valid() && old(trace) <= trace && Requests(p.log) == Requests(old(p.log))
      ensures (r == Waits ==> disp == Popping && !Enabled(p, DispPop)) && (r == Succeeded ==> disp.Serving?) && (r == Refused ==> disp == DispGone)
    {
      r := DispTryPop();
      var i := 0;
      while r == Waits && i < |wakeups|
        invariant Valid() && old(trace) <= trace && Requests(p.log) == Requests(old(p.log))
        invariant (r == Waits ==> disp == Popping && !Enabled(p, DispPop)) && (r == Succeeded ==> disp.Serving?) && (r == Refused ==> disp == DispGone)
      {
        Others(DispThread, wakeups[i]);
        r := DispTryPop();
        i := i + 1;
      }
    }

    /** The loop of the S3 thread: it polls once a round until it sees the stop flag. */
    method S3Loop(turns: seq<S3Turn>) returns (n: nat)
      requires Valid()
      modifies Repr()
      ensures Valid() && old(trace) <= trace && n <= |turns| && (n < |turns| ==> stop)
      ensures PollTimes(trace) == PollTimes(old(trace)) + Times(turns[..n])
    {
      n := 0;
      while n < |turns|
        invariant Valid() && old(trace) <= trace && n <= |turns|
        invariant PollTimes(trace) == PollTimes(old(trace)) + Times(turns[..n])
      {
        Others(S3Thread, turns[n].atTop);
        if stop { return; }
        Others(S3Thread, turns[n].atPoll);
        PollNext(turns[n].now);
        NextTime(turns, n);
        AppendAssoc(PollTimes(old(trace)), Times(turns[..n]), [turns[n].now]);
        n := n + 1;
      }
    }

    method PollNext(now: nat)
      requires Valid()
      modifies Repr()
      ensures Valid() && old(trace) <= trace && PollTimes(trace) == PollTimes(old(trace)) + [now]
    {
      ghost var run := trace;
      Poll(now);
      PollTimesExtend(run, PollS3(now));
    }
  }

  /** How one read of the socket ends; `Retry` is a signal or the receive timeout. */
  datatype Got = Arrived(msg: Message) | Retry | Failure

  /**
   * One round of a loop. The sequences of steps say what the other threads do before the thread's
   * own next step; each of the wakeups is such a sequence, and a new attempt follows it.
   */
  datatype RxTurn = RxTurn(atTop: seq<Step>, atRead: seq<Step>, got: Got, atPush: seq<Step>, wakeups: seq<seq<Step>>)
  datatype DispTurn = DispTurn(atTop: seq<Step>, atPop: seq<Step>, wakeups: seq<seq<Step>>, atServe: seq<Step>,
                               now: nat, entropy: Security.Entropy)
  datatype S3Turn = S3Turn(atTop: seq<Step>, atPoll: seq<Step>, now: nat)

  /** The times of the rounds. */
  function Times(turns: seq<S3Turn>): seq<nat> {
    if turns == [] then [] else Times(turns[..|turns| - 1]) + [turns[|turns| - 1].now]
  }

  lemma {:induction false} NextTime(turns: seq<S3Turn>, n: nat)
    requires n < |turns|
    ensures Times(turns[..n + 1]) == Times(turns[..n]) + [turns[n].now]
  {
    NextPrefix(turns, n);
  }

  /** The messages that arrived, without the empty ones. */
  function Messages(turns: seq<RxTurn>): seq<Message> {
    if turns == [] then []
    else
      var g := turns[|turns| - 1].got;
      Messages(turns[..|turns| - 1]) + (if g.Arrived? && g.msg != [] then [g.msg] else [])
  }

  /** Some read failed. */
  predicate Failed(turns: seq<RxTurn>) {
    turns != [] && (turns[|turns| - 1].got.Failure? || Failed(turns[..|turns| - 1]))
  }

  lemma {:induction false} NextRead(turns: seq<RxTurn>, n: nat)
    requires n < |turns|
    ensures Messages(turns[..n + 1]) == Messages(turns[..n]) + Messages([turns[n]])
    ensures Failed(turns[..n + 1]) <==> Failed(turns[..n]) || turns[n].got.Failure?
  {
    NextPrefix(turns, n);
  }

  /** Whatever has been run on it, the runtime has sent what the sequential server sends: all answers but the silent ones. */
  lemma {:induction false} RuntimeIsSequential(r: Runtime)
    requires r.Valid() && EcuInv(r.start)
    ensures SendsAll(r.start, r.p.log, r.sent)
    ensures r.sent == Responses(r.start, r.p.log) && r.v.View() == StateAt(r.start, r.p.log, |r.p.log|)
    ensures Requests(r.p.log) <= r.p.received && |r.p.received| - |Requests(r.p.log)| <= 10
    ensures r.disp == DispGone && !r.stop ==> r.p.received == Requests(r.p.log)
  {
    RefinesSequentialServer(r.start, r.trace, r.p);
    SentExactly(r.start, r.trace, r.p);
  }
}
