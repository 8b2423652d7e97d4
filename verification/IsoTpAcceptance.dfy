/** Exactly which event sequences make the receiver return a message, and which message. */
module IsoTpAcceptance {
  import opened Bytes
  import opened IsoTp
  import opened Sequences

  // ---------- what a complete transfer looks like ----------

  predicate NoForeign(id: nat, a: seq<BusEvent>) {
    forall i :: 0 <= i < |a| ==> !Foreign(id, a[i])
  }

  predicate AllDelivered(a: seq<BusEvent>) {
    forall i :: 0 <= i < |a| ==> a[i].Delivered?
  }

  /** Event `i` brings the `i`-th Consecutive Frame, numbered modulo 16, within N_Cr, 1000 ms, of its predecessor. */
  predicate TimelyCf(a: seq<BusEvent>, i: nat)
    requires AllDelivered(a) && 1 <= i < |a|
  {
    && a[i].frame.Pci() == PCI_CF
    && a[i].frame.Low() == i % 16
    && a[i].before <= a[i - 1].after + 1000
  }

  /** An acceptable First Frame, answered with Flow Control, then timely frames numbered 1, 2, ... */
  predicate InProgress(cap: nat, a: seq<BusEvent>) {
    && AllDelivered(a)
    && |a| >= 1
    && GoodFf(cap, a[0].frame)
    && a[0].fcSent
    && forall i :: 1 <= i < |a| ==> TimelyCf(a, i)
  }

  /** One acceptable Single Frame, or a First Frame with all its Consecutive Frames. */
  predicate IsTransfer(cap: nat, a: seq<BusEvent>) {
    || (|a| == 1 && a[0].Delivered? && GoodSf(cap, a[0].frame))
    || (InProgress(cap, a) && |a| == 1 + CfCount(a[0].frame.FfLength()))
  }

  /** The `i`-th payload byte of a First Frame followed by Consecutive Frames. */
  function ByteAt(a: seq<BusEvent>, i: nat): byte
    requires AllDelivered(a) && |a| >= 1 && i < 6 + 7 * (|a| - 1)
  {
    if i < 6 then a[0].frame.data[2 + i]
    else a[1 + (i - 6) / 7].frame.data[1 + (i - 6) % 7]
  }

  function BytesOf(a: seq<BusEvent>, n: nat): (s: seq<byte>)
    requires AllDelivered(a) && |a| >= 1 && n <= 6 + 7 * (|a| - 1)
    ensures |s| == n
  {
    seq(n, i requires 0 <= i < n => ByteAt(a, i))
  }

  function MessageOf(cap: nat, a: seq<BusEvent>): seq<byte>
    requires IsTransfer(cap, a)
  {
    var f := a[0].frame;
    if |a| == 1 then f.data[1..1 + f.Low()] else BytesOf(a, f.FfLength())
  }

  // ---------- the receiver's state mirrors the transfer in progress ----------

  predicate Unfinished(cap: nat, a: seq<BusEvent>) {
    InProgress(cap, a) && |a| <= CfCount(a[0].frame.FfLength())
  }

  function StateOf(cap: nat, a: seq<BusEvent>): (st: RxState)
    requires Unfinished(cap, a)
    ensures Sane(cap, st)
  {
    Receiving(a[0].frame.FfLength(), BytesOf(a, 6 + 7 * (|a| - 1)), |a| % 16, a[|a| - 1].after + N_CR_MS)
  }

  lemma {:induction false} InProgressExtends(cap: nat, pre: seq<BusEvent>, ev: BusEvent)
    requires InProgress(cap, pre) && ev.Delivered?
    ensures InProgress(cap, pre + [ev]) <==>
            && ev.frame.Pci() == PCI_CF
            && ev.frame.Low() == |pre| % 16
            && ev.before <= pre[|pre| - 1].after + N_CR_MS
  {
    var a := pre + [ev];
    assert AllDelivered(a) by {
      forall i | 0 <= i < |a| ensures a[i].Delivered? {
        if i < |pre| { assert a[i] == pre[i]; }
      }
    }
    forall i | 1 <= i < |pre|
      ensures TimelyCf(a, i)
    {
      assert TimelyCf(pre, i) && a[i] == pre[i] && a[i - 1] == pre[i - 1];
    }
    assert TimelyCf(a, |pre|) <==> (ev.frame.Pci() == PCI_CF && ev.frame.Low() == |pre| % 16
                                    && ev.before <= pre[|pre| - 1].after + N_CR_MS);
  }

  lemma {:induction false} BytesExtend(pre: seq<BusEvent>, ev: BusEvent, c: nat)
    requires AllDelivered(pre) && ev.Delivered? && |pre| >= 1 && c <= 7
    ensures AllDelivered(pre + [ev])
    ensures var held := 6 + 7 * (|pre| - 1);
            BytesOf(pre + [ev], held + c) == BytesOf(pre, held) + ev.frame.data[1..1 + c]
  {
    var a, held := pre + [ev], 6 + 7 * (|pre| - 1);
    assert AllDelivered(a) by {
      forall i | 0 <= i < |a| ensures a[i].Delivered? {
        if i < |pre| { assert a[i] == pre[i]; }
      }
    }
    var whole := BytesOf(a, held + c);
    forall i | 0 <= i < |whole|
      ensures whole[i] == (BytesOf(pre, held) + ev.frame.data[1..1 + c])[i]
    {
      if i >= held {
        assert i - 6 == 7 * (|pre| - 1) + (i - held);
        assert (i - 6) / 7 == |pre| - 1 && (i - 6) % 7 == i - held;
      }
    }
  }

  /** What one addressed event does to the transfer held: extend it, finish it, or drop it. */
  ghost predicate Mirrors(cap: nat, pre: seq<BusEvent>, ev: BusEvent, v: Verdict) {
    && (v.Complete? <==> IsTransfer(cap, pre + [ev]))
    && (v.Complete? ==> v.msg == MessageOf(cap, pre + [ev]))
    && (Unfinished(cap, pre + [ev]) <==> v.Waiting? && v.state.Receiving?)
    && (Unfinished(cap, pre + [ev]) ==> v.state == StateOf(cap, pre + [ev]))
  }

  lemma {:induction false} IdleMirrors(addr: Address, cap: nat, ev: BusEvent)
    requires !Foreign(addr.rxId, ev)
    ensures Mirrors(cap, [], ev, RxStep(addr, cap, Idle, ev).verdict)
  {
    var a := [] + [ev];
    assert a == [ev];
    assert InProgress(cap, a) <==> ev.Delivered? && GoodFf(cap, ev.frame) && ev.fcSent;
    if InProgress(cap, a) {
      assert BytesOf(a, 6) == ev.frame.data[2..];
    }
  }

  /** A frame that does not continue the transfer ends it without a delivery. */
  lemma {:induction false} StrayEndsTransfer(addr: Address, cap: nat, pre: seq<BusEvent>, ev: BusEvent)
    requires Unfinished(cap, pre) && !Foreign(addr.rxId, ev) && !InProgress(cap, pre + [ev])
    ensures var v := RxStep(addr, cap, StateOf(cap, pre), ev).verdict;
            !v.Complete? && !(v.Waiting? && v.state.Receiving?)
  {
    if ev.Delivered? {
      InProgressExtends(cap, pre, ev);
    }
  }

  /** What the receiver makes of the Consecutive Frame it expects, in time. */
  lemma {:induction false} ExpectedCf(addr: Address, cap: nat, st: RxState, ev: BusEvent)
    requires Sane(cap, st) && st.Receiving? && ev.Delivered? && ev.frame.Id() == addr.rxId
    requires ev.frame.Pci() == PCI_CF && ev.frame.Low() == st.nextSn && ev.before <= st.deadline
    ensures var c := Min(7, st.total - |st.got|);
            var all := st.got + ev.frame.data[1..1 + c];
            RxStep(addr, cap, st, ev).verdict ==
            if |st.got| + 7 >= st.total then Complete(all)
            else Waiting(Receiving(st.total, all, (st.nextSn + 1) % 16, ev.after + N_CR_MS))
  {
  }

  /** The `n`-th Consecutive Frame is the last when it covers the length; numbers go on modulo 16. */
  lemma {:induction false} LastCf(total: nat, n: nat)
    requires total >= 8 && n <= CfCount(total)
    ensures n == CfCount(total) <==> total <= 6 + 7 * n
    ensures (n % 16 + 1) % 16 == (n + 1) % 16
  {
    var count := CfCount(total);
    assert n < count ==> 6 + 7 * n <= 6 + 7 * (count - 1);
    NextNumber(n);
  }

  lemma {:induction false} NextNumber(n: nat)
    ensures (n % 16 + 1) % 16 == (n + 1) % 16
  {
    var q, r := n / 16, n % 16;
    assert n + 1 == 16 * q + (r + 1);
  }

  /** The bytes of the next frame, and whether it is the last. */
  lemma {:induction false} NextChunk(cap: nat, pre: seq<BusEvent>, ev: BusEvent)
    requires Unfinished(cap, pre) && ev.Delivered?
    ensures AllDelivered(pre + [ev])
    ensures var total, got := pre[0].frame.FfLength(), BytesOf(pre, 6 + 7 * (|pre| - 1));
            var c := Min(7, total - |got|);
            && (|pre| == CfCount(total) <==> |got| + 7 >= total)
            && got + ev.frame.data[1..1 + c] == BytesOf(pre + [ev], |got| + c)
  {
    var total, held := pre[0].frame.FfLength(), 6 + 7 * (|pre| - 1);
    LastCf(total, |pre|);
    BytesExtend(pre, ev, Min(7, total - held));
  }

  /** The frame that continues the transfer is appended, and finishes it exactly when it is the last. */
  lemma {:induction false} NextCfExtends(addr: Address, cap: nat, pre: seq<BusEvent>, ev: BusEvent)
    requires Unfinished(cap, pre) && ev.Delivered? && !Foreign(addr.rxId, ev) && InProgress(cap, pre + [ev])
    ensures var a, total := pre + [ev], pre[0].frame.FfLength();
            var v := RxStep(addr, cap, StateOf(cap, pre), ev).verdict;
            if |pre| == CfCount(total) then total <= 6 + 7 * |pre| && v == Complete(BytesOf(a, total))
            else 6 + 7 * |pre| < total && v == Waiting(Receiving(total, BytesOf(a, 6 + 7 * |pre|), |a| % 16, ev.after + N_CR_MS))
  {
    InProgressExtends(cap, pre, ev);
    NextChunk(cap, pre, ev);
    LastCf(pre[0].frame.FfLength(), |pre|);
    ExpectedCf(addr, cap, StateOf(cap, pre), ev);
  }

  lemma {:induction false} ReceivingMirrors(addr: Address, cap: nat, pre: seq<BusEvent>, ev: BusEvent)
    requires Unfinished(cap, pre) && !Foreign(addr.rxId, ev)
    ensures Mirrors(cap, pre, ev, RxStep(addr, cap, StateOf(cap, pre), ev).verdict)
  {
    var a := pre + [ev];
    assert a[0] == pre[0] && a[|pre|] == ev;
    if InProgress(cap, a) {
      NextCfExtends(addr, cap, pre, ev);
    } else {
      StrayEndsTransfer(addr, cap, pre, ev);
    }
  }

  // ---------- complete transfers are accepted ----------

  lemma {:induction false} RunCons(addr: Address, cap: nat, st: RxState, ev: BusEvent, rest: seq<BusEvent>) returns (o: RxOutcome)
    requires Sane(cap, st)
    ensures o == RxStep(addr, cap, st, ev)
    ensures RxRun(addr, cap, st, [ev] + rest) == After(addr, cap, o, rest)
  {
    o := RxStep(addr, cap, st, ev);
    assert ([ev] + rest)[1..] == rest;
  }

  /** The result of `x` followed by `y`. */
  function Then(addr: Address, cap: nat, rx: RxResult, y: seq<BusEvent>): RxResult
    requires rx.verdict.Waiting? ==> Sane(cap, rx.verdict.state)
  {
    if rx.verdict.Waiting? then
      var ry := RxRun(addr, cap, rx.verdict.state, y);
      RxResult(ry.verdict, rx.consumed + ry.consumed, rx.flow + ry.flow)
    else rx
  }

  lemma {:induction false} RunAppend(addr: Address, cap: nat, st: RxState, x: seq<BusEvent>, y: seq<BusEvent>)
    requires Sane(cap, st)
    ensures RxRun(addr, cap, st, x + y) == Then(addr, cap, RxRun(addr, cap, st, x), y)
    decreases |x|
  {
    if x == [] {
      assert x + y == y;
      var ry := RxRun(addr, cap, st, y);
      assert [] + ry.flow == ry.flow;
    } else {
      var o := RunCons(addr, cap, st, x[0], x[1..]);
      var o' := RunCons(addr, cap, st, x[0], x[1..] + y);
      assert [x[0]] + x[1..] == x && [x[0]] + (x[1..] + y) == x + y;
      if o.verdict.Waiting? {
        RunAppend(addr, cap, o.verdict.state, x[1..], y);
        ThenAfter(addr, cap, o, x[1..], y);
      }
    }
  }

  lemma {:induction false} ThenAfter(addr: Address, cap: nat, o: RxOutcome, x: seq<BusEvent>, y: seq<BusEvent>)
    requires o.verdict.Waiting? && Sane(cap, o.verdict.state)
    requires RxRun(addr, cap, o.verdict.state, x + y) == Then(addr, cap, RxRun(addr, cap, o.verdict.state, x), y)
    ensures After(addr, cap, o, x + y) == Then(addr, cap, After(addr, cap, o, x), y)
  {
    var r := RxRun(addr, cap, o.verdict.state, x);
    if r.verdict.Waiting? {
      AppendAssoc(o.flow, r.flow, RxRun(addr, cap, r.verdict.state, y).flow);
    }
  }

  /** One event more, read in state `st`. */
  lemma {:induction false} RunSnoc(addr: Address, cap: nat, pre: seq<BusEvent>, ev: BusEvent, st: RxState)
    requires Sane(cap, st) && RxRun(addr, cap, Idle, pre).verdict == Waiting(st)
    ensures var r, o := RxRun(addr, cap, Idle, pre + [ev]), RxStep(addr, cap, st, ev);
            && r.verdict == o.verdict
            && r.consumed == |pre| + 1
            && r.flow == RxRun(addr, cap, Idle, pre).flow + o.flow
  {
    RunAppend(addr, cap, Idle, pre, [ev]);
    RunSingle(addr, cap, st, ev);
  }

  /** Flow Control is sent for a First Frame and for nothing else. */
  lemma {:induction false} FlowOfStep(addr: Address, cap: nat, st: RxState, ev: BusEvent)
    requires Sane(cap, st)
    ensures var o := RxStep(addr, cap, st, ev);
            o.flow == if st.Idle? && o.verdict.Waiting? && o.verdict.state.Receiving? then [FlowControl(addr.txId)] else []
  {
  }

  /** A truncated transfer leaves the receiver holding it. */
  lemma {:induction false} UnfinishedRun(addr: Address, cap: nat, a: seq<BusEvent>)
    requires Unfinished(cap, a) && NoForeign(addr.rxId, a)
    ensures RxRun(addr, cap, Idle, a).verdict == Waiting(StateOf(cap, a))
    ensures RxRun(addr, cap, Idle, a).flow == [FlowControl(addr.txId)]
    decreases |a|
  {
    LastOf(a);
    if |a| == 1 {
      UnfinishedFirst(addr, cap, a[0]);
      assert [] + [a[0]] == [a[0]];
    } else {
      var n := |a| - 1;
      UnfinishedPrefix(cap, a, n);
      UnfinishedRun(addr, cap, a[..n]);
      UnfinishedNext(addr, cap, a[..n], a[n]);
    }
  }

  lemma {:induction false} UnfinishedFirst(addr: Address, cap: nat, ev: BusEvent)
    requires Unfinished(cap, [ev]) && !Foreign(addr.rxId, ev)
    ensures RxRun(addr, cap, Idle, [ev]).verdict == Waiting(StateOf(cap, [ev]))
    ensures RxRun(addr, cap, Idle, [ev]).flow == [FlowControl(addr.txId)]
  {
    IdleMirrors(addr, cap, ev);
    FlowOfStep(addr, cap, Idle, ev);
    assert [] + [ev] == [ev];
    RunSingle(addr, cap, Idle, ev);
  }

  lemma {:induction false} UnfinishedNext(addr: Address, cap: nat, pre: seq<BusEvent>, ev: BusEvent)
    requires Unfinished(cap, pre) && Unfinished(cap, pre + [ev]) && !Foreign(addr.rxId, ev)
    requires RxRun(addr, cap, Idle, pre).verdict == Waiting(StateOf(cap, pre))
    ensures var r := RxRun(addr, cap, Idle, pre + [ev]);
            r.verdict == Waiting(StateOf(cap, pre + [ev])) && r.flow == RxRun(addr, cap, Idle, pre).flow
  {
    ReceivingMirrors(addr, cap, pre, ev);
    FlowOfStep(addr, cap, StateOf(cap, pre), ev);
    RunSnoc(addr, cap, pre, ev, StateOf(cap, pre));
  }

  lemma {:induction false} RunSingle(addr: Address, cap: nat, st: RxState, ev: BusEvent)
    requires Sane(cap, st)
    ensures RxRun(addr, cap, st, [ev]).verdict == RxStep(addr, cap, st, ev).verdict
    ensures RxRun(addr, cap, st, [ev]).consumed == 1
    ensures RxRun(addr, cap, st, [ev]).flow == RxStep(addr, cap, st, ev).flow
  {
    assert [ev][1..] == [];
  }

  lemma {:induction false} UnfinishedPrefix(cap: nat, a: seq<BusEvent>, k: nat)
    requires InProgress(cap, a) && 1 <= k < |a| && |a| <= 1 + CfCount(a[0].frame.FfLength())
    ensures Unfinished(cap, a[..k])
  {
    var p := a[..k];
    forall i | 1 <= i < k
      ensures TimelyCf(p, i)
    {
      assert TimelyCf(a, i) && p[i] == a[i] && p[i - 1] == a[i - 1];
    }
  }

  /** A complete, timely transfer that finds the receiver idle is delivered by its last frame. */
  lemma {:induction false} TransferCompletes(addr: Address, cap: nat, a: seq<BusEvent>)
    requires IsTransfer(cap, a) && NoForeign(addr.rxId, a)
    ensures var r := RxRun(addr, cap, Idle, a);
            && r.verdict == Complete(MessageOf(cap, a))
            && r.consumed == |a|
            && r.flow == if |a| == 1 then [] else [FlowControl(addr.txId)]
  {
    var pre, ev := a[..|a| - 1], a[|a| - 1];
    assert a == pre + [ev];
    if pre == [] {
      IdleMirrors(addr, cap, ev);
      FlowOfStep(addr, cap, Idle, ev);
      assert [] + [ev] == a;
      RunSingle(addr, cap, Idle, ev);
    } else {
      UnfinishedPrefix(cap, a, |a| - 1);
      UnfinishedRun(addr, cap, pre);
      ReceivingMirrors(addr, cap, pre, ev);
      FlowOfStep(addr, cap, StateOf(cap, pre), ev);
      RunSnoc(addr, cap, pre, ev, StateOf(cap, pre));
    }
  }

  // ---------- other traffic does not matter ----------

  /** Two runs, over all events and over the addressed ones, end alike and leave the same addressed events. */
  ghost predicate Agree(id: nat, evs: seq<BusEvent>, r: RxResult, q: RxResult) {
    && r.consumed <= |evs| && q.consumed <= |Addressed(id, evs)|
    && r.verdict == q.verdict && r.flow == q.flow
    && Addressed(id, evs[r.consumed..]) == Addressed(id, evs)[q.consumed..]
  }

  lemma {:induction false} AgreeAfterForeign(id: nat, ev: BusEvent, rest: seq<BusEvent>, r: RxResult, q: RxResult)
    requires Foreign(id, ev) && Agree(id, rest, r, q)
    ensures Agree(id, [ev] + rest, RxResult(r.verdict, r.consumed + 1, [] + r.flow), q)
  {
    assert ([ev] + rest)[1..] == rest;
    TailOfCons(ev, rest, r.consumed);
    assert [] + r.flow == r.flow;
  }

  lemma {:induction false} AgreeAfterAddressed(id: nat, ev: BusEvent, rest: seq<BusEvent>, flow: seq<Frame>, r: RxResult, q: RxResult)
    requires !Foreign(id, ev) && Agree(id, rest, r, q)
    ensures Agree(id, [ev] + rest, RxResult(r.verdict, r.consumed + 1, flow + r.flow), RxResult(q.verdict, q.consumed + 1, flow + q.flow))
  {
    assert ([ev] + rest)[1..] == rest;
    TailOfCons(ev, rest, r.consumed);
    TailOfCons(ev, Addressed(id, rest), q.consumed);
  }

  lemma {:induction false} AgreeAtEnd(id: nat, ev: BusEvent, rest: seq<BusEvent>, v: Verdict, flow: seq<Frame>)
    requires !Foreign(id, ev)
    ensures Agree(id, [ev] + rest, RxResult(v, 1, flow), RxResult(v, 1, flow))
  {
    assert ([ev] + rest)[1..] == rest;
    TailOfCons(ev, Addressed(id, rest), 0);
  }

  /** Frames with other identifiers change neither the verdict, nor the Flow Control sent, nor what is left to read. */
  lemma {:induction false} ForeignTrafficInvisible(addr: Address, cap: nat, st: RxState, evs: seq<BusEvent>)
    requires Sane(cap, st)
    ensures Agree(addr.rxId, evs, RxRun(addr, cap, st, evs), RxRun(addr, cap, st, Addressed(addr.rxId, evs)))
    decreases |evs|
  {
    if evs != [] {
      var ev, rest := evs[0], evs[1..];
      assert evs == [ev] + rest;
      var o := RxStep(addr, cap, st, ev);
      if Foreign(addr.rxId, ev) {
        ForeignTrafficInvisible(addr, cap, st, rest);
        ForeignFirst(addr, cap, st, ev, rest);
      } else {
        if o.verdict.Waiting? {
          ForeignTrafficInvisible(addr, cap, o.verdict.state, rest);
        }
        AddressedFirst(addr, cap, st, ev, rest);
      }
    }
  }

  lemma {:induction false} ForeignFirst(addr: Address, cap: nat, st: RxState, ev: BusEvent, rest: seq<BusEvent>)
    requires Sane(cap, st) && Foreign(addr.rxId, ev)
    requires Agree(addr.rxId, rest, RxRun(addr, cap, st, rest), RxRun(addr, cap, st, Addressed(addr.rxId, rest)))
    ensures Agree(addr.rxId, [ev] + rest, RxRun(addr, cap, st, [ev] + rest), RxRun(addr, cap, st, Addressed(addr.rxId, [ev] + rest)))
  {
    var a := Addressed(addr.rxId, rest);
    var o := RunCons(addr, cap, st, ev, rest);
    assert Addressed(addr.rxId, [ev] + rest) == a by {
      assert ([ev] + rest)[1..] == rest;
    }
    AgreeAfterForeign(addr.rxId, ev, rest, RxRun(addr, cap, st, rest), RxRun(addr, cap, st, a));
  }

  lemma {:induction false} AddressedFirst(addr: Address, cap: nat, st: RxState, ev: BusEvent, rest: seq<BusEvent>)
    requires Sane(cap, st) && !Foreign(addr.rxId, ev)
    requires var v := RxStep(addr, cap, st, ev).verdict;
             v.Waiting? ==> Agree(addr.rxId, rest, RxRun(addr, cap, v.state, rest), RxRun(addr, cap, v.state, Addressed(addr.rxId, rest)))
    ensures Agree(addr.rxId, [ev] + rest, RxRun(addr, cap, st, [ev] + rest), RxRun(addr, cap, st, Addressed(addr.rxId, [ev] + rest)))
  {
    var a := Addressed(addr.rxId, rest);
    var o := RunCons(addr, cap, st, ev, rest);
    var o' := RunCons(addr, cap, st, ev, a);
    assert Addressed(addr.rxId, [ev] + rest) == [ev] + a by {
      assert ([ev] + rest)[1..] == rest;
    }
    if o.verdict.Waiting? {
      var st' := o.verdict.state;
      AgreeAfterAddressed(addr.rxId, ev, rest, o.flow, RxRun(addr, cap, st', rest), RxRun(addr, cap, st', a));
    } else {
      AgreeAtEnd(addr.rxId, ev, rest, o.verdict, o.flow);
    }
  }

  // ---------- what the receiver discards ----------

  /** Outside a reassembly, a frame that starts nothing is skipped. */
  predicate Skipped(cap: nat, ev: BusEvent) {
    ev.Delivered? && !GoodSf(cap, ev.frame) && !GoodFf(cap, ev.frame)
  }

  /** The first `k` events begin a transfer, and the next one, in time and no Consecutive Frame, drops it. */
  predicate CutShort(cap: nat, a: seq<BusEvent>, k: nat) {
    && 1 <= k < |a|
    && Unfinished(cap, a[..k])
    && a[k].Delivered? && a[k].frame.Pci() != PCI_CF
    && a[k - 1].Delivered? && a[k].before <= a[k - 1].after + 1000
  }

  /** Skipped frames, and transfers cut short together with the frame that does it. */
  ghost predicate Discarded(cap: nat, a: seq<BusEvent>)
    decreases |a|
  {
    || a == []
    || (Skipped(cap, a[0]) && Discarded(cap, a[1..]))
    || exists k: nat {:trigger CutShort(cap, a, k)} :: CutShort(cap, a, k) && Discarded(cap, a[k + 1..])
  }

  lemma {:induction false} CutShortPrefix(cap: nat, x: seq<BusEvent>, y: seq<BusEvent>, k: nat)
    requires k < |x|
    ensures CutShort(cap, x + y, k) <==> CutShort(cap, x, k)
    ensures (x + y)[k + 1..] == x[k + 1..] + y
  {
    assert (x + y)[..k] == x[..k];
  }

  lemma {:induction false} DiscardedAppend(cap: nat, x: seq<BusEvent>, y: seq<BusEvent>)
    requires Discarded(cap, x) && Discarded(cap, y)
    ensures Discarded(cap, x + y)
    decreases |x|
  {
    if x == [] {
      assert x + y == y;
    } else if Skipped(cap, x[0]) && Discarded(cap, x[1..]) {
      DiscardedAppend(cap, x[1..], y);
      assert (x + y)[1..] == x[1..] + y;
    } else {
      var k: nat :| CutShort(cap, x, k) && Discarded(cap, x[k + 1..]);
      DiscardedAppend(cap, x[k + 1..], y);
      CutShortPrefix(cap, x, y, k);
    }
  }

  /** After events that leave the receiver idle, it goes on as from the start. */
  lemma {:induction false} IdleThen(addr: Address, cap: nat, x: seq<BusEvent>, y: seq<BusEvent>)
    requires RxRun(addr, cap, Idle, x).verdict == Waiting(Idle)
    ensures var r, q := RxRun(addr, cap, Idle, x + y), RxRun(addr, cap, Idle, y);
            r.verdict == q.verdict && r.consumed == |x| + q.consumed
  {
    RunAppend(addr, cap, Idle, x, y);
  }

  lemma {:induction false} SkippedRun(addr: Address, cap: nat, ev: BusEvent)
    requires Skipped(cap, ev) && !Foreign(addr.rxId, ev)
    ensures RxRun(addr, cap, Idle, [ev]).verdict == Waiting(Idle) && Discarded(cap, [ev])
  {
    RunSingle(addr, cap, Idle, ev);
    assert [ev][1..] == [];
  }

  /** The outcome of a transfer begun by the first `k` events is decided by the next. */
  lemma {:induction false} HeldThen(addr: Address, cap: nat, a: seq<BusEvent>, k: nat)
    requires NoForeign(addr.rxId, a) && k < |a| && Unfinished(cap, a[..k])
    ensures var v, r := RxStep(addr, cap, StateOf(cap, a[..k]), a[k]).verdict, RxRun(addr, cap, Idle, a[..k + 1]);
            r.verdict == v && r.consumed == k + 1 && Mirrors(cap, a[..k], a[k], v)
  {
    var st := StateOf(cap, a[..k]);
    NextPrefix(a, k);
    UnfinishedRun(addr, cap, a[..k]);
    RunSnoc(addr, cap, a[..k], a[k], st);
    ReceivingMirrors(addr, cap, a[..k], a[k]);
  }

  lemma {:induction false} CutShortRun(addr: Address, cap: nat, a: seq<BusEvent>, k: nat)
    requires NoForeign(addr.rxId, a) && k < |a| && Unfinished(cap, a[..k])
    ensures CutShort(cap, a, k) <==> RxRun(addr, cap, Idle, a[..k + 1]).verdict == Waiting(Idle)
    ensures CutShort(cap, a, k) ==> Discarded(cap, a[..k + 1])
  {
    HeldThen(addr, cap, a, k);
    assert a[..k][k - 1] == a[k - 1];
    if CutShort(cap, a, k) {
      var x := a[..k + 1];
      CutShortPrefix(cap, x, a[k + 1..], k);
      SplitAt(a, k + 1);
      assert x[k + 1..] == [];
      assert CutShort(cap, x, k) && Discarded(cap, x[k + 1..]);
    }
  }

  lemma {:induction false} DiscardedRun(addr: Address, cap: nat, a: seq<BusEvent>)
    requires NoForeign(addr.rxId, a) && Discarded(cap, a)
    ensures RxRun(addr, cap, Idle, a).verdict == Waiting(Idle)
    decreases |a|
  {
    if a != [] {
      var j: nat := 1;
      if Skipped(cap, a[0]) && Discarded(cap, a[1..]) {
        SkippedRun(addr, cap, a[0]);
        assert a[..1] == [a[0]];
      } else {
        var k: nat :| CutShort(cap, a, k) && Discarded(cap, a[k + 1..]);
        CutShortRun(addr, cap, a, k);
        j := k + 1;
      }
      DiscardedRun(addr, cap, a[j..]);
      IdleThen(addr, cap, a[..j], a[j..]);
      SplitAt(a, j);
    }
  }

  // ---------- how a call ends ----------

  /** The last event is read with nothing pending, or in the middle of a transfer. */
  predicate PendingBefore(cap: nat, x: seq<BusEvent>) {
    |x| == 1 || (|x| > 1 && Unfinished(cap, x[..|x| - 1]))
  }

  /** Ends a call that has nothing pending with an error: the bus fails, or the Flow Control for a First Frame does. */
  predicate FailsFirst(cap: nat, ev: BusEvent) {
    ev.Broken? || (ev.Delivered? && GoodFf(cap, ev.frame) && !ev.fcSent)
  }

  /**
   * Ends a call in the middle of the transfer begun by `pre`: the bus fails, a frame comes too late,
   * or a Consecutive Frame has not the number of its place.
   */
  predicate FailsAfter(pre: seq<BusEvent>, ev: BusEvent)
    requires pre != [] && pre[|pre| - 1].Delivered?
  {
    || ev.Broken?
    || (ev.Delivered? && ev.before > pre[|pre| - 1].after + 1000)
    || (ev.Delivered? && ev.frame.Pci() == PCI_CF && ev.frame.Low() != |pre| % 16)
  }

  predicate Fails(cap: nat, x: seq<BusEvent>) {
    && PendingBefore(cap, x)
    && if |x| == 1 then FailsFirst(cap, x[0]) else FailsAfter(x[..|x| - 1], x[|x| - 1])
  }

  /** Read from idle, the events of `x` end the call with the last of them, and with this verdict. */
  predicate Decides(cap: nat, x: seq<BusEvent>, v: Verdict) {
    match v
    case Complete(msg) => IsTransfer(cap, x) && msg == MessageOf(cap, x)
    case Aborted => Fails(cap, x)
    case Signalled => PendingBefore(cap, x) && x[|x| - 1].Interrupted?
    case Waiting(_) => false
  }

  /** The trace begins with `x`, which is discarded, and `t`, which decides. */
  ghost predicate EndsWith(cap: nat, a: seq<BusEvent>, x: seq<BusEvent>, t: seq<BusEvent>, v: Verdict) {
    x + t <= a && Discarded(cap, x) && Decides(cap, t, v)
  }

  /** Discarded events, then events that decide, and then anything. */
  ghost predicate Ends(cap: nat, a: seq<BusEvent>, v: Verdict) {
    exists x: seq<BusEvent>, t: seq<BusEvent> :: EndsWith(cap, a, x, t, v)
  }

  /** What an event that ends or drops the transfer in hand makes of it. */
  lemma {:induction false} LastStep(addr: Address, cap: nat, pre: seq<BusEvent>, ev: BusEvent)
    requires Unfinished(cap, pre) && !Foreign(addr.rxId, ev)
    ensures var v := RxStep(addr, cap, StateOf(cap, pre), ev).verdict;
            && (v == Aborted <==> FailsAfter(pre, ev))
            && (v == Signalled <==> ev.Interrupted?)
  {
  }

  /** What an event makes of a call with nothing pending. */
  lemma {:induction false} FirstStep(addr: Address, cap: nat, ev: BusEvent)
    requires !Foreign(addr.rxId, ev)
    ensures var v := RxStep(addr, cap, Idle, ev).verdict;
            && (v == Aborted <==> FailsFirst(cap, ev))
            && (v == Signalled <==> ev.Interrupted?)
            && (v == Waiting(Idle) <==> Skipped(cap, ev))
  {
  }

  lemma {:induction false} FirstDecides(addr: Address, cap: nat, ev: BusEvent)
    requires !Foreign(addr.rxId, ev)
    ensures var v := RxStep(addr, cap, Idle, ev).verdict; !v.Waiting? ==> Decides(cap, [ev], v)
  {
    FirstStep(addr, cap, ev);
    IdleMirrors(addr, cap, ev);
    assert [] + [ev] == [ev];
  }

  lemma {:induction false} LastDecides(addr: Address, cap: nat, pre: seq<BusEvent>, ev: BusEvent)
    requires Unfinished(cap, pre) && !Foreign(addr.rxId, ev)
    ensures var v := RxStep(addr, cap, StateOf(cap, pre), ev).verdict; !v.Waiting? ==> Decides(cap, pre + [ev], v)
  {
    LastStep(addr, cap, pre, ev);
    ReceivingMirrors(addr, cap, pre, ev);
    assert (pre + [ev])[..|pre|] == pre;
  }

  /** Events that decide are read to the last, and to that verdict. */
  lemma {:induction false} DecidesRun(addr: Address, cap: nat, x: seq<BusEvent>, v: Verdict)
    requires NoForeign(addr.rxId, x) && Decides(cap, x, v)
    ensures RxRun(addr, cap, Idle, x).verdict == v && RxRun(addr, cap, Idle, x).consumed == |x|
  {
    if v.Complete? {
      TransferCompletes(addr, cap, x);
    } else if |x| == 1 {
      FirstStep(addr, cap, x[0]);
      RunSingle(addr, cap, Idle, x[0]);
      assert x == [x[0]];
    } else {
      var n := |x| - 1;
      HeldThen(addr, cap, x, n);
      LastStep(addr, cap, x[..n], x[n]);
      assert x[..n + 1] == x;
    }
  }

  /** How far a transfer gets that the first `j` events begin. */
  lemma {:induction false} LongestHeld(cap: nat, a: seq<BusEvent>, j: nat) returns (k: nat)
    requires 1 <= j <= |a| && Unfinished(cap, a[..j])
    ensures 1 <= k <= |a| && Unfinished(cap, a[..k]) && (k < |a| ==> !Unfinished(cap, a[..k + 1]))
    decreases |a| - j
  {
    k := j;
    if j < |a| && Unfinished(cap, a[..j + 1]) {
      k := LongestHeld(cap, a, j + 1);
    }
  }

  /** The events after `a[..j]` are read from idle again; `j == 0` if the call ends, or goes on, in the middle of things. */
  ghost predicate CutAt(addr: Address, cap: nat, a: seq<BusEvent>, j: nat) {
    var r := RxRun(addr, cap, Idle, a);
    && j <= |a|
    && if j > 0 then RxRun(addr, cap, Idle, a[..j]).verdict == Waiting(Idle) && Discarded(cap, a[..j])
       else r.verdict != Waiting(Idle) && (!r.verdict.Waiting? ==> Decides(cap, a[..r.consumed], r.verdict))
  }

  lemma {:induction false} FirstCut(addr: Address, cap: nat, a: seq<BusEvent>) returns (j: nat)
    requires NoForeign(addr.rxId, a) && a != []
    ensures CutAt(addr, cap, a, j)
  {
    IdleMirrors(addr, cap, a[0]);
    assert [] + [a[0]] == a[..1] && [a[0]] == a[..1];
    if Skipped(cap, a[0]) {
      SkippedRun(addr, cap, a[0]);
      j := 1;
    } else if Unfinished(cap, a[..1]) {
      j := HeldCut(addr, cap, a);
    } else {
      FirstEnds(addr, cap, a);
      j := 0;
    }
  }

  lemma {:induction false} HeldCut(addr: Address, cap: nat, a: seq<BusEvent>) returns (j: nat)
    requires NoForeign(addr.rxId, a) && a != [] && Unfinished(cap, a[..1])
    ensures CutAt(addr, cap, a, j)
  {
    var n := LongestHeld(cap, a, 1);
    j := 0;
    if n == |a| {
      HeldToTheEnd(addr, cap, a);
    } else {
      CutShortRun(addr, cap, a, n);
      if CutShort(cap, a, n) {
        j := n + 1;
      } else {
        HeldEnds(addr, cap, a, n);
      }
    }
  }

  lemma {:induction false} FirstEnds(addr: Address, cap: nat, a: seq<BusEvent>)
    requires NoForeign(addr.rxId, a) && a != [] && !Skipped(cap, a[0]) && !Unfinished(cap, a[..1])
    ensures CutAt(addr, cap, a, 0)
  {
    FirstStep(addr, cap, a[0]);
    FirstDecides(addr, cap, a[0]);
    IdleMirrors(addr, cap, a[0]);
    RunSingle(addr, cap, Idle, a[0]);
    assert [] + [a[0]] == a[..1] && a[..1] == [a[0]];
    DecidedRun(addr, cap, a, 1);
  }

  lemma {:induction false} HeldEnds(addr: Address, cap: nat, a: seq<BusEvent>, n: nat)
    requires NoForeign(addr.rxId, a) && n < |a| && Unfinished(cap, a[..n]) && !Unfinished(cap, a[..n + 1]) && !CutShort(cap, a, n)
    ensures CutAt(addr, cap, a, 0)
  {
    HeldThen(addr, cap, a, n);
    CutShortRun(addr, cap, a, n);
    NextPrefix(a, n);
    LastDecides(addr, cap, a[..n], a[n]);
    DecidedRun(addr, cap, a, n + 1);
  }

  lemma {:induction false} HeldToTheEnd(addr: Address, cap: nat, a: seq<BusEvent>)
    requires NoForeign(addr.rxId, a) && Unfinished(cap, a[..|a|])
    ensures RxRun(addr, cap, Idle, a).verdict.Waiting? && RxRun(addr, cap, Idle, a).verdict.state.Receiving?
  {
    assert a[..|a|] == a;
    UnfinishedRun(addr, cap, a);
  }

  /** The events of a run that ends idle are discarded. */
  lemma {:induction false} IdleDiscarded(addr: Address, cap: nat, a: seq<BusEvent>)
    requires NoForeign(addr.rxId, a) && RxRun(addr, cap, Idle, a).verdict == Waiting(Idle)
    ensures Discarded(cap, a)
    decreases |a|
  {
    if a != [] {
      var j := FirstCut(addr, cap, a);
      SplitAt(a, j);
      IdleThen(addr, cap, a[..j], a[j..]);
      IdleDiscarded(addr, cap, a[j..]);
      DiscardedAppend(cap, a[..j], a[j..]);
    }
  }

  /** What follows the end of a run is not read. */
  lemma {:induction false} DecidedRun(addr: Address, cap: nat, a: seq<BusEvent>, n: nat)
    requires n <= |a| && !RxRun(addr, cap, Idle, a[..n]).verdict.Waiting?
    ensures RxRun(addr, cap, Idle, a) == RxRun(addr, cap, Idle, a[..n])
  {
    SplitAt(a, n);
    RunAppend(addr, cap, Idle, a[..n], a[n..]);
  }

  /** A call that ends has discarded what comes before the events that decide. */
  lemma {:induction false} EndOf(addr: Address, cap: nat, a: seq<BusEvent>) returns (x: seq<BusEvent>, t: seq<BusEvent>)
    requires NoForeign(addr.rxId, a) && !RxRun(addr, cap, Idle, a).verdict.Waiting?
    ensures EndsWith(cap, a, x, t, RxRun(addr, cap, Idle, a).verdict)
    ensures |x| + |t| == RxRun(addr, cap, Idle, a).consumed
    decreases |a|
  {
    var j := FirstCut(addr, cap, a);
    if j == 0 {
      x, t := [], a[..RxRun(addr, cap, Idle, a).consumed];
      assert x + t == t;
    } else {
      SplitAt(a, j);
      IdleThen(addr, cap, a[..j], a[j..]);
      x, t := EndOf(addr, cap, a[j..]);
      DiscardedAppend(cap, a[..j], x);
      AppendAssoc(a[..j], x, t);
      x := a[..j] + x;
    }
  }

  /** The receiver is still idle after exactly the traces that it discards. */
  lemma {:induction false} IdleExactly(addr: Address, cap: nat, a: seq<BusEvent>)
    requires NoForeign(addr.rxId, a)
    ensures RxRun(addr, cap, Idle, a).verdict == Waiting(Idle) <==> Discarded(cap, a)
  {
    if Discarded(cap, a) {
      DiscardedRun(addr, cap, a);
    } else if RxRun(addr, cap, Idle, a).verdict == Waiting(Idle) {
      IdleDiscarded(addr, cap, a);
    }
  }

  lemma {:induction false} DiscardedThenDecides(addr: Address, cap: nat, x: seq<BusEvent>, y: seq<BusEvent>, v: Verdict)
    requires NoForeign(addr.rxId, x) && Discarded(cap, x) && NoForeign(addr.rxId, y) && Decides(cap, y, v)
    ensures RxRun(addr, cap, Idle, x + y).verdict == v && RxRun(addr, cap, Idle, x + y).consumed == |x| + |y|
  {
    DiscardedRun(addr, cap, x);
    DecidesRun(addr, cap, y, v);
    IdleThen(addr, cap, x, y);
  }

  /** Events that decide after discarded ones end the call there, whatever comes after them. */
  lemma {:induction false} EndsRuns(addr: Address, cap: nat, a: seq<BusEvent>, x: seq<BusEvent>, t: seq<BusEvent>, v: Verdict)
    requires NoForeign(addr.rxId, a) && EndsWith(cap, a, x, t, v)
    ensures RxRun(addr, cap, Idle, a).verdict == v && RxRun(addr, cap, Idle, a).consumed == |x| + |t|
  {
    var n := |x| + |t|;
    assert a[..n] == x + t && a[..n][..|x|] == x && a[..n][|x|..] == t;
    assert NoForeign(addr.rxId, a[..n]);
    assert NoForeign(addr.rxId, x) && NoForeign(addr.rxId, t);
    DiscardedThenDecides(addr, cap, x, t, v);
    DecidedRun(addr, cap, a, n);
  }

  lemma {:induction false} AddressedExact(addr: Address, cap: nat, a: seq<BusEvent>, v: Verdict)
    requires NoForeign(addr.rxId, a) && !v.Waiting?
    ensures RxRun(addr, cap, Idle, a).verdict == v <==> Ends(cap, a, v)
  {
    if RxRun(addr, cap, Idle, a).verdict == v {
      var x, t := EndOf(addr, cap, a);
      assert EndsWith(cap, a, x, t, v);
    }
    if Ends(cap, a, v) {
      var x, t :| EndsWith(cap, a, x, t, v);
      EndsRuns(addr, cap, a, x, t, v);
    }
  }

  /**
   * How a call ends, on any bus trace: with this verdict exactly when, among the addressed events,
   * discarded ones are followed by events that decide so. `Decides` gives the three ways.
   */
  lemma {:induction false} EndingExact(addr: Address, cap: nat, evs: seq<BusEvent>, v: Verdict)
    requires !v.Waiting?
    ensures RxRun(addr, cap, Idle, evs).verdict == v <==> Ends(cap, Addressed(addr.rxId, evs), v)
  {
    ForeignTrafficInvisible(addr, cap, Idle, evs);
    AddressedExact(addr, cap, Addressed(addr.rxId, evs), v);
  }

  /** A call is interrupted exactly if the last event it reads is an interruption. */
  lemma {:induction false} SignalledExact(addr: Address, cap: nat, st: RxState, evs: seq<BusEvent>)
    requires Sane(cap, st)
    ensures var r := RxRun(addr, cap, st, evs);
            r.verdict == Signalled <==> r.consumed >= 1 && evs[r.consumed - 1].Interrupted?
    decreases |evs|
  {
    if evs != [] {
      var o := RxStep(addr, cap, st, evs[0]);
      assert o.verdict == Signalled <==> evs[0].Interrupted?;
      if o.verdict.Waiting? {
        SignalledExact(addr, cap, o.verdict.state, evs[1..]);
      }
    }
  }

  /** After `a[..k]`, which is discarded, the events `a[k..n]` are a transfer of `msg`. */
  ghost predicate AcceptedAt(cap: nat, a: seq<BusEvent>, k: nat, n: nat, msg: seq<byte>) {
    && k < n <= |a|
    && Discarded(cap, a[..k])
    && IsTransfer(cap, a[k..n])
    && msg == MessageOf(cap, a[k..n])
  }

  /** A returned message comes from a transfer that ends with the last event read and follows discarded events. */
  lemma {:induction false} AcceptedFrom(addr: Address, cap: nat, a: seq<BusEvent>) returns (k: nat, n: nat)
    requires NoForeign(addr.rxId, a) && RxRun(addr, cap, Idle, a).verdict.Complete?
    ensures n == RxRun(addr, cap, Idle, a).consumed
    ensures AcceptedAt(cap, a, k, n, RxRun(addr, cap, Idle, a).verdict.msg)
  {
    var x, t := EndOf(addr, cap, a);
    k, n := |x|, |x| + |t|;
    assert a[..k] == x && a[k..n] == t;
  }

  /** Discarded events, a complete timely transfer of `msg`, and then anything. */
  ghost predicate Accepts(cap: nat, a: seq<BusEvent>, msg: seq<byte>) {
    exists k: nat, n: nat :: AcceptedAt(cap, a, k, n, msg)
  }

  lemma {:induction false} AcceptsIsEnds(cap: nat, a: seq<BusEvent>, msg: seq<byte>)
    ensures Accepts(cap, a, msg) <==> Ends(cap, a, Complete(msg))
  {
    if Accepts(cap, a, msg) {
      var k: nat, n: nat :| AcceptedAt(cap, a, k, n, msg);
      assert a[..k] + a[k..n] == a[..n];
      assert EndsWith(cap, a, a[..k], a[k..n], Complete(msg));
    }
    if Ends(cap, a, Complete(msg)) {
      var x, t :| EndsWith(cap, a, x, t, Complete(msg));
      assert a[..|x|] == x && a[|x|..|x| + |t|] == t;
      assert AcceptedAt(cap, a, |x|, |x| + |t|, msg);
    }
  }

  /**
   * Acceptance, both directions, on any bus trace: the receiver returns `msg` exactly when, among
   * the addressed events, discarded ones are followed by a complete timely transfer of `msg`.
   */
  lemma {:induction false} AcceptanceExact(addr: Address, cap: nat, evs: seq<BusEvent>, msg: seq<byte>)
    ensures RxRun(addr, cap, Idle, evs).verdict == Complete(msg) <==> Accepts(cap, Addressed(addr.rxId, evs), msg)
  {
    EndingExact(addr, cap, evs, Complete(msg));
    AcceptsIsEnds(cap, Addressed(addr.rxId, evs), msg);
  }

  /** Discarded events, then events that fail, and then anything. */
  ghost predicate CallFails(cap: nat, a: seq<BusEvent>) {
    exists x: seq<BusEvent>, t: seq<BusEvent> :: FailsWith(cap, a, x, t)
  }

  ghost predicate FailsWith(cap: nat, a: seq<BusEvent>, x: seq<BusEvent>, t: seq<BusEvent>) {
    x + t <= a && Discarded(cap, x) && Fails(cap, t)
  }

  /** A call fails exactly if, among the addressed events, discarded ones are followed by ones that fail. */
  lemma {:induction false} AbortedExact(addr: Address, cap: nat, evs: seq<BusEvent>)
    ensures RxRun(addr, cap, Idle, evs).verdict == Aborted <==> CallFails(cap, Addressed(addr.rxId, evs))
  {
    var a := Addressed(addr.rxId, evs);
    EndingExact(addr, cap, evs, Aborted);
    if Ends(cap, a, Aborted) {
      var x, t :| EndsWith(cap, a, x, t, Aborted);
      assert FailsWith(cap, a, x, t);
    }
    if CallFails(cap, a) {
      var x, t :| FailsWith(cap, a, x, t);
      assert EndsWith(cap, a, x, t, Aborted);
    }
  }
}
