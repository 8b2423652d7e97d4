/** Segmentation and reassembly together: over a faithful and a lossy channel, and after a truncated message. */
module IsoTpChannel {
  import opened Bytes
  import opened IsoTp
  import opened IsoTpAcceptance

  // ---------- the frames of a segmentation ----------

  lemma {:induction false} FrameShape(id: nat, data: seq<byte>, k: nat)
    requires 1 <= |data| <= MAX_PAYLOAD && k < FrameCount(|data|)
    ensures var f := Segment(id, data)[k];
            && (|data| <= 7 ==> f.Pci() == PCI_SF && f.Low() == |data| && f.data[1..1 + f.Low()] == data)
            && (|data| >= 8 && k == 0 ==> f.Pci() == PCI_FF && f.FfLength() == |data|)
            && (|data| >= 8 && k >= 1 ==> f.Pci() == PCI_CF && f.Low() == k % 16)
  {
    if |data| <= 7 {
      assert SingleFrame(id, data).data[1..1 + |data|] == data;
    }
  }

  /** Every frame has 8 data bytes, and those past the payload are the padding byte. */
  lemma {:induction false} SegmentPadded(id: nat, data: seq<byte>)
    requires 1 <= |data| <= MAX_PAYLOAD
    ensures var fs := Segment(id, data);
            && |fs| <= 586
            && (forall k :: 0 <= k < |fs| ==> fs[k].dlc == 8 && fs[k].canId < SFF_RANGE)
            && var used := if |data| <= 7 then 1 + |data|
                           else 1 + |data| - Covered(|data|, CfCount(|data|) - 1);
               fs[|fs| - 1].data[used..] == Zeros(8 - used)
  {
  }

  /** Every byte of the data, and after it the padding, is found at its place in the segmentation. */
  lemma {:induction false} SegmentByte(id: nat, data: seq<byte>, i: nat)
    requires 8 <= |data| <= MAX_PAYLOAD && i < 6 + 7 * CfCount(|data|)
    ensures i < |data| + 7
    ensures i >= 6 ==> 1 + (i - 6) / 7 < FrameCount(|data|)
    ensures (data + Zeros(7))[i] == if i < 6 then Segment(id, data)[0].data[2 + i]
                                    else Segment(id, data)[1 + (i - 6) / 7].data[1 + (i - 6) % 7]
  {
    if i >= 6 {
      var k := 1 + (i - 6) / 7;
      var from, to := Covered(|data|, k - 1), Covered(|data|, k);
      assert from == 6 + 7 * (k - 1) && from + (i - 6) % 7 == i;
      var f := ConsecutiveFrame(id, data, k);
      if i < to {
        assert f.data[1 + (i - from)] == data[from..to][i - from];
      } else {
        assert f.data[1 + (to - from)..] == Zeros(7 - (to - from));
        assert f.data[1 + (i - from)] == f.data[1 + (to - from)..][i - to];
      }
    }
  }

  // ---------- what the channel delivers ----------

  /** The events are exactly these frames, in order. */
  ghost predicate Carries(a: seq<BusEvent>, fs: seq<Frame>) {
    |a| == |fs| && forall i :: 0 <= i < |a| ==> a[i].Delivered? && a[i].frame == fs[i]
  }

  /** Flow Control, if the first frame asks for it, goes out; each event comes within N_Cr of the one before. */
  ghost predicate Timely(a: seq<BusEvent>) {
    && (forall i :: 0 <= i < |a| ==> a[i].Delivered?)
    && (a != [] ==> a[0].fcSent)
    && (forall i :: 1 <= i < |a| ==> a[i].before <= a[i - 1].after + 1000)
  }

  lemma {:induction false} CarriedBytes(id: nat, data: seq<byte>, a: seq<BusEvent>)
    requires 8 <= |data| <= MAX_PAYLOAD && Carries(a, Segment(id, data))
    ensures AllDelivered(a) && BytesOf(a, |data|) == data
  {
    var got := BytesOf(a, |data|);
    forall i | 0 <= i < |got|
      ensures got[i] == data[i]
    {
      SegmentByte(id, data, i);
    }
  }

  lemma {:induction false} SegmentIsTransfer(id: nat, data: seq<byte>, cap: nat, a: seq<BusEvent>)
    requires 1 <= |data| <= MAX_PAYLOAD && |data| <= cap
    requires Carries(a, Segment(id, data)) && Timely(a)
    ensures IsTransfer(cap, a) && MessageOf(cap, a) == data
  {
    FrameShape(id, data, 0);
    if |data| >= 8 {
      CarriedBytes(id, data, a);
      forall i | 1 <= i < |a|
        ensures TimelyCf(a, i)
      {
        FrameShape(id, data, i);
      }
    }
  }

  lemma {:induction false} IdleIgnoresCfs(addr: Address, cap: nat, a: seq<BusEvent>)
    requires forall i :: 0 <= i < |a| ==> a[i].Delivered? && a[i].frame.Pci() == PCI_CF
    ensures var r := RxRun(addr, cap, Idle, a); r.verdict == Waiting(Idle) && r.flow == []
  {
    if a != [] {
      IdleIgnoresCfs(addr, cap, a[1..]);
    }
  }

  lemma {:induction false} LaterFramesAreCfs(id: nat, data: seq<byte>, a: seq<BusEvent>)
    requires 1 <= |data| <= MAX_PAYLOAD && Carries(a, Segment(id, data))
    ensures forall i :: 1 <= i < |a| ==> a[i].Delivered? && a[i].frame.Pci() == PCI_CF
  {
    forall i | 1 <= i < |a|
      ensures a[i].frame.Pci() == PCI_CF
    {
      FrameShape(id, data, i);
    }
  }

  /**
   * Round trip: if the addressed traffic is the segmentation of `data`, whatever else is on the
   * bus, the receiver returns `data` if it fits and otherwise ignores it; it sends Flow Control
   * exactly once for a multi-frame message that fits, and never otherwise.
   */
  lemma {:induction false} RoundTrip(addr: Address, cap: nat, id: nat, data: seq<byte>, evs: seq<BusEvent>)
    requires 1 <= |data| <= 4095
    requires var a := Addressed(addr.rxId, evs); Carries(a, Segment(id, data)) && Timely(a)
    ensures var r := RxRun(addr, cap, Idle, evs);
            if |data| <= cap then
              && r.verdict == Complete(data)
              && r.flow == (if |data| <= 7 then [] else [FlowControl(addr.txId)])
              && Addressed(addr.rxId, evs[r.consumed..]) == []
            else r.verdict == Waiting(Idle) && r.flow == []
  {
    var a := Addressed(addr.rxId, evs);
    ForeignTrafficInvisible(addr, cap, Idle, evs);
    if |data| <= cap {
      SegmentIsTransfer(id, data, cap, a);
      TransferCompletes(addr, cap, a);
    } else {
      OversizedIgnored(addr, cap, id, data, a);
    }
  }

  /** A message longer than the receiver's buffer leaves it idle. */
  lemma {:induction false} OversizedIgnored(addr: Address, cap: nat, id: nat, data: seq<byte>, a: seq<BusEvent>)
    requires 1 <= |data| <= MAX_PAYLOAD && cap < |data|
    requires Carries(a, Segment(id, data)) && NoForeign(addr.rxId, a)
    ensures var r := RxRun(addr, cap, Idle, a); r.verdict == Waiting(Idle) && r.flow == []
  {
    FrameShape(id, data, 0);
    LaterFramesAreCfs(id, data, a);
    IdleIgnoresCfs(addr, cap, a[1..]);
  }

  // ---------- loss and duplication ----------

  /** Event `i`, if it delivers a frame, delivers frame `idx[i]`; the indices never go back. */
  ghost predicate Sampled(a: seq<BusEvent>, fs: seq<Frame>, idx: seq<nat>) {
    && |idx| == |a|
    && (forall i :: 0 <= i < |a| ==> idx[i] < |fs| && (a[i].Delivered? ==> a[i].frame == fs[idx[i]]))
    && (forall i, j :: 0 <= i < j < |a| ==> idx[i] <= idx[j])
  }

  /** Indices that never go back and agree modulo 16 with 1, 2, ... strictly increase. */
  lemma {:induction false} AtLeast(idx: seq<nat>, i: nat)
    requires i < |idx|
    requires forall i, j :: 0 <= i < j < |idx| ==> idx[i] <= idx[j]
    requires forall i :: 1 <= i < |idx| ==> idx[i] >= 1 && idx[i] % 16 == i % 16
    ensures idx[i] >= i
  {
    if i > 0 {
      AtLeast(idx, i - 1);
      assert idx[i - 1] <= idx[i];
      assert idx[i] != i - 1;
    }
  }

  lemma {:induction false} AtMost(idx: seq<nat>, i: nat)
    requires i < |idx| && idx[0] == 0 && idx[|idx| - 1] < |idx|
    requires forall i, j :: 0 <= i < j < |idx| ==> idx[i] <= idx[j]
    requires forall i :: 1 <= i < |idx| ==> idx[i] >= 1 && idx[i] % 16 == i % 16
    ensures idx[i] <= i
    decreases |idx| - i
  {
    if 0 < i < |idx| - 1 {
      AtMost(idx, i + 1);
      assert idx[i] <= idx[i + 1];
      assert idx[i] != i + 1;
    }
  }

  /** A transfer made of sampled frames is the whole segmentation, although numbers repeat every 16. */
  lemma {:induction false} SampledTransfer(cap: nat, id: nat, data: seq<byte>, t: seq<BusEvent>, idx: seq<nat>)
    requires 1 <= |data| <= MAX_PAYLOAD
    requires IsTransfer(cap, t) && Sampled(t, Segment(id, data), idx)
    ensures MessageOf(cap, t) == data
  {
    FrameShape(id, data, idx[0]);
    if |t| > 1 {
      assert idx[0] == 0;
      forall i | 1 <= i < |t|
        ensures idx[i] >= 1 && idx[i] % 16 == i % 16
      {
        assert TimelyCf(t, i);
        FrameShape(id, data, idx[i]);
      }
      forall i | 0 <= i < |t|
        ensures idx[i] == i
      {
        AtLeast(idx, i);
        AtMost(idx, i);
      }
      CarriedBytes(id, data, t);
    }
  }

  /**
   * Soundness over a faulty channel: frames of one message may be lost or repeated at will, with
   * any foreign traffic, timing and errors; if the receiver returns a message, it is that message.
   */
  lemma {:induction false} FaultyChannelSound(addr: Address, cap: nat, id: nat, data: seq<byte>, evs: seq<BusEvent>, idx: seq<nat>)
    requires 1 <= |data| <= 4095
    requires Sampled(Addressed(addr.rxId, evs), Segment(id, data), idx)
    requires RxRun(addr, cap, Idle, evs).verdict.Complete?
    ensures RxRun(addr, cap, Idle, evs).verdict.msg == data
  {
    var a := Addressed(addr.rxId, evs);
    ForeignTrafficInvisible(addr, cap, Idle, evs);
    var k, n := AcceptedFrom(addr, cap, a);
    SampledPart(a, Segment(id, data), idx, k, n);
    SampledTransfer(cap, id, data, a[k..n], idx[k..n]);
  }

  lemma {:induction false} SampledPart(a: seq<BusEvent>, fs: seq<Frame>, idx: seq<nat>, k: nat, n: nat)
    requires Sampled(a, fs, idx) && k <= n <= |a|
    ensures Sampled(a[k..n], fs, idx[k..n])
  {
  }

  // ---------- resynchronisation ----------

  lemma {:induction false} TruncatedIsUnfinished(id: nat, data: seq<byte>, cap: nat, k: nat, a: seq<BusEvent>)
    requires 8 <= |data| <= MAX_PAYLOAD && |data| <= cap && 1 <= k < FrameCount(|data|)
    requires Carries(a, Segment(id, data)[..k]) && Timely(a)
    ensures Unfinished(cap, a)
  {
    FrameShape(id, data, 0);
    assert a[0].frame == Segment(id, data)[0];
    forall i | 1 <= i < |a|
      ensures TimelyCf(a, i)
    {
      FrameShape(id, data, i);
      assert a[i].frame == Segment(id, data)[i];
    }
  }

  /**
   * The message after a truncated one is swallowed, whatever else is on the bus: its first frame only
   * drops the reassembly. If it comes too late for that, it aborts the call.
   */
  lemma {:induction false} NextMessageSwallowed(addr: Address, cap: nat, id: nat, m1: seq<byte>, k: nat, m2: seq<byte>,
                                                a1: seq<BusEvent>, a2: seq<BusEvent>, evs: seq<BusEvent>)
    requires 8 <= |m1| <= MAX_PAYLOAD && |m1| <= cap && 1 <= k < FrameCount(|m1|)
    requires 1 <= |m2| <= MAX_PAYLOAD
    requires Carries(a1, Segment(id, m1)[..k]) && Timely(a1) && Carries(a2, Segment(id, m2))
    requires Addressed(addr.rxId, evs) == a1 + a2
    ensures var inTime := a2[0].before <= a1[k - 1].after + 1000;
            RxRun(addr, cap, Idle, evs).verdict == if inTime then Waiting(Idle) else Aborted
  {
    ForeignTrafficInvisible(addr, cap, Idle, evs);
    NoForeignParts(addr.rxId, a1, a2);
    TruncatedThenNext(addr, cap, id, m1, k, m2, a1, a2);
  }

  lemma {:induction false} NoForeignParts(id: nat, x: seq<BusEvent>, y: seq<BusEvent>)
    requires NoForeign(id, x + y)
    ensures NoForeign(id, x) && NoForeign(id, y)
  {
    forall i | 0 <= i < |x|
      ensures !Foreign(id, x[i])
    {
      assert (x + y)[i] == x[i];
    }
    forall i | 0 <= i < |y|
      ensures !Foreign(id, y[i])
    {
      assert (x + y)[|x| + i] == y[i];
    }
  }

  lemma {:induction false} TruncatedThenNext(addr: Address, cap: nat, id: nat, m1: seq<byte>, k: nat, m2: seq<byte>,
                                             a1: seq<BusEvent>, a2: seq<BusEvent>)
    requires 8 <= |m1| <= MAX_PAYLOAD && |m1| <= cap && 1 <= k < FrameCount(|m1|)
    requires 1 <= |m2| <= MAX_PAYLOAD
    requires Carries(a1, Segment(id, m1)[..k]) && Timely(a1) && NoForeign(addr.rxId, a1)
    requires Carries(a2, Segment(id, m2)) && NoForeign(addr.rxId, a2)
    ensures var inTime := a2[0].before <= a1[k - 1].after + 1000;
            RxRun(addr, cap, Idle, a1 + a2).verdict == if inTime then Waiting(Idle) else Aborted
  {
    TruncatedIsUnfinished(id, m1, cap, k, a1);
    UnfinishedRun(addr, cap, a1);
    RunAppend(addr, cap, Idle, a1, a2);
    FrameShape(id, m2, 0);
    LaterFramesAreCfs(id, m2, a2);
    IdleIgnoresCfs(addr, cap, a2[1..]);
  }

  /**
   * Resynchronisation: a truncated message costs exactly the message that follows it in time;
   * the one after that is delivered exactly, by its last frame.
   */
  lemma {:induction false} Resynchronises(addr: Address, cap: nat, id: nat,
                                          m1: seq<byte>, k: nat, m2: seq<byte>, m3: seq<byte>,
                                          a1: seq<BusEvent>, a2: seq<BusEvent>, a3: seq<BusEvent>, evs: seq<BusEvent>)
    requires 8 <= |m1| <= MAX_PAYLOAD && |m1| <= cap && 1 <= k < FrameCount(|m1|)
    requires 1 <= |m2| <= MAX_PAYLOAD && 1 <= |m3| <= MAX_PAYLOAD && |m3| <= cap
    requires Carries(a1, Segment(id, m1)[..k]) && Timely(a1)
    requires Carries(a2, Segment(id, m2)) && a2[0].before <= a1[k - 1].after + 1000
    requires Carries(a3, Segment(id, m3)) && Timely(a3)
    requires Addressed(addr.rxId, evs) == a1 + a2 + a3
    ensures var r := RxRun(addr, cap, Idle, evs);
            r.verdict == Complete(m3) && Addressed(addr.rxId, evs[r.consumed..]) == []
  {
    ForeignTrafficInvisible(addr, cap, Idle, evs);
    NoForeignParts(addr.rxId, a1 + a2, a3);
    NoForeignParts(addr.rxId, a1, a2);
    TruncatedThenNext(addr, cap, id, m1, k, m2, a1, a2);
    SegmentIsTransfer(id, m3, cap, a3);
    TransferCompletes(addr, cap, a3);
    RunAppend(addr, cap, Idle, a1 + a2, a3);
  }

  // ---------- waiting for Flow Control ----------

  /** Events that keep the sender waiting: there is no limit to how many, or for how long. */
  predicate KeepsWaiting(id: nat, deadline: nat, ev: BusEvent) {
    || ev.Interrupted?
    || (ev.Delivered? && ev.frame.Id() != id && ev.before <= deadline)
    || (ev.Delivered? && ev.frame.Id() == id && ev.frame.Pci() == PCI_FC && ev.frame.Low() == FS_WAIT)
  }

  predicate ClearsToSend(id: nat, ev: BusEvent) {
    ev.Delivered? && ev.frame.Id() == id && ev.frame.Pci() == PCI_FC && ev.frame.Low() == FS_CTS
  }

  /** `n` events are read, and the last is the first one that does not keep the sender waiting. */
  ghost predicate EndsWaitAt(id: nat, deadline: nat, evs: seq<BusEvent>, n: nat) {
    && 1 <= n <= |evs|
    && (forall i :: 0 <= i < n - 1 ==> KeepsWaiting(id, deadline, evs[i]))
    && !KeepsWaiting(id, deadline, evs[n - 1])
  }

  /**
   * The wait ends exactly at the first event that does not keep it waiting, and ends well exactly if
   * that event is an addressed clear-to-send. So the deadline alone never ends it: only a frame
   * meant for somebody else makes the sender look at the clock.
   */
  lemma {:induction false} FcWaitExact(id: nat, deadline: nat, evs: seq<BusEvent>, n: nat)
    ensures FcRun(id, deadline, evs) == FcResult(FcClear, n) <==>
            EndsWaitAt(id, deadline, evs, n) && ClearsToSend(id, evs[n - 1])
    ensures FcRun(id, deadline, evs) == FcResult(FcFailed, n) <==>
            EndsWaitAt(id, deadline, evs, n) && !ClearsToSend(id, evs[n - 1])
    decreases |evs|
  {
    if evs != [] {
      assert KeepsWaiting(id, deadline, evs[0]) <==> FcStep(id, deadline, evs[0]) == FcWaiting;
      if FcStep(id, deadline, evs[0]) == FcWaiting && n >= 1 {
        FcWaitExact(id, deadline, evs[1..], n - 1);
        WaitShifts(id, deadline, evs, n);
      }
    }
  }

  lemma {:induction false} WaitShifts(id: nat, deadline: nat, evs: seq<BusEvent>, n: nat)
    requires evs != [] && KeepsWaiting(id, deadline, evs[0]) && n >= 1
    ensures EndsWaitAt(id, deadline, evs, n) <==> EndsWaitAt(id, deadline, evs[1..], n - 1)
    ensures 2 <= n <= |evs| ==> evs[n - 1] == evs[1..][n - 2]
  {
    if EndsWaitAt(id, deadline, evs, n) {
      forall i | 0 <= i < n - 2
        ensures KeepsWaiting(id, deadline, evs[1..][i])
      {
        assert evs[1..][i] == evs[i + 1];
      }
    }
    if EndsWaitAt(id, deadline, evs[1..], n - 1) {
      forall i | 0 <= i < n - 1
        ensures KeepsWaiting(id, deadline, evs[i])
      {
        assert i > 0 ==> evs[1..][i - 1] == evs[i];
      }
    }
  }

  /** After the deadline the sender goes on waiting exactly as long as it reads only signals and WAIT frames for it. */
  lemma {:induction false} OverdueWait(id: nat, deadline: nat, evs: seq<BusEvent>)
    requires forall i :: 0 <= i < |evs| ==> evs[i].Delivered? ==> evs[i].before > deadline
    ensures FcRun(id, deadline, evs).verdict == FcWaiting <==>
            forall i :: 0 <= i < |evs| ==>
              || evs[i].Interrupted?
              || (evs[i].Delivered? && evs[i].frame.Id() == id && evs[i].frame.Pci() == PCI_FC && evs[i].frame.Low() == FS_WAIT)
    decreases |evs|
  {
    if evs != [] {
      OverdueWait(id, deadline, evs[1..]);
      assert evs == [evs[0]] + evs[1..];
    }
  }
}
