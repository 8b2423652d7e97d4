/** The loops of isotp.c over arrays, proved against the step machines of `IsoTp`. */
module IsoTpCode {
  import opened Bytes
  import opened IsoTp
  import opened IsoTpAcceptance

  /** A return code, or the call is still blocked when the listed events run out. */
  datatype Code = Returned(rc: int) | Blocked

  function CodeOf(v: Verdict): Code {
    match v
    case Waiting(_) => Blocked
    case Complete(_) => Returned(0)
    case Signalled => Returned(1)
    case Aborted => Returned(-1)
  }

  /** Fills `buf[used..]` with the padding byte. */
  method FramePad(buf: array<byte>, used: nat)
    requires buf.Length == 8 && used <= 8
    modifies buf
    ensures buf[..] == old(buf[..used]) + Zeros(8 - used)
  {
    for i := used to 8
      invariant buf[..i] == old(buf[..used]) + Zeros(i - used)
    {
      buf[i] := 0;
    }
    assert buf[..] == buf[..8];
  }

  method SendSf(txId: nat, data: array<byte>) returns (f: Frame)
    requires 1 <= data.Length <= 7
    ensures f == SingleFrame(txId, data[..])
  {
    var buf := new byte[8](i => 0);
    buf[0] := data.Length % 16;
    forall i | 0 <= i < data.Length {
      buf[1 + i] := data[i];
    }
    assert buf[..1 + data.Length] == [data.Length] + data[..];
    FramePad(buf, 1 + data.Length);
    f := Frame(txId % SFF_RANGE, buf[..], 8);
  }

  method WaitForFc(expectedId: nat, start: nat, evs: seq<BusEvent>) returns (code: Code, consumed: nat)
    ensures var r := FcRun(expectedId, start + 1000, evs);
            && consumed == r.consumed
            && code == match r.verdict { case FcWaiting => Blocked
                                         case FcClear => Returned(0)
                                         case FcFailed => Returned(-1) }
  {
    var deadline := start + N_CR_MS;
    consumed := 0;
    while consumed < |evs|
      invariant consumed <= |evs|
      invariant var r := FcRun(expectedId, deadline, evs[consumed..]);
                FcRun(expectedId, deadline, evs) == r.(consumed := consumed + r.consumed)
    {
      var ev := evs[consumed];
      assert evs[consumed..][1..] == evs[consumed + 1..];
      consumed := consumed + 1;
      if ev.Interrupted? { continue; }
      if ev.Broken? { return Returned(-1), consumed; }
      var f := ev.frame;
      if f.canId % SFF_RANGE != expectedId {
        if ev.before > deadline { return Returned(-1), consumed; }
        continue;
      }
      if f.data[0] / 16 != PCI_FC { return Returned(-1), consumed; }
      var fs := f.data[0] % 16;
      if fs == FS_CTS { return Returned(0), consumed; }
      if fs == FS_WAIT { continue; }
      return Returned(-1), consumed;
    }
    assert evs[consumed..] == [];
    code := Blocked;
  }

  /** Frames for which `ok` holds are the ones `can_io_send` puts on the bus. */
  predicate SendsOk(ok: nat -> bool, n: nat) {
    forall i :: 0 <= i < n ==> ok(i)
  }

  method BuildFf(buf: array<byte>, data: array<byte>)
    requires buf.Length == 8 && buf != data && 8 <= data.Length <= MAX_PAYLOAD
    modifies buf
    ensures buf[..] == [0x10 + data.Length / 0x100, data.Length % 0x100] + data[..6]
  {
    buf[0] := 0x10 + data.Length / 0x100 % 16;
    buf[1] := data.Length % 0x100;
    forall i | 0 <= i < 6 {
      buf[2 + i] := data[i];
    }
  }

  /** Header and payload of a Consecutive Frame. */
  method PutChunk(buf: array<byte>, data: array<byte>, offset: nat, chunk: nat, sn: nat)
    requires buf.Length == 8 && buf != data && sn < 16 && chunk <= 7 && offset + chunk <= data.Length
    modifies buf
    ensures buf[..1 + chunk] == [0x20 + sn] + data[..][offset..offset + chunk]
  {
    buf[0] := 0x20 + sn % 16;
    forall i | 0 <= i < chunk {
      buf[1 + i] := data[offset + i];
    }
    ghost var built, wanted := buf[..1 + chunk], [0x20 + sn] + data[..][offset..offset + chunk];
    forall i | 0 <= i < |built|
      ensures built[i] == wanted[i]
    {
    }
    assert built == wanted;
  }

  /** Builds the `k`-th Consecutive Frame in the shared frame buffer. */
  method BuildCf(txId: nat, buf: array<byte>, data: array<byte>, offset: nat, chunk: nat, sn: nat, ghost k: nat)
    returns (f: Frame)
    requires buf.Length == 8 && buf != data
    requires 8 <= data.Length <= MAX_PAYLOAD && 1 <= k <= CfCount(data.Length) && sn == k % 16
    requires offset == Covered(data.Length, k - 1) && offset + chunk == Covered(data.Length, k)
    modifies buf
    ensures f == ConsecutiveFrame(txId, data[..], k)
  {
    PutChunk(buf, data, offset, chunk, sn);
    FramePad(buf, 1 + chunk);
    f := Frame(txId % SFF_RANGE, buf[..], 8);
  }

  /** One chunk further: `k` is the number of the Consecutive Frame that carries it. */
  lemma {:induction false} Advance(len: nat, k: nat, offset: nat, chunk: nat)
    requires len >= 8 && k >= 1 && offset == Covered(len, k - 1) < len && chunk == Min(7, len - offset)
    ensures k <= CfCount(len) && offset + chunk == Covered(len, k)
    ensures (k % 16 + 1) % 16 == (k + 1) % 16
  {
  }

  lemma {:induction false} AllSent(len: nat, k: nat)
    requires len >= 8 && 1 <= k <= 1 + CfCount(len) && Covered(len, k - 1) == len
    ensures k == FrameCount(len)
  {
  }

  lemma {:induction false} SegmentExtends(txId: nat, data: seq<byte>, sent: seq<Frame>, f: Frame)
    requires 8 <= |data| <= MAX_PAYLOAD && 1 <= |sent| <= CfCount(|data|)
    requires sent <= Segment(txId, data) && f == ConsecutiveFrame(txId, data, |sent|)
    ensures sent + [f] <= Segment(txId, data)
  {
    assert Segment(txId, data)[|sent|] == f;
  }

  /** The Consecutive Frame loop, entered with only the First Frame sent. */
  method SendCfs(txId: nat, data: array<byte>, buf: array<byte>, first: seq<Frame>, ok: nat -> bool)
    returns (code: Code, sent: seq<Frame>)
    requires 8 <= data.Length <= MAX_PAYLOAD && buf.Length == 8 && buf != data
    requires ok(0) && first == [FirstFrame(txId, data[..])]
    modifies buf
    ensures 1 <= |sent| <= FrameCount(data.Length) && sent <= Segment(txId, data[..]) && SendsOk(ok, |sent|)
    ensures code == if |sent| == FrameCount(data.Length) then Returned(0) else Returned(-1)
    ensures code == Returned(-1) ==> !ok(|sent|)
  {
    ghost var d := data[..];
    var len := data.Length;
    var offset, sn := 6, 1;
    sent := first;
    while offset < len
      invariant data[..] == d
      invariant 1 <= |sent| <= 1 + CfCount(len)
      invariant sent <= Segment(txId, d)
      invariant SendsOk(ok, |sent|)
      invariant offset == Covered(len, |sent| - 1) && sn == |sent| % 16
      decreases len - offset
    {
      ghost var k := |sent|;
      var chunk := if len - offset > 7 then 7 else len - offset;
      Advance(len, k, offset, chunk);
      var f := BuildCf(txId, buf, data, offset, chunk, sn, k);
      if !ok(|sent|) { return Returned(-1), sent; }
      SegmentExtends(txId, d, sent, f);
      sent := sent + [f];
      offset := offset + chunk;
      sn := (sn + 1) % 16;
    }
    AllSent(len, |sent|);
    code := Returned(0);
  }

  method SendMultiframe(addr: Address, data: array<byte>, start: nat, evs: seq<BusEvent>, ok: nat -> bool)
    returns (code: Code, sent: seq<Frame>, consumed: nat)
    requires 8 <= data.Length <= MAX_PAYLOAD
    ensures SendContract(addr, data[..], FcRun(addr.rxId, start + N_CR_MS, evs).verdict, ok, code, sent)
    ensures consumed == if sent != [] then FcRun(addr.rxId, start + N_CR_MS, evs).consumed else 0
  {
    sent, consumed := [], 0;
    var buf := new byte[8](i => 0);
    BuildFf(buf, data);
    assert buf[..] == FirstFrame(addr.txId, data[..]).data;
    if !ok(0) { return Returned(-1), sent, consumed; }
    sent := [Frame(addr.txId % SFF_RANGE, buf[..], 8)];
    code, consumed := WaitForFc(addr.rxId, start, evs);
    if code != Returned(0) { return; }
    code, sent := SendCfs(addr.txId, data, buf, sent, ok);
  }

  /**
   * What a caller of `isotp_send` sees for a message of legal length: every frame sent is a frame
   * of the segmentation, in order; success means all of it went out; nothing after the first frame
   * goes out before a clear-to-send; and failure has a cause.
   */
  ghost predicate SendContract(addr: Address, data: seq<byte>, fc: FcVerdict, ok: nat -> bool, code: Code, sent: seq<Frame>)
    requires 1 <= |data| <= MAX_PAYLOAD
  {
    var whole := Segment(addr.txId, data);
    && sent <= whole
    && SendsOk(ok, |sent|)
    && (|sent| > 1 ==> fc == FcClear)
    && (code == Returned(0) <==> sent == whole)
    && (code == Blocked <==> |whole| > 1 && |sent| == 1 && fc == FcWaiting)
    && (code == Returned(0) || code == Blocked || code == Returned(-1))
    && (code == Returned(-1) ==> !ok(|sent|) || (|whole| > 1 && |sent| == 1 && fc == FcFailed))
  }

  method IsotpSend(addr: Address, data: array<byte>, start: nat, evs: seq<BusEvent>, ok: nat -> bool)
    returns (code: Code, sent: seq<Frame>, consumed: nat)
    ensures if 1 <= data.Length <= 4095
            then SendContract(addr, data[..], FcRun(addr.rxId, start + 1000, evs).verdict, ok, code, sent)
            else code == Returned(-1) && sent == []
    ensures consumed == if 8 <= data.Length <= 4095 && sent != [] then FcRun(addr.rxId, start + 1000, evs).consumed else 0
  {
    if data.Length == 0 || data.Length > MAX_PAYLOAD { return Returned(-1), [], 0; }
    if data.Length <= 7 {
      var f := SendSf(addr.txId, data);
      assert Segment(addr.txId, data[..]) == [f];
      if ok(0) { return Returned(0), [f], 0; }
      return Returned(-1), [], 0;
    }
    code, sent, consumed := SendMultiframe(addr, data, start, evs, ok);
  }

  /** The local variables of `isotp_recv`. */
  datatype Vars = Vars(receiving: bool, totalLen: nat, got: nat, nextSn: nat, deadline: nat)

  /** The reassembly state that the variables and the first `cap` bytes of the buffer stand for. */
  ghost predicate Represents(v: Vars, out: seq<byte>, cap: nat, st: RxState) {
    && Sane(cap, st)
    && v.receiving == st.Receiving?
    && (v.receiving ==> v.got <= cap <= |out| && st == Receiving(v.totalLen, out[..v.got], v.nextSn, v.deadline))
  }

  /** `memcpy(out + at, &frame[from], n)` inside the first `cap` bytes. */
  method CopyIn(out: array<byte>, at: nat, cap: nat, frame: Data8, from: nat, n: nat)
    requires at + n <= cap <= out.Length && from + n <= 8
    modifies out
    ensures out[..at + n] == old(out[..at]) + frame[from..from + n]
    ensures out[cap..] == old(out[cap..])
  {
    forall i | 0 <= i < n {
      out[at + i] := frame[from + i];
    }
  }

  /** What both halves of the loop body promise: they do what the step machine does. */
  ghost predicate Follows(o: RxOutcome, code: Code, v: Vars, out: seq<byte>, cap: nat, outLen: nat, flow: seq<Frame>) {
    && code == CodeOf(o.verdict)
    && flow == o.flow
    && (o.verdict.Waiting? ==> Represents(v, out, cap, o.verdict.state))
    && (o.verdict.Complete? ==> outLen <= cap <= |out| && out[..outLen] == o.verdict.msg)
  }

  /** The loop body while no reassembly is going on. */
  method OnIdle(addr: Address, out: array<byte>, outCap: nat, ev: BusEvent)
    returns (code: Code, v: Vars, outLen: nat, flow: seq<Frame>)
    requires outCap <= out.Length && ev.Delivered? && ev.frame.Id() == addr.rxId
    modifies out
    ensures Follows(RxStep(addr, outCap, Idle, ev), code, v, out[..], outCap, outLen, flow)
    ensures out[outCap..] == old(out[outCap..])
  {
    var f := ev.frame;
    var pci := f.data[0] / 16;
    code, v, outLen, flow := Blocked, Vars(false, 0, 0, 1, 0), 0, [];
    if pci == PCI_SF {
      var len := f.data[0] % 16;
      if len == 0 || len > 7 || len > outCap { return; }
      CopyIn(out, 0, outCap, f.data, 1, len);
      return Returned(0), v, len, flow;
    }
    if pci == PCI_FF {
      var totalLen := f.data[0] as int % 16 * 0x100 + f.data[1] as int;
      if totalLen < 8 || totalLen > MAX_PAYLOAD || totalLen > outCap { return; }
      CopyIn(out, 0, outCap, f.data, 2, 6);
      if !ev.fcSent { return Returned(-1), v, 0, flow; }
      flow := [FlowControl(addr.txId)];
      v := Vars(true, totalLen, 6, 1, ev.after + N_CR_MS);
      assert f.data[2..8] == f.data[2..];
      assert out[..][..6] == out[..6];
    }
  }

  /** The loop body during reassembly. */
  method OnReceiving(addr: Address, out: array<byte>, outCap: nat, v0: Vars, ghost st: RxState, ev: BusEvent)
    returns (code: Code, v: Vars, outLen: nat)
    requires outCap <= out.Length && ev.Delivered? && ev.frame.Id() == addr.rxId
    requires v0.receiving && Represents(v0, out[..], outCap, st)
    modifies out
    ensures Follows(RxStep(addr, outCap, st, ev), code, v, out[..], outCap, outLen, [])
    ensures out[outCap..] == old(out[outCap..])
  {
    var f := ev.frame;
    code, v, outLen := Blocked, v0, 0;
    if ev.before > v.deadline { return Returned(-1), v, 0; }
    if f.data[0] / 16 != PCI_CF {
      v := v.(receiving := false);
      return;
    }
    var sn := f.data[0] % 16;
    if sn != v.nextSn { return Returned(-1), v, 0; }
    var remaining := v.totalLen - v.got;
    var chunk := if remaining > 7 then 7 else remaining;
    CopyIn(out, v.got, outCap, f.data, 1, chunk);
    v := v.(got := v.got + chunk, nextSn := (v.nextSn + 1) % 16, deadline := ev.after + N_CR_MS);
    assert out[..][..v.got] == out[..v.got];
    if v.got >= v.totalLen {
      return Returned(0), v, v.totalLen;
    }
  }

  /** One iteration of the receive loop; `Blocked` means it goes on. */
  method OnEvent(addr: Address, out: array<byte>, outCap: nat, v0: Vars, ghost st: RxState, ev: BusEvent)
    returns (code: Code, v: Vars, outLen: nat, flow: seq<Frame>, ghost o: RxOutcome)
    requires outCap <= out.Length && Represents(v0, out[..], outCap, st)
    modifies out
    ensures o == RxStep(addr, outCap, st, ev) && Follows(o, code, v, out[..], outCap, outLen, flow)
    ensures out[outCap..] == old(out[outCap..])
  {
    o := RxStep(addr, outCap, st, ev);
    v, outLen, flow := v0, 0, [];
    if ev.Interrupted? { return Returned(1), v, 0, [], o; }
    if ev.Broken? { return Returned(-1), v, 0, [], o; }
    if ev.frame.canId % SFF_RANGE != addr.rxId { return Blocked, v, 0, [], o; }
    if v.receiving {
      code, v, outLen := OnReceiving(addr, out, outCap, v, st, ev);
    } else {
      code, v, outLen, flow := OnIdle(addr, out, outCap, ev);
    }
  }

  /** What one more event does to the result of the run. */
  lemma {:induction false} RunUnfold(addr: Address, cap: nat, st: RxState, evs: seq<BusEvent>, i: nat)
    requires Sane(cap, st) && i < |evs|
    ensures RxRun(addr, cap, st, evs[i..]) == After(addr, cap, RxStep(addr, cap, st, evs[i]), evs[i + 1..])
  {
    assert evs[i..][0] == evs[i] && evs[i..][1..] == evs[i + 1..];
  }

  /** `i` events read and `flow` sent so far; the rest of the run starts from `st`. */
  ghost predicate Progress(addr: Address, cap: nat, evs: seq<BusEvent>, i: nat, flow: seq<Frame>, st: RxState)
    requires Sane(cap, st)
  {
    && i <= |evs|
    && var r := RxRun(addr, cap, st, evs[i..]);
       RxRun(addr, cap, Idle, evs) == RxResult(r.verdict, i + r.consumed, flow + r.flow)
  }

  lemma {:induction false} ProgressNext(addr: Address, cap: nat, evs: seq<BusEvent>, i: nat, flow: seq<Frame>, st: RxState, o: RxOutcome)
    requires Sane(cap, st) && i < |evs| && Progress(addr, cap, evs, i, flow, st) && o == RxStep(addr, cap, st, evs[i])
    ensures o.verdict.Waiting? ==> Progress(addr, cap, evs, i + 1, flow + o.flow, o.verdict.state)
    ensures !o.verdict.Waiting? ==> RxRun(addr, cap, Idle, evs) == RxResult(o.verdict, i + 1, flow + o.flow)
  {
    RunUnfold(addr, cap, st, evs, i);
    if o.verdict.Waiting? {
      var r := RxRun(addr, cap, o.verdict.state, evs[i + 1..]);
      assert flow + (o.flow + r.flow) == (flow + o.flow) + r.flow;
    }
  }

  lemma {:induction false} ProgressEnds(addr: Address, cap: nat, evs: seq<BusEvent>, flow: seq<Frame>, st: RxState)
    requires Sane(cap, st) && Progress(addr, cap, evs, |evs|, flow, st)
    ensures RxRun(addr, cap, Idle, evs) == RxResult(Waiting(st), |evs|, flow)
  {
    assert evs[|evs|..] == [];
  }

  /** What the return code says about the trace. */
  lemma {:induction false} CodeMeans(addr: Address, cap: nat, evs: seq<BusEvent>)
    ensures var r, a := RxRun(addr, cap, Idle, evs), Addressed(addr.rxId, evs);
            && (r.verdict.Complete? ==> Accepts(cap, a, r.verdict.msg))
            && (forall msg :: Accepts(cap, a, msg) ==> CodeOf(r.verdict) == Returned(0))
            && (CodeOf(r.verdict) == Returned(-1) <==> CallFails(cap, a))
            && (CodeOf(r.verdict) == Returned(1) <==> r.consumed >= 1 && evs[r.consumed - 1].Interrupted?)
  {
    var r := RxRun(addr, cap, Idle, evs);
    AbortedExact(addr, cap, evs);
    SignalledExact(addr, cap, Idle, evs);
    if r.verdict.Complete? {
      AcceptanceExact(addr, cap, evs, r.verdict.msg);
    }
    forall msg | Accepts(cap, Addressed(addr.rxId, evs), msg)
      ensures r.verdict == Complete(msg)
    {
      AcceptanceExact(addr, cap, evs, msg);
    }
  }

  /**
   * Receives one message into `out`. The loop computes exactly what the step machine computes
   * from the idle state, and never touches the buffer past `outCap`.
   */
  method IsotpRecv(addr: Address, out: array<byte>, outCap: nat, evs: seq<BusEvent>)
    returns (code: Code, outLen: nat, consumed: nat, flow: seq<Frame>)
    requires outCap <= out.Length
    modifies out
    ensures var r := RxRun(addr, outCap, Idle, evs);
            && code == CodeOf(r.verdict)
            && consumed == r.consumed
            && flow == r.flow
            && (r.verdict.Complete? ==> outLen <= outCap && out[..outLen] == r.verdict.msg)
    ensures out[outCap..] == old(out[outCap..])
    ensures code == Returned(0) ==> outLen <= outCap && Accepts(outCap, Addressed(addr.rxId, evs), out[..outLen])
    ensures forall msg :: Accepts(outCap, Addressed(addr.rxId, evs), msg) ==> code == Returned(0)
    ensures code == Returned(-1) <==> CallFails(outCap, Addressed(addr.rxId, evs))
    ensures code == Returned(1) <==> consumed >= 1 && evs[consumed - 1].Interrupted?
  {
    CodeMeans(addr, outCap, evs);
    var v := Vars(false, 0, 0, 1, 0);
    outLen, consumed, flow := 0, 0, [];
    ghost var st := Idle;
    assert evs[0..] == evs;
    while consumed < |evs|
      invariant consumed <= |evs|
      invariant Represents(v, out[..], outCap, st)
      invariant Progress(addr, outCap, evs, consumed, flow, st)
      invariant out[outCap..] == old(out[outCap..])
    {
      ghost var o: RxOutcome;
      var fc: seq<Frame>;
      code, v, outLen, fc, o := OnEvent(addr, out, outCap, v, st, evs[consumed]);
      ProgressNext(addr, outCap, evs, consumed, flow, st, o);
      consumed := consumed + 1;
      flow := flow + fc;
      if code != Blocked { return; }
      st := o.verdict.state;
    }
    ProgressEnds(addr, outCap, evs, flow, st);
    code := Blocked;
  }
}
