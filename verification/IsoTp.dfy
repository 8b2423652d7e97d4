/** ISO 15765-2 frames, segmentation, and the receiver and flow-control step machines of isotp.c. */
module IsoTp {
  import opened Bytes

  const MAX_PAYLOAD := 4095
  const N_CR_MS := 1000
  const SFF_RANGE := 0x800 // identifiers are masked to 11 bits

  const PCI_SF := 0
  const PCI_FF := 1
  const PCI_CF := 2
  const PCI_FC := 3

  const FS_CTS := 0
  const FS_WAIT := 1

  type Data8 = s: seq<byte> | |s| == 8 witness Zeros(8)

  datatype Frame = Frame(canId: nat, data: Data8, dlc: byte) {
    function Id(): nat { canId % SFF_RANGE }
    function Pci(): nat { data[0] / 16 }
    function Low(): nat { data[0] % 16 }
    /** FF_DL of a First Frame. */
    function FfLength(): nat { Low() * 0x100 + data[1] as int }
  }

  datatype Address = Address(rxId: nat, txId: nat)

  // ---------- segmentation ----------

  function SingleFrame(id: nat, data: seq<byte>): Frame
    requires 1 <= |data| <= 7
  {
    Frame(id % SFF_RANGE, [|data|] + data + Zeros(7 - |data|), 8)
  }

  function FirstFrame(id: nat, data: seq<byte>): Frame
    requires 8 <= |data| <= MAX_PAYLOAD
  {
    Frame(id % SFF_RANGE, [0x10 + |data| / 0x100, |data| % 0x100] + data[..6], 8)
  }

  /** How many payload bytes the First Frame and the first `k` Consecutive Frames carry. */
  function Covered(length: nat, k: nat): (n: nat)
    requires length >= 8
    ensures 6 <= n <= length
  {
    Min(6 + 7 * k, length)
  }

  /** How many Consecutive Frames a message needs: the least `n` with `Covered(length, n) == length`. */
  function CfCount(length: nat): (n: nat)
    requires length >= 8
    ensures n >= 1 && 6 + 7 * (n - 1) < length <= 6 + 7 * n
  {
    if length <= 13 then 1 else if length == 14 then 2 else 1 + CfCount(length - 7)
  }

  /** The `k`-th Consecutive Frame, counted from 1. */
  function ConsecutiveFrame(id: nat, data: seq<byte>, k: nat): Frame
    requires 8 <= |data| <= MAX_PAYLOAD && 1 <= k <= CfCount(|data|)
  {
    var chunk := data[Covered(|data|, k - 1)..Covered(|data|, k)];
    Frame(id % SFF_RANGE, [0x20 + k % 16] + chunk + Zeros(7 - |chunk|), 8)
  }

  function FrameCount(length: nat): nat {
    if length <= 7 then 1 else 1 + CfCount(length)
  }

  function SegmentFrame(id: nat, data: seq<byte>, k: nat): Frame
    requires 1 <= |data| <= MAX_PAYLOAD && k < FrameCount(|data|)
  {
    if |data| <= 7 then SingleFrame(id, data)
    else if k == 0 then FirstFrame(id, data)
    else ConsecutiveFrame(id, data, k)
  }

  /** All frames of one message, in the order they are sent. */
  function Segment(id: nat, data: seq<byte>): (fs: seq<Frame>)
    requires 1 <= |data| <= MAX_PAYLOAD
    ensures |fs| == FrameCount(|data|)
  {
    seq(FrameCount(|data|), k requires 0 <= k < FrameCount(|data|) => SegmentFrame(id, data, k))
  }

  /** The clear-to-send Flow Control frame with BS = 0 and STmin = 0. */
  function FlowControl(id: nat): Frame {
    Frame(id % SFF_RANGE, [0x30] + Zeros(7), 8)
  }

  // ---------- bus input ----------

  /**
   * What one blocking read of the bus gives, with the environment's part of the loop
   * iteration that handles it: the two clock readings and whether a Flow Control frame,
   * should the receiver send one, goes out.
   */
  datatype BusEvent =
    | Interrupted
    | Broken
    | Delivered(frame: Frame, before: nat, fcSent: bool, after: nat)

  predicate Foreign(id: nat, ev: BusEvent) {
    ev.Delivered? && ev.frame.Id() != id
  }

  /** The events that are not somebody else's traffic. */
  function Addressed(id: nat, evs: seq<BusEvent>): (r: seq<BusEvent>)
    ensures |r| <= |evs|
    ensures forall i :: 0 <= i < |r| ==> !Foreign(id, r[i])
  {
    if evs == [] then []
    else if Foreign(id, evs[0]) then Addressed(id, evs[1..])
    else [evs[0]] + Addressed(id, evs[1..])
  }

  // ---------- receiver ----------

  datatype RxState =
    | Idle
    | Receiving(total: nat, got: seq<byte>, nextSn: nat, deadline: nat)

  datatype Verdict =
    | Waiting(state: RxState)   // the loop goes on
    | Complete(msg: seq<byte>)  // returns 0
    | Signalled                 // returns 1
    | Aborted                   // returns -1

  /** Iteration outcome; `flow` holds the Flow Control frame put on the bus, if any. */
  datatype RxOutcome = RxOutcome(verdict: Verdict, flow: seq<Frame>)

  predicate GoodSf(cap: nat, f: Frame) {
    f.Pci() == PCI_SF && 1 <= f.Low() <= 7 && f.Low() <= cap
  }

  predicate GoodFf(cap: nat, f: Frame) {
    f.Pci() == PCI_FF && 8 <= f.FfLength() <= MAX_PAYLOAD && f.FfLength() <= cap
  }

  /** What the receiver's variables satisfy between iterations: the reassembly fits the buffer. */
  predicate Sane(cap: nat, st: RxState) {
    st.Receiving? ==> 6 <= |st.got| < st.total <= cap && st.nextSn < 16
  }

  /** One iteration of the receive loop. */
  function RxStep(addr: Address, cap: nat, st: RxState, ev: BusEvent): (o: RxOutcome)
    requires Sane(cap, st)
    ensures o.verdict.Waiting? ==> Sane(cap, o.verdict.state)
    ensures o.verdict.Complete? ==> 1 <= |o.verdict.msg| <= cap
  {
    match ev
    case Interrupted => RxOutcome(Signalled, [])
    case Broken => RxOutcome(Aborted, [])
    case Delivered(f, before, fcSent, after) =>
      if f.Id() != addr.rxId then RxOutcome(Waiting(st), [])
      else match st
        case Idle =>
          if GoodSf(cap, f) then RxOutcome(Complete(f.data[1..1 + f.Low()]), [])
          else if !GoodFf(cap, f) then RxOutcome(Waiting(Idle), [])
          else if !fcSent then RxOutcome(Aborted, [])
          else RxOutcome(Waiting(Receiving(f.FfLength(), f.data[2..], 1, after + N_CR_MS)),
                         [FlowControl(addr.txId)])
        case Receiving(total, got, nextSn, deadline) =>
          if before > deadline then RxOutcome(Aborted, [])
          else if f.Pci() != PCI_CF then RxOutcome(Waiting(Idle), [])
          else if f.Low() != nextSn then RxOutcome(Aborted, [])
          else
            var chunk := Min(7, total - |got|);
            var all := got + f.data[1..1 + chunk];
            if |all| >= total then RxOutcome(Complete(all), [])
            else RxOutcome(Waiting(Receiving(total, all, (nextSn + 1) % 16, after + N_CR_MS)), [])
  }

  /** Verdict after a sequence of events, the number of events read, and all Flow Control sent. */
  datatype RxResult = RxResult(verdict: Verdict, consumed: nat, flow: seq<Frame>)

  function RxRun(addr: Address, cap: nat, st: RxState, evs: seq<BusEvent>): (r: RxResult)
    requires Sane(cap, st)
    ensures r.consumed <= |evs|
    ensures r.verdict.Waiting? ==> r.consumed == |evs| && Sane(cap, r.verdict.state)
    ensures !r.verdict.Waiting? ==> r.consumed >= 1
    ensures r.verdict.Complete? ==> 1 <= |r.verdict.msg| <= cap
    decreases |evs|
  {
    if evs == [] then RxResult(Waiting(st), 0, [])
    else
      var o := RxStep(addr, cap, st, evs[0]);
      if o.verdict.Waiting? then
        var r := RxRun(addr, cap, o.verdict.state, evs[1..]);
        RxResult(r.verdict, r.consumed + 1, o.flow + r.flow)
      else RxResult(o.verdict, 1, o.flow)
  }

  /** What follows the outcome of one iteration. */
  function After(addr: Address, cap: nat, o: RxOutcome, rest: seq<BusEvent>): RxResult
    requires o.verdict.Waiting? ==> Sane(cap, o.verdict.state)
  {
    if o.verdict.Waiting? then
      var r := RxRun(addr, cap, o.verdict.state, rest);
      RxResult(r.verdict, r.consumed + 1, o.flow + r.flow)
    else RxResult(o.verdict, 1, o.flow)
  }

  // ---------- waiting for flow control ----------

  datatype FcVerdict = FcWaiting | FcClear | FcFailed

  /** One iteration of the sender's wait for Flow Control. */
  function FcStep(id: nat, deadline: nat, ev: BusEvent): FcVerdict {
    match ev
    case Interrupted => FcWaiting
    case Broken => FcFailed
    case Delivered(f, now, _, _) =>
      if f.Id() != id then (if now > deadline then FcFailed else FcWaiting)
      else if f.Pci() != PCI_FC then FcFailed
      else if f.Low() == FS_CTS then FcClear
      else if f.Low() == FS_WAIT then FcWaiting
      else FcFailed
  }

  datatype FcResult = FcResult(verdict: FcVerdict, consumed: nat)

  function FcRun(id: nat, deadline: nat, evs: seq<BusEvent>): (r: FcResult)
    ensures r.consumed <= |evs|
  {
    if evs == [] then FcResult(FcWaiting, 0)
    else
      var v := FcStep(id, deadline, evs[0]);
      if v == FcWaiting then
        var r := FcRun(id, deadline, evs[1..]);
        FcResult(r.verdict, r.consumed + 1)
      else FcResult(v, 1)
  }
}
