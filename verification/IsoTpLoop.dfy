/**
 * Sender and receiver of isotp.c run against each other over two lossless FIFO channels.
 * A move is one send, one read of a data frame, or one read of a Flow Control frame; moves of
 * the two parties interleave freely.
 */
module IsoTpLoop {
  import opened Bytes
  import opened IsoTp
  import IsoTpAcceptance

  /** Two parties with mirrored addresses; the sender sends `data` as `frames`, the peer can hold `cap` bytes. */
  datatype Net = Net(sender: Address, cap: nat, data: seq<byte>, frames: seq<Frame>) {
    predicate Sized() {
      && sender.rxId < SFF_RANGE && sender.txId < SFF_RANGE
      && 1 <= |data| <= MAX_PAYLOAD && |data| <= cap
      && |frames| == FrameCount(|data|)
    }

    ghost predicate Valid() {
      Sized() && frames == Segment(sender.txId, data)
    }

    function Peer(): Address { Address(sender.txId, sender.rxId) }
  }

  datatype Sender = Unsent | AwaitingFc | Streaming(next: nat) | Sent | SendFailed
  datatype Peer = Active(st: RxState) | Got(msg: seq<byte>) | Stopped
  datatype Loop = Loop(sender: Sender, peer: Peer, toPeer: seq<Frame>, toSender: seq<Frame>)

  const START := Loop(Unsent, Active(Idle), [], [])

  datatype Move =
    | EmitFirst
    | EmitNext
    | TakeFc(now: nat, deadline: nat)
    | TakeFrame(before: nat, after: nat)

  /** N_Cr does not expire in this setting; everything else about the clocks is arbitrary. */
  predicate Enabled(net: Net, s: Loop, m: Move) {
    match m
    case EmitFirst => s.sender.Unsent?
    case EmitNext => s.sender.Streaming? && s.sender.next < |net.frames|
    case TakeFc(_, _) => s.sender.AwaitingFc? && s.toSender != []
    case TakeFrame(before, _) =>
      && s.peer.Active? && Sane(net.cap, s.peer.st) && s.toPeer != []
      && (s.peer.st.Receiving? ==> before <= s.peer.st.deadline)
  }

  /** The state after a read with outcome `o`. */
  function AfterRead(s: Loop, o: RxOutcome): Loop
    requires s.toPeer != []
  {
    s.(peer := match o.verdict { case Waiting(st) => Active(st) case Complete(msg) => Got(msg) case _ => Stopped },
       toPeer := s.toPeer[1..], toSender := s.toSender + o.flow)
  }

  function Do(net: Net, s: Loop, m: Move): Loop
    requires net.Sized() && Enabled(net, s, m)
  {
    match m
    case EmitFirst =>
      s.(sender := if |net.frames| == 1 then Sent else AwaitingFc, toPeer := s.toPeer + [net.frames[0]])
    case EmitNext =>
      var k := s.sender.next;
      s.(sender := if k + 1 == |net.frames| then Sent else Streaming(k + 1), toPeer := s.toPeer + [net.frames[k]])
    case TakeFc(now, deadline) =>
      var v := FcStep(net.sender.rxId, deadline, Delivered(s.toSender[0], now, true, now));
      s.(sender := match v { case FcWaiting => AwaitingFc case FcClear => Streaming(1) case FcFailed => SendFailed },
         toSender := s.toSender[1..])
    case TakeFrame(before, after) =>
      var o := RxStep(net.Peer(), net.cap, s.peer.st, Delivered(s.toPeer[0], before, true, after));
      AfterRead(s, o)
  }

  // ---------- the invariant ----------

  /** How many frames the sender has sent. */
  function Emitted(net: Net, sender: Sender): nat {
    match sender
    case Unsent => 0
    case AwaitingFc => 1
    case Streaming(k) => k
    case _ => |net.frames|
  }

  /** What the peer knows after reading the first `c` frames. */
  ghost predicate PeerAfter(net: Net, c: nat, peer: Peer)
    requires net.Sized() && c <= |net.frames|
  {
    if c == 0 then peer == Active(Idle)
    else if c == |net.frames| then peer == Got(net.data)
    else
      && peer.Active? && peer.st.Receiving?
      && peer.st.total == |net.data|
      && peer.st.got == net.data[..Covered(|net.data|, c - 1)]
      && peer.st.nextSn == c % 16
  }

  /** How many frames the peer has read. */
  function Consumed(net: Net, s: Loop): int {
    Emitted(net, s.sender) - |s.toPeer|
  }

  /** Read + in flight + unsent is the segmentation, and Flow Control comes before the second frame. */
  ghost predicate Wires(net: Net, s: Loop) {
    var e, c := Emitted(net, s.sender), Consumed(net, s);
    && s.sender != SendFailed
    && (s.sender.AwaitingFc? ==> |net.frames| > 1)
    && (s.sender.Streaming? ==> 1 <= s.sender.next < |net.frames|)
    && 0 <= c <= e <= |net.frames|
    && s.toPeer == net.frames[c..e]
    && s.toSender == (if s.sender.AwaitingFc? && c == 1 then [FlowControl(net.sender.rxId)] else [])
    && (|net.frames| > 1 && (s.sender.Streaming? || s.sender.Sent?) ==> c >= 1)
  }

  ghost predicate Inv(net: Net, s: Loop)
    requires net.Sized()
  {
    Wires(net, s) && PeerAfter(net, Consumed(net, s), s.peer)
  }

  /** What reading frame `c` does: the step from `PeerAfter(c)` to `PeerAfter(c + 1)`. */
  ghost predicate Reads(net: Net, c: nat, o: RxOutcome)
    requires net.Sized() && c < |net.frames|
  {
    var n := |net.frames|;
    && o.flow == (if c == 0 && n > 1 then [FlowControl(net.sender.rxId)] else [])
    && (c + 1 == n ==> o.verdict == Complete(net.data))
    && (c + 1 < n ==> o.verdict.Waiting? && PeerAfter(net, c + 1, Active(o.verdict.state)))
  }

  lemma {:induction false} PeerReadsFirst(net: Net, before: nat, after: nat)
    requires net.Valid()
    ensures var f := SegmentFrame(net.sender.txId, net.data, 0);
            Reads(net, 0, RxStep(net.Peer(), net.cap, Idle, Delivered(f, before, true, after)))
  {
    FirstFrameShape(net.sender.txId, net.data);
    FirstFrameRead(net, SegmentFrame(net.sender.txId, net.data, 0), before, after);
  }

  /** Header and bytes of the first frame of a segmentation. */
  ghost predicate StartsMessage(id: nat, data: seq<byte>, f: Frame) {
    && f.Id() == id
    && if |data| <= 7 then f.Pci() == PCI_SF && f.Low() == |data| && f.data[1..1 + |data|] == data
       else f.Pci() == PCI_FF && f.FfLength() == |data| && f.data[2..] == data[..6]
  }

  lemma {:induction false} FirstFrameShape(id: nat, data: seq<byte>)
    requires id < SFF_RANGE && 1 <= |data| <= MAX_PAYLOAD
    ensures StartsMessage(id, data, SegmentFrame(id, data, 0))
  {
    if |data| <= 7 {
      SingleFrameShape(id, data);
    } else {
      LongMessageShape(id, data);
    }
  }

  lemma {:induction false} SingleFrameShape(id: nat, data: seq<byte>)
    requires id < SFF_RANGE && 1 <= |data| <= 7
    ensures StartsMessage(id, data, SegmentFrame(id, data, 0))
  {
    assert SegmentFrame(id, data, 0).data[1..1 + |data|] == data;
  }

  lemma {:induction false} LongMessageShape(id: nat, data: seq<byte>)
    requires id < SFF_RANGE && 8 <= |data| <= MAX_PAYLOAD
    ensures StartsMessage(id, data, SegmentFrame(id, data, 0))
  {
    var len := |data|;
    assert len == len / 0x100 * 0x100 + len % 0x100 && len / 0x100 < 16;
    assert SegmentFrame(id, data, 0).data[2..] == data[..6];
  }

  lemma {:induction false} FirstFrameRead(net: Net, f: Frame, before: nat, after: nat)
    requires net.Sized() && StartsMessage(net.sender.txId, net.data, f)
    ensures Reads(net, 0, RxStep(net.Peer(), net.cap, Idle, Delivered(f, before, true, after)))
  {
  }

  lemma {:induction false} NextFrameHeader(id: nat, data: seq<byte>, c: nat)
    requires id < SFF_RANGE && 8 <= |data| <= MAX_PAYLOAD && 1 <= c <= CfCount(|data|)
    ensures var f := ConsecutiveFrame(id, data, c);
            f.Id() == id && f.Pci() == PCI_CF && f.Low() == c % 16
  {
  }

  /** The slice of the data that the `c`-th Consecutive Frame carries. */
  lemma {:induction false} NextFrameBytes(id: nat, data: seq<byte>, c: nat)
    requires 8 <= |data| <= MAX_PAYLOAD && 1 <= c <= CfCount(|data|)
    ensures var f := ConsecutiveFrame(id, data, c);
            var from, to := Covered(|data|, c - 1), Covered(|data|, c);
            && to - from == Min(7, |data| - from)
            && data[..from] + f.data[1..1 + (to - from)] == data[..to]
            && (to == |data| <==> c == CfCount(|data|))
  {
    var f := ConsecutiveFrame(id, data, c);
    var from, to := Covered(|data|, c - 1), Covered(|data|, c);
    assert f.data[1..1 + (to - from)] == data[from..to];
  }

  lemma {:induction false} PeerReadsNext(net: Net, c: nat, st: RxState, f: Frame, before: nat, after: nat)
    requires net.Sized() && |net.data| >= 8 && 1 <= c <= CfCount(|net.data|)
    requires f == ConsecutiveFrame(net.sender.txId, net.data, c)
    requires Sane(net.cap, st) && PeerAfter(net, c, Active(st)) && before <= st.deadline
    ensures Reads(net, c, RxStep(net.Peer(), net.cap, st, Delivered(f, before, true, after)))
  {
    NextFrameHeader(net.sender.txId, net.data, c);
    NextFrameBytes(net.sender.txId, net.data, c);
    assert net.data[..|net.data|] == net.data;
    IsoTpAcceptance.NextNumber(c);
    IsoTpAcceptance.ExpectedCf(net.Peer(), net.cap, st, Delivered(f, before, true, after));
    IsoTpAcceptance.FlowOfStep(net.Peer(), net.cap, st, Delivered(f, before, true, after));
  }

  lemma {:induction false} PeerReads(net: Net, c: nat, st: RxState, before: nat, after: nat)
    requires net.Valid() && c < |net.frames|
    requires Sane(net.cap, st) && PeerAfter(net, c, Active(st))
    requires st.Receiving? ==> before <= st.deadline
    ensures Reads(net, c, RxStep(net.Peer(), net.cap, st, Delivered(net.frames[c], before, true, after)))
  {
    if c == 0 {
      PeerReadsFirst(net, before, after);
    } else {
      PeerReadsNext(net, c, st, net.frames[c], before, after);
    }
  }

  lemma {:induction false} StartInv(net: Net)
    requires net.Sized()
    ensures Inv(net, START)
    ensures Remaining(net, START) == 2 * |net.frames| + (if |net.data| > 7 then 1 else 0)
  {
  }

  lemma {:induction false} ReadKeepsWires(net: Net, s: Loop, o: RxOutcome)
    requires Wires(net, s) && s.toPeer != []
    requires o.flow == if Consumed(net, s) == 0 && |net.frames| > 1 then [FlowControl(net.sender.rxId)] else []
    ensures Wires(net, AfterRead(s, o)) && Consumed(net, AfterRead(s, o)) == Consumed(net, s) + 1
  {
    var e, c := Emitted(net, s.sender), Consumed(net, s);
    assert AfterRead(s, o).toPeer == net.frames[c + 1..e];
  }

  lemma {:induction false} TakeFrameKeepsInv(net: Net, s: Loop, before: nat, after: nat)
    requires net.Valid() && Inv(net, s) && Enabled(net, s, TakeFrame(before, after))
    ensures Inv(net, Do(net, s, TakeFrame(before, after)))
  {
    var c := Consumed(net, s);
    assert s.toPeer[0] == net.frames[c];
    PeerReads(net, c, s.peer.st, before, after);
    var o := RxStep(net.Peer(), net.cap, s.peer.st, Delivered(s.toPeer[0], before, true, after));
    ReadKeepsWires(net, s, o);
  }

  lemma {:induction false} EmitKeepsWires(net: Net, s: Loop, m: Move)
    requires net.Sized() && Wires(net, s) && Enabled(net, s, m) && (m.EmitFirst? || m.EmitNext?)
    ensures var s' := Do(net, s, m);
            Wires(net, s') && Consumed(net, s') == Consumed(net, s) && s'.peer == s.peer
  {
    var e, c := Emitted(net, s.sender), Consumed(net, s);
    assert net.frames[c..e] + [net.frames[e]] == net.frames[c..e + 1];
  }

  lemma {:induction false} TakeFcKeepsWires(net: Net, s: Loop, now: nat, deadline: nat)
    requires net.Sized() && Wires(net, s) && Enabled(net, s, TakeFc(now, deadline))
    ensures var s' := Do(net, s, TakeFc(now, deadline));
            Wires(net, s') && Consumed(net, s') == Consumed(net, s) && s'.peer == s.peer
  {
    assert FcStep(net.sender.rxId, deadline, Delivered(FlowControl(net.sender.rxId), now, true, now)) == FcClear;
  }

  /** Every move of either party keeps the invariant; neither party ever fails. */
  lemma {:induction false} MoveKeepsInv(net: Net, s: Loop, m: Move)
    requires net.Valid() && Inv(net, s) && Enabled(net, s, m)
    ensures Inv(net, Do(net, s, m))
  {
    match m
    case TakeFrame(before, after) => TakeFrameKeepsInv(net, s, before, after);
    case TakeFc(now, deadline) => TakeFcKeepsWires(net, s, now, deadline);
    case _ => EmitKeepsWires(net, s, m);
  }

  // ---------- progress ----------

  predicate Finished(net: Net, s: Loop) {
    s == Loop(Sent, Got(net.data), [], [])
  }

  /** Moves still to be made. */
  function Remaining(net: Net, s: Loop): int {
    var n := |net.frames|;
    2 * (n - Emitted(net, s.sender)) + |s.toPeer| + (if n > 1 && (s.sender.Unsent? || s.sender.AwaitingFc?) then 1 else 0)
  }

  /** What there is to read, the peer can read. */
  lemma {:induction false} PeerCanRead(net: Net, s: Loop)
    requires net.Sized() && Inv(net, s) && s.toPeer != []
    ensures Enabled(net, s, TakeFrame(0, 0))
  {
    SaneAfter(net, Consumed(net, s), s.peer);
  }

  lemma {:induction false} RemainingZero(net: Net, s: Loop)
    requires net.Sized() && Wires(net, s)
    ensures Remaining(net, s) >= 0
    ensures Remaining(net, s) == 0 <==> s.sender.Sent? && s.toPeer == []
    ensures s.sender.AwaitingFc? && s.toSender == [] ==> s.toPeer != []
    ensures s.sender.Sent? ==> s.toSender == [] && (s.toPeer == [] ==> Consumed(net, s) == |net.frames|)
  {
  }

  /** No state short of success is stuck, and every move is one step towards it. */
  lemma {:induction false} Progress(net: Net, s: Loop) returns (m: Move)
    requires net.Sized() && Inv(net, s)
    ensures Remaining(net, s) >= 0
    ensures Remaining(net, s) == 0 <==> Finished(net, s)
    ensures !Finished(net, s) ==> Enabled(net, s, m)
  {
    RemainingZero(net, s);
    m := if s.sender.Unsent? then EmitFirst
         else if s.sender.Streaming? then EmitNext
         else if s.sender.AwaitingFc? && s.toSender != [] then TakeFc(0, 0)
         else TakeFrame(0, 0);
    if m.TakeFrame? && s.toPeer != [] {
      PeerCanRead(net, s);
    }
  }

  lemma {:induction false} SaneAfter(net: Net, c: nat, peer: Peer)
    requires net.Sized() && c < |net.frames| && PeerAfter(net, c, peer)
    ensures peer.Active? && Sane(net.cap, peer.st)
  {
  }

  lemma {:induction false} MoveCounts(net: Net, s: Loop, m: Move)
    requires net.Sized() && Enabled(net, s, m)
    requires s.sender.AwaitingFc? ==> |net.frames| > 1
    requires s.toSender == [] || s.toSender == [FlowControl(net.sender.rxId)]
    ensures Remaining(net, Do(net, s, m)) == Remaining(net, s) - 1
  {
    if m.TakeFc? {
      assert FcStep(net.sender.rxId, m.deadline, Delivered(FlowControl(net.sender.rxId), m.now, true, m.now)) == FcClear;
    }
  }

  // ---------- whole runs ----------

  ghost predicate Runs(net: Net, s: Loop, moves: seq<Move>, s': Loop)
    requires net.Sized()
    decreases |moves|
  {
    if moves == [] then s == s'
    else Enabled(net, s, moves[0]) && Runs(net, Do(net, s, moves[0]), moves[1..], s')
  }

  lemma {:induction false} RunsKeepInv(net: Net, s: Loop, moves: seq<Move>, s': Loop)
    requires net.Valid() && Inv(net, s) && Runs(net, s, moves, s')
    ensures Inv(net, s') && |moves| + Remaining(net, s') == Remaining(net, s)
    decreases |moves|
  {
    if moves != [] {
      MoveKeepsInv(net, s, moves[0]);
      MoveCounts(net, s, moves[0]);
      RunsKeepInv(net, Do(net, s, moves[0]), moves[1..], s');
    }
  }

  /**
   * The closed loop: every interleaving keeps the invariant, can go on until both parties have
   * succeeded with equal data, and takes exactly two moves per frame plus one for Flow Control.
   */
  lemma {:induction false} ClosedLoop(net: Net, moves: seq<Move>, s: Loop) returns (m: Move)
    requires net.Valid() && Runs(net, START, moves, s)
    ensures Inv(net, s)
    ensures var total := 2 * |net.frames| + (if |net.data| > 7 then 1 else 0);
            |moves| <= total && (|moves| == total <==> Finished(net, s))
    ensures !Finished(net, s) ==> Enabled(net, s, m)
  {
    StartInv(net);
    RunsKeepInv(net, START, moves, s);
    m := Progress(net, s);
  }
}
