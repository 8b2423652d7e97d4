/** Many messages and many receive calls: what a stream of frames delivers, and when it mixes messages up. */
module IsoTpStream {
  import opened Bytes
  import opened IsoTp
  import opened IsoTpAcceptance
  import opened IsoTpChannel

  /** The messages returned by calling the receiver again and again, whatever the calls return. */
  function Received(addr: Address, cap: nat, evs: seq<BusEvent>): seq<seq<byte>>
    decreases |evs|
  {
    var r := RxRun(addr, cap, Idle, evs);
    match r.verdict
    case Waiting(_) => []
    case Complete(msg) => [msg] + Received(addr, cap, evs[r.consumed..])
    case _ => Received(addr, cap, evs[r.consumed..])
  }

  lemma {:induction false} ReceivedIgnoresForeign(addr: Address, cap: nat, evs: seq<BusEvent>)
    ensures Received(addr, cap, evs) == Received(addr, cap, Addressed(addr.rxId, evs))
    decreases |evs|
  {
    ForeignTrafficInvisible(addr, cap, Idle, evs);
    var r := RxRun(addr, cap, Idle, evs);
    if !r.verdict.Waiting? {
      ReceivedIgnoresForeign(addr, cap, evs[r.consumed..]);
    }
  }

  // ---------- a faithful channel ----------

  function Flatten(cs: seq<seq<BusEvent>>): seq<BusEvent> {
    if cs == [] then [] else cs[0] + Flatten(cs[1..])
  }

  /** The messages that fit the receiver's buffer. */
  function Fitting(cap: nat, msgs: seq<seq<byte>>): seq<seq<byte>> {
    if msgs == [] then []
    else (if |msgs[0]| <= cap then [msgs[0]] else []) + Fitting(cap, msgs[1..])
  }

  ghost predicate Legal(msgs: seq<seq<byte>>) {
    forall m :: 0 <= m < |msgs| ==> 1 <= |msgs[m]| <= 4095
  }

  /** Part `i` of the traffic is the segmentation of message `i`, in time. */
  ghost predicate CarriesAll(id: nat, msgs: seq<seq<byte>>, cs: seq<seq<BusEvent>>)
    requires Legal(msgs)
  {
    |cs| == |msgs| && forall m :: 0 <= m < |msgs| ==> Carries(cs[m], Segment(id, msgs[m])) && Timely(cs[m])
  }

  /** Events that leave the receiver idle can be skipped. */
  lemma {:induction false} SkipIdle(addr: Address, cap: nat, x: seq<BusEvent>, y: seq<BusEvent>)
    requires RxRun(addr, cap, Idle, x).verdict == Waiting(Idle)
    ensures Received(addr, cap, x + y) == Received(addr, cap, y)
  {
    RunAppend(addr, cap, Idle, x, y);
    var r, q := RxRun(addr, cap, Idle, x + y), RxRun(addr, cap, Idle, y);
    assert (x + y)[r.consumed..] == y[q.consumed..];
  }

  lemma {:induction false} TakeComplete(addr: Address, cap: nat, x: seq<BusEvent>, y: seq<BusEvent>, msg: seq<byte>)
    requires RxRun(addr, cap, Idle, x).verdict == Complete(msg) && RxRun(addr, cap, Idle, x).consumed == |x|
    ensures Received(addr, cap, x + y) == [msg] + Received(addr, cap, y)
  {
    RunAppend(addr, cap, Idle, x, y);
    assert (x + y)[|x|..] == y;
  }

  lemma {:induction false} FirstOfStream(addr: Address, cap: nat, id: nat, msg: seq<byte>, a: seq<BusEvent>, rest: seq<BusEvent>)
    requires 1 <= |msg| <= MAX_PAYLOAD && Carries(a, Segment(id, msg)) && Timely(a) && NoForeign(addr.rxId, a)
    ensures Received(addr, cap, a + rest) == (if |msg| <= cap then [msg] else []) + Received(addr, cap, rest)
  {
    if |msg| <= cap {
      SegmentIsTransfer(id, msg, cap, a);
      TransferCompletes(addr, cap, a);
      TakeComplete(addr, cap, a, rest, msg);
    } else {
      OversizedIgnored(addr, cap, id, msg, a);
      SkipIdle(addr, cap, a, rest);
    }
  }

  lemma {:induction false} StreamOfAddressed(addr: Address, cap: nat, id: nat, msgs: seq<seq<byte>>, cs: seq<seq<BusEvent>>)
    requires Legal(msgs) && CarriesAll(id, msgs, cs) && NoForeign(addr.rxId, Flatten(cs))
    ensures Received(addr, cap, Flatten(cs)) == Fitting(cap, msgs)
    decreases |msgs|
  {
    if msgs != [] {
      var rest := Flatten(cs[1..]);
      NoForeignParts(addr.rxId, cs[0], rest);
      FirstOfStream(addr, cap, id, msgs[0], cs[0], rest);
      StreamOfAddressed(addr, cap, id, msgs[1..], cs[1..]);
    }
  }

  /**
   * Round trip of a stream: if the addressed traffic is the segmentations of `msgs` one after the
   * other, repeated calls return the messages that fit, in order, whatever else is on the bus.
   */
  lemma {:induction false} StreamRoundTrip(addr: Address, cap: nat, id: nat, msgs: seq<seq<byte>>,
                                           cs: seq<seq<BusEvent>>, evs: seq<BusEvent>)
    requires Legal(msgs) && CarriesAll(id, msgs, cs) && Addressed(addr.rxId, evs) == Flatten(cs)
    ensures Received(addr, cap, evs) == Fitting(cap, msgs)
  {
    ReceivedIgnoresForeign(addr, cap, evs);
    StreamOfAddressed(addr, cap, id, msgs, cs);
  }

  // ---------- a channel that loses and repeats frames of many messages ----------

  /** Which frame of which message an event brings. */
  datatype Tag = Tag(message: nat, frame: nat)

  predicate NotAfter(s: Tag, t: Tag) {
    s.message < t.message || (s.message == t.message && s.frame <= t.frame)
  }

  /** The events bring frames of `msgs`, in the order in which they were sent, some lost and some repeated. */
  ghost predicate Drawn(id: nat, msgs: seq<seq<byte>>, a: seq<BusEvent>, tags: seq<Tag>)
    requires Legal(msgs)
  {
    && |tags| == |a|
    && (forall i :: 0 <= i < |a| ==> DrawnAt(id, msgs, a[i], tags[i]))
    && (forall i, j :: 0 <= i < j < |a| ==> NotAfter(tags[i], tags[j]))
  }

  ghost predicate DrawnAt(id: nat, msgs: seq<seq<byte>>, ev: BusEvent, tag: Tag)
    requires Legal(msgs)
  {
    && tag.message < |msgs|
    && tag.frame < FrameCount(|msgs[tag.message]|)
    && (ev.Delivered? ==> ev.frame == Segment(id, msgs[tag.message])[tag.frame])
  }

  /** Wherever the traffic passes on to another message, it has that message's first frame. */
  ghost predicate HeadsKept(tags: seq<Tag>) {
    forall i :: 1 <= i < |tags| ==> tags[i].message == tags[i - 1].message || tags[i].frame == 0
  }

  ghost predicate OneMessage(tags: seq<Tag>) {
    forall i :: 0 <= i < |tags| ==> tags[i].message == tags[0].message
  }

  lemma {:induction false} DrawnPart(id: nat, msgs: seq<seq<byte>>, a: seq<BusEvent>, tags: seq<Tag>, k: nat, n: nat)
    requires Legal(msgs) && Drawn(id, msgs, a, tags) && k <= n <= |a|
    ensures Drawn(id, msgs, a[k..n], tags[k..n])
  {
    forall i | 0 <= i < n - k
      ensures DrawnAt(id, msgs, a[k..n][i], tags[k..n][i])
    {
      assert DrawnAt(id, msgs, a[k + i], tags[k + i]);
    }
  }

  /** Inside a transfer of several frames no event but the first brings a first frame. */
  lemma {:induction false} NoHeadInside(cap: nat, id: nat, msgs: seq<seq<byte>>, t: seq<BusEvent>, tags: seq<Tag>, i: nat)
    requires Legal(msgs) && IsTransfer(cap, t) && Drawn(id, msgs, t, tags) && 1 <= i < |t|
    ensures tags[i].frame >= 1
  {
    assert TimelyCf(t, i) && DrawnAt(id, msgs, t[i], tags[i]);
    FrameShape(id, msgs[tags[i].message], tags[i].frame);
  }

  lemma {:induction false} SameMessageUpTo(tags: seq<Tag>, i: nat)
    requires i < |tags| && HeadsKept(tags) && forall j :: 1 <= j < |tags| ==> tags[j].frame >= 1
    ensures tags[i].message == tags[0].message
  {
    if i > 0 {
      SameMessageUpTo(tags, i - 1);
      assert tags[i].message == tags[i - 1].message;
    }
  }

  /** A transfer is drawn from one message exactly if no change of message inside it skips the head. */
  lemma {:induction false} OneMessageIff(cap: nat, id: nat, msgs: seq<seq<byte>>, t: seq<BusEvent>, tags: seq<Tag>)
    requires Legal(msgs) && IsTransfer(cap, t) && Drawn(id, msgs, t, tags)
    ensures OneMessage(tags) <==> HeadsKept(tags)
  {
    if HeadsKept(tags) {
      forall i | 1 <= i < |t|
        ensures tags[i].frame >= 1
      {
        NoHeadInside(cap, id, msgs, t, tags, i);
      }
      forall i | 0 <= i < |t|
        ensures tags[i].message == tags[0].message
      {
        SameMessageUpTo(tags, i);
      }
    }
    if OneMessage(tags) {
      forall i | 1 <= i < |tags|
        ensures tags[i].message == tags[i - 1].message
      {
        assert tags[i].message == tags[0].message && tags[i - 1].message == tags[0].message;
      }
    }
  }

  lemma {:induction false} OneMessageDelivered(cap: nat, id: nat, msgs: seq<seq<byte>>, t: seq<BusEvent>, tags: seq<Tag>)
    requires Legal(msgs) && IsTransfer(cap, t) && Drawn(id, msgs, t, tags) && OneMessage(tags)
    ensures MessageOf(cap, t) == msgs[tags[0].message]
  {
    var data := msgs[tags[0].message];
    var idx := seq(|t|, i requires 0 <= i < |tags| => tags[i].frame);
    forall i | 0 <= i < |t|
      ensures idx[i] < FrameCount(|data|) && (t[i].Delivered? ==> t[i].frame == Segment(id, data)[idx[i]])
    {
      assert DrawnAt(id, msgs, t[i], tags[i]) && tags[i].message == tags[0].message;
    }
    forall i, j | 0 <= i < j < |t|
      ensures idx[i] <= idx[j]
    {
      assert NotAfter(tags[i], tags[j]) && tags[i].message == tags[0].message && tags[j].message == tags[0].message;
    }
    SampledTransfer(cap, id, data, t, idx);
  }

  /**
   * What one call returns from such a stream, exactly: the frames it accepted come from one message
   * if and only if no change of message among them skips a head, and then it returns that message.
   */
  lemma {:induction false} AcceptedFromOneMessage(addr: Address, cap: nat, id: nat, msgs: seq<seq<byte>>,
                                                  a: seq<BusEvent>, tags: seq<Tag>)
    returns (k: nat, n: nat)
    requires Legal(msgs) && Drawn(id, msgs, a, tags) && NoForeign(addr.rxId, a)
    requires RxRun(addr, cap, Idle, a).verdict.Complete?
    ensures n == RxRun(addr, cap, Idle, a).consumed
    ensures AcceptedAt(cap, a, k, n, RxRun(addr, cap, Idle, a).verdict.msg)
    ensures OneMessage(tags[k..n]) <==> HeadsKept(tags[k..n])
    ensures HeadsKept(tags[k..n]) ==>
              tags[k].message < |msgs| && RxRun(addr, cap, Idle, a).verdict.msg == msgs[tags[k].message]
  {
    k, n := AcceptedFrom(addr, cap, a);
    DrawnPart(id, msgs, a, tags, k, n);
    OneMessageIff(cap, id, msgs, a[k..n], tags[k..n]);
    if HeadsKept(tags[k..n]) {
      OneMessageDelivered(cap, id, msgs, a[k..n], tags[k..n]);
      assert DrawnAt(id, msgs, a[k], tags[k]);
    }
  }

  lemma {:induction false} HeadsKeptPart(tags: seq<Tag>, k: nat, n: nat)
    requires HeadsKept(tags) && k <= n <= |tags|
    ensures HeadsKept(tags[k..n])
  {
    forall i | 1 <= i < n - k
      ensures tags[k..n][i].message == tags[k..n][i - 1].message || tags[k..n][i].frame == 0
    {
      assert tags[k + i].message == tags[k + i - 1].message || tags[k + i].frame == 0;
    }
  }

  /** The messages returned are messages sent, in the order sent; none before message `from`. */
  ghost predicate InOrderFrom(from: nat, msgs: seq<seq<byte>>, got: seq<seq<byte>>, which: seq<nat>) {
    && |which| == |got|
    && (forall i :: 0 <= i < |which| ==> from <= which[i] < |msgs| && got[i] == msgs[which[i]])
    && (forall i, j :: 0 <= i < j < |which| ==> which[i] <= which[j])
  }

  lemma {:induction false} InOrderCons(from: nat, msgs: seq<seq<byte>>, got: seq<seq<byte>>, which: seq<nat>, m: nat)
    requires from <= m < |msgs| && InOrderFrom(m, msgs, got, which)
    ensures InOrderFrom(from, msgs, [msgs[m]] + got, [m] + which)
  {
  }

  lemma {:induction false} RestIsDrawn(id: nat, msgs: seq<seq<byte>>, a: seq<BusEvent>, tags: seq<Tag>, c: nat)
    requires Legal(msgs) && Drawn(id, msgs, a, tags) && HeadsKept(tags) && c <= |a|
    ensures Drawn(id, msgs, a[c..], tags[c..]) && HeadsKept(tags[c..])
  {
    DrawnPart(id, msgs, a, tags, c, |a|);
    HeadsKeptPart(tags, c, |a|);
    assert a[c..|a|] == a[c..] && tags[c..|a|] == tags[c..];
  }

  lemma {:induction false} NoneEarlier(id: nat, msgs: seq<seq<byte>>, a: seq<BusEvent>, tags: seq<Tag>, k: nat, c: nat)
    requires Legal(msgs) && Drawn(id, msgs, a, tags) && k < c <= |a|
    ensures forall i :: 0 <= i < |tags[c..]| ==> tags[k].message <= tags[c..][i].message
  {
    forall i | 0 <= i < |tags[c..]|
      ensures tags[k].message <= tags[c..][i].message
    {
      assert NotAfter(tags[k], tags[c + i]);
    }
  }

  lemma {:induction false} StreamSoundFrom(addr: Address, cap: nat, id: nat, msgs: seq<seq<byte>>,
                                           a: seq<BusEvent>, tags: seq<Tag>, from: nat)
    returns (which: seq<nat>)
    requires Legal(msgs) && Drawn(id, msgs, a, tags) && HeadsKept(tags) && NoForeign(addr.rxId, a)
    requires forall i :: 0 <= i < |tags| ==> from <= tags[i].message
    ensures InOrderFrom(from, msgs, Received(addr, cap, a), which)
    decreases |a|
  {
    var r := RxRun(addr, cap, Idle, a);
    if r.verdict.Waiting? {
      return [];
    }
    var c := r.consumed;
    var rest, restTags := a[c..], tags[c..];
    RestIsDrawn(id, msgs, a, tags, c);
    if r.verdict.Complete? {
      var k, n := AcceptedFromOneMessage(addr, cap, id, msgs, a, tags);
      HeadsKeptPart(tags, k, n);
      var m := tags[k].message;
      NoneEarlier(id, msgs, a, tags, k, c);
      which := StreamSoundFrom(addr, cap, id, msgs, rest, restTags, m);
      InOrderCons(from, msgs, Received(addr, cap, rest), which, m);
      which := [m] + which;
    } else {
      which := StreamSoundFrom(addr, cap, id, msgs, rest, restTags, from);
    }
  }

  /**
   * Soundness over a faulty channel for any number of messages and calls: frames may be lost and
   * repeated at will, with any foreign traffic, timing and errors. As long as no message that
   * arrives in part has lost its first frame, everything returned is a message sent, in order.
   */
  lemma {:induction false} StreamSound(addr: Address, cap: nat, id: nat, msgs: seq<seq<byte>>,
                                       evs: seq<BusEvent>, tags: seq<Tag>)
    returns (which: seq<nat>)
    requires Legal(msgs) && Drawn(id, msgs, Addressed(addr.rxId, evs), tags) && HeadsKept(tags)
    ensures InOrderFrom(0, msgs, Received(addr, cap, evs), which)
  {
    ReceivedIgnoresForeign(addr, cap, evs);
    which := StreamSoundFrom(addr, cap, id, msgs, Addressed(addr.rxId, evs), tags, 0);
  }

  // ---------- what happens when a head is lost ----------

  /** The First Frame and the first `cut` Consecutive Frames of `x`, then those of `y` up to the same count. */
  function Spliced(id: nat, x: seq<byte>, y: seq<byte>, cut: nat): seq<Frame>
    requires 8 <= |x| <= MAX_PAYLOAD && 8 <= |y| <= MAX_PAYLOAD
    requires cut < CfCount(|x|) <= CfCount(|y|)
  {
    Segment(id, x)[..cut + 1] + Segment(id, y)[cut + 1..FrameCount(|x|)]
  }

  /** Such a splice is an order-preserving sample of the two messages, and skips the head of `y`. */
  lemma {:induction false} SpliceIsDrawn(id: nat, x: seq<byte>, y: seq<byte>, cut: nat, a: seq<BusEvent>) returns (tags: seq<Tag>)
    requires 8 <= |x| <= MAX_PAYLOAD && 8 <= |y| <= MAX_PAYLOAD
    requires cut < CfCount(|x|) <= CfCount(|y|) && Carries(a, Spliced(id, x, y, cut))
    ensures Legal([x, y]) && Drawn(id, [x, y], a, tags) && !HeadsKept(tags)
  {
    tags := seq(|a|, i requires 0 <= i < |a| => Tag(if i <= cut then 0 else 1, i));
    forall i | 0 <= i < |a|
      ensures DrawnAt(id, [x, y], a[i], tags[i])
    {
      assert a[i].frame == if i <= cut then Segment(id, x)[i] else Segment(id, y)[i];
    }
    assert tags[cut + 1].message != tags[cut].message && tags[cut + 1].frame != 0;
  }

  lemma {:induction false} SpliceIsTransfer(cap: nat, id: nat, x: seq<byte>, y: seq<byte>, cut: nat, a: seq<BusEvent>)
    requires 8 <= |x| <= MAX_PAYLOAD && 8 <= |y| <= MAX_PAYLOAD && |x| <= cap
    requires cut < CfCount(|x|) <= CfCount(|y|) && Timely(a) && Carries(a, Spliced(id, x, y, cut))
    ensures IsTransfer(cap, a) && |a| > 1 && a[0].frame.FfLength() == |x|
  {
    assert a[0].frame == Segment(id, x)[0];
    FrameShape(id, x, 0);
    forall i | 1 <= i < |a|
      ensures TimelyCf(a, i)
    {
      FrameShape(id, x, i);
      FrameShape(id, y, i);
      assert a[i].frame == if i <= cut then Segment(id, x)[i] else Segment(id, y)[i];
    }
  }

  lemma {:induction false} SpliceByte(id: nat, x: seq<byte>, y: seq<byte>, cut: nat, a: seq<BusEvent>, i: nat)
    requires 8 <= |x| <= MAX_PAYLOAD && 8 <= |y| <= MAX_PAYLOAD
    requires cut < CfCount(|x|) <= CfCount(|y|) && Carries(a, Spliced(id, x, y, cut)) && i < |x|
    ensures i < |y| + 7 && AllDelivered(a) && i < 6 + 7 * (|a| - 1)
    ensures ByteAt(a, i) == if i < 6 + 7 * cut then x[i] else (y + Zeros(7))[i]
  {
    var k := if i < 6 then 0 else 1 + (i - 6) / 7;
    assert k <= cut <==> i < 6 + 7 * cut;
    assert a[k].frame == if k <= cut then Segment(id, x)[k] else Segment(id, y)[k];
    SegmentByte(id, if k <= cut then x else y, i);
    if k > cut {
      SegmentByte(id, y, |x| - 1);
    }
  }

  lemma {:induction false} SpliceBytes(cap: nat, id: nat, x: seq<byte>, y: seq<byte>, cut: nat, a: seq<BusEvent>)
    requires 8 <= |x| <= MAX_PAYLOAD && 8 <= |y| <= MAX_PAYLOAD
    requires cut < CfCount(|x|) <= CfCount(|y|) && Carries(a, Spliced(id, x, y, cut))
    requires IsTransfer(cap, a) && |a| > 1 && a[0].frame.FfLength() == |x|
    ensures 6 + 7 * cut < |x| <= |y| + 7
    ensures MessageOf(cap, a) == x[..6 + 7 * cut] + (y + Zeros(7))[6 + 7 * cut..|x|]
  {
    var held := 6 + 7 * cut;
    SpliceByte(id, x, y, cut, a, |x| - 1);
    var got := BytesOf(a, |x|);
    forall i | 0 <= i < |got|
      ensures got[i] == (x[..held] + (y + Zeros(7))[held..|x|])[i]
    {
      SpliceByte(id, x, y, cut, a, i);
    }
  }

  /**
   * A lost head goes unnoticed: when the tail of `x` and the head of `y` are lost, and `y` is long
   * enough to supply the missing numbers, the receiver returns the front of `x` with the rear of `y`
   * (padded if `y` is shorter). That is neither message, except in the two cases of equal parts.
   */
  lemma {:induction false} SpliceUndetected(addr: Address, cap: nat, id: nat, x: seq<byte>, y: seq<byte>, cut: nat,
                                            a: seq<BusEvent>, evs: seq<BusEvent>)
    requires 8 <= |x| <= MAX_PAYLOAD && 8 <= |y| <= MAX_PAYLOAD && |x| <= cap
    requires cut < CfCount(|x|) <= CfCount(|y|)
    requires Addressed(addr.rxId, evs) == a && Timely(a) && Carries(a, Spliced(id, x, y, cut))
    ensures var held := 6 + 7 * cut;
            && held < |x| <= |y| + 7 && held <= |y|
            && var msg := x[..held] + (y + Zeros(7))[held..|x|];
               && RxRun(addr, cap, Idle, evs).verdict == Complete(msg)
               && (msg == x <==> x[held..] == (y + Zeros(7))[held..|x|])
               && (msg == y <==> |x| == |y| && x[..held] == y[..held])
  {
    var held := 6 + 7 * cut;
    ForeignTrafficInvisible(addr, cap, Idle, evs);
    SpliceIsTransfer(cap, id, x, y, cut, a);
    SpliceBytes(cap, id, x, y, cut, a);
    TransferCompletes(addr, cap, a);
    SpliceCompared(x, y, held);
  }

  lemma {:induction false} SpliceCompared(x: seq<byte>, y: seq<byte>, held: nat)
    requires held < |x| <= |y| + 7 && held <= |y|
    ensures var msg := x[..held] + (y + Zeros(7))[held..|x|];
            && (msg == x <==> x[held..] == (y + Zeros(7))[held..|x|])
            && (msg == y <==> |x| == |y| && x[..held] == y[..held])
  {
    var rear := (y + Zeros(7))[held..|x|];
    var msg := x[..held] + rear;
    assert x == x[..held] + x[held..];
    assert msg[..held] == x[..held] && msg[held..] == rear;
    if |x| == |y| {
      assert rear == y[held..];
      assert y == y[..held] + y[held..];
    }
  }
}
