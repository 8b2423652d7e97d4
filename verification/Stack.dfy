/** The transport, the threads and the server together, end to end. */
module Stack {
  import opened Bytes
  import opened IsoTp
  import opened IsoTpChannel
  import opened IsoTpStream
  import opened Pipeline
  import opened Runs
  import opened Uds
  import IsoTpCode
  import UdsProps

  /** The tester's end: its addresses mirror the ECU's. */
  function Tester(ecu: Address): Address {
    Address(ecu.txId, ecu.rxId)
  }

  /** The send of `data` succeeded, with `frames` on the bus, for some answer to its First Frame and some bus. */
  ghost predicate SentAs(addr: Address, data: seq<byte>, fc: FcVerdict, ok: nat -> bool, frames: seq<Frame>) {
    1 <= |data| <= MAX_PAYLOAD && IsoTpCode.SendContract(addr, data, fc, ok, IsoTpCode.Returned(0), frames)
  }

  /**
   * In every reachable state, for every request the tester manages to send: if its frames reach the
   * ECU in time, the ECU assembles exactly that request. If the dispatch thread sends an answer to it
   * and the send succeeds, and the frames reach the tester in time, the tester assembles exactly that
   * answer. Other traffic is immaterial.
   */
  lemma {:induction false} RequestResponse(ecu: Address, t0: nat, acts: seq<Timed>, n: nat, t: Timed, answer: seq<byte>,
                                           fcs: (FcVerdict, FcVerdict), oks: (nat -> bool, nat -> bool),
                                           request: seq<Frame>, response: seq<Frame>,
                                           toEcu: seq<BusEvent>, toTester: seq<BusEvent>)
    requires n <= |acts| && t.action.Request? && Outgoing(Answer(StateAt(Boot(t0), acts, n), t)) == [answer]
    requires SentAs(Tester(ecu), t.action.req, fcs.0, oks.0, request)
    requires var a := Addressed(ecu.rxId, toEcu); Carries(a, request) && Timely(a)
    requires SentAs(ecu, answer, fcs.1, oks.1, response)
    requires var a := Addressed(ecu.txId, toTester); Carries(a, response) && Timely(a)
    ensures RxRun(ecu, RESP_CAP, Idle, toEcu).verdict == Complete(t.action.req)
    ensures RxRun(Tester(ecu), RESP_CAP, Idle, toTester).verdict == Complete(answer)
    ensures |answer| <= 67 && UdsProps.Disciplined(StateAt(Boot(t0), acts, n), t.action.req, Reply(0, Next(StateAt(Boot(t0), acts, n), t), answer))
  {
    var e := StateAt(Boot(t0), acts, n);
    ReachableInv(Boot(t0), acts, n);
    UdsProps.ResponseDiscipline(e, t.action.req, RESP_CAP, t.now, t.action.entropy);
    RoundTrip(ecu, RESP_CAP, ecu.rxId, t.action.req, toEcu);
    RoundTrip(Tester(ecu), RESP_CAP, ecu.txId, answer, toTester);
  }

  /**
   * A whole dialogue, from boot and in every interleaving of the threads: if the tester's requests
   * reach the ECU and what the ECU sends reaches the tester, the tester, receiving again and again,
   * gets what a sequential server answers to a prefix of its requests, at most ten behind those read.
   */
  lemma {:induction false} Dialogue(ecu: Address, t0: nat, requests: seq<seq<byte>>,
                                    toEcu: seq<BusEvent>, up: seq<seq<BusEvent>>,
                                    steps: seq<Step>, p: Pipe,
                                    toTester: seq<BusEvent>, down: seq<seq<BusEvent>>)
    requires Legal(requests) && CarriesAll(ecu.rxId, requests, up) && Addressed(ecu.rxId, toEcu) == Flatten(up)
    requires Steps(Start(Boot(t0)), steps, p) && p.received <= Received(ecu, RESP_CAP, toEcu)
    requires Legal(p.sent) ==> CarriesAll(ecu.txId, p.sent, down) && Addressed(ecu.txId, toTester) == Flatten(down)
    ensures Requests(p.log) <= requests && |p.received| - |Requests(p.log)| <= 10
    ensures Received(Tester(ecu), RESP_CAP, toTester) == Responses(Boot(t0), p.log)
    ensures SendsAll(Boot(t0), p.log, Received(Tester(ecu), RESP_CAP, toTester))
  {
    AllReceived(ecu, ecu.rxId, requests, up, toEcu);
    RefinesSequentialServer(Boot(t0), steps, p);
    SentExactly(Boot(t0), steps, p);
    ResponsesFit(Boot(t0), p.log);
    AllReceived(Tester(ecu), ecu.txId, p.sent, down, toTester);
  }

  lemma {:induction false} AllReceived(addr: Address, id: nat, msgs: seq<seq<byte>>, cs: seq<seq<BusEvent>>, evs: seq<BusEvent>)
    requires Legal(msgs) && CarriesAll(id, msgs, cs) && Addressed(addr.rxId, evs) == Flatten(cs)
    ensures Received(addr, RESP_CAP, evs) == msgs
  {
    StreamRoundTrip(addr, RESP_CAP, id, msgs, cs, evs);
    AllFit(RESP_CAP, msgs);
  }

  lemma {:induction false} AllFit(cap: nat, msgs: seq<seq<byte>>)
    requires Legal(msgs) && cap >= MAX_PAYLOAD
    ensures Fitting(cap, msgs) == msgs
  {
    if msgs != [] {
      AllFit(cap, msgs[1..]);
      assert msgs == [msgs[0]] + msgs[1..];
    }
  }
}
