/** uds.c on values: the ECU state of vecu.h, the DID table of vecu.c, and the eight service handlers. */
module Uds {
  import opened Bytes
  import Dtc
  import Security

  const SESSION_DEFAULT: byte := 1
  const SESSION_PROGRAMMING: byte := 2
  const SESSION_EXTENDED: byte := 3

  const SID_SESSION_CONTROL: byte := 0x10
  const SID_ECU_RESET: byte := 0x11
  const SID_CLEAR_DTC: byte := 0x14
  const SID_READ_DTC: byte := 0x19
  const SID_READ_DID: byte := 0x22
  const SID_SECURITY_ACCESS: byte := 0x27
  const SID_WRITE_DID: byte := 0x2E
  const SID_TESTER_PRESENT: byte := 0x3E
  const NEGATIVE: byte := 0x7F

  const NRC_SERVICE_NOT_SUPPORTED: byte := 0x11
  const NRC_SUB_FUNCTION_NOT_SUPPORTED: byte := 0x12
  const NRC_INCORRECT_LENGTH: byte := 0x13
  const NRC_RESPONSE_TOO_LONG: byte := 0x14
  const NRC_CONDITIONS_NOT_CORRECT: byte := 0x22
  const NRC_OUT_OF_RANGE: byte := 0x31
  const NRC_ACCESS_DENIED: byte := 0x33
  const NRC_NOT_IN_SESSION: byte := 0x7F

  /** The sub-function services, which know the suppress bit. */
  predicate HasSubFunction(sid: byte) {
    || sid == SID_SESSION_CONTROL
    || sid == SID_ECU_RESET
    || sid == SID_READ_DTC
    || sid == SID_SECURITY_ACCESS
    || sid == SID_TESTER_PRESENT
  }

  // ---------- state ----------

  /** Telemetry, set by the application thread. */
  datatype Engine = Engine(rpm: half, speed: byte, coolant: byte)

  datatype Ecu = Ecu(
    session: byte,
    lastTp: nat,
    sec: Security.Sec,
    dtcs: seq<Dtc.Entry>,
    owner: seq<byte>,
    engine: Engine
  )

  const OWNER_CAP := 32
  const OWNER_DID := 0xF200

  function Ascii(s: string): (r: seq<byte>)
    ensures |r| == |s|
  {
    seq(|s|, i requires 0 <= i < |s| => s[i] as int % 0x100)
  }

  function BootDtcs(): seq<Dtc.Entry> {
    [Dtc.Entry(0x030100, 0x29), Dtc.Entry(0x042000, 0x29)]
  }

  function Boot(now: nat): Ecu {
    Ecu(SESSION_DEFAULT, now, Security.INITIAL, BootDtcs(), Ascii("ANONYMOUS"), Engine(3200, 0, 60))
  }

  /** What the bounded buffers of the C structures guarantee. */
  ghost predicate Bounded(e: Ecu) {
    Dtc.StoreOk(e.dtcs) && |e.owner| <= OWNER_CAP
  }

  predicate Extended(e: Ecu) {
    e.session == SESSION_EXTENDED || e.session == SESSION_PROGRAMMING
  }

  function SetSession(e: Ecu, session: byte, now: nat): Ecu {
    e.(session := session, lastTp := now)
  }

  // ---------- data identifiers ----------

  datatype Source = Static(data: seq<byte>) | Rpm | Speed | Coolant | Owner
  datatype DidEntry = DidEntry(did: nat, source: Source, writable: bool, needsSecurity: bool, needsExtended: bool)
  datatype DidLookup = Unknown | Known(entry: DidEntry)

  /** What the registrations of vecu_init make of an identifier. */
  function Did(did: nat): DidLookup {
    if did == 0xF190 then Known(DidEntry(did, Static(Ascii("VF1234567890ABCDE")), false, false, false))
    else if did == 0xF18C then Known(DidEntry(did, Static(Ascii("ECU-DEMO-001")), false, false, false))
    else if did == 0xF187 then Known(DidEntry(did, Static(Ascii("SPN-0001")), false, false, false))
    else if did == 0x010C then Known(DidEntry(did, Rpm, false, false, false))
    else if did == 0x010D then Known(DidEntry(did, Speed, false, false, false))
    else if did == 0x0105 then Known(DidEntry(did, Coolant, false, false, false))
    else if did == OWNER_DID then Known(DidEntry(did, Owner, true, true, true))
    else Unknown
  }

  function ReadSource(e: Ecu, s: Source): seq<byte> {
    match s
    case Static(data) => data
    case Rpm => [e.engine.rpm as int / 0x100, e.engine.rpm as int % 0x100]
    case Speed => [e.engine.speed]
    case Coolant => [Min(e.engine.coolant as int + 40, 0xFF)]
    case Owner => e.owner
  }

  // ---------- replies ----------

  /** Return code, next state, and the response bytes (none when the code is -1). */
  datatype Reply = Reply(rc: int, ecu: Ecu, bytes: seq<byte>)

  function Negative(e: Ecu, sid: byte, nrc: byte): Reply {
    Reply(0, e, [NEGATIVE, sid, nrc])
  }

  function PositiveSid(sid: byte): byte {
    (sid as int + 0x40) % 0x100
  }

  function Sub(raw: byte): byte { raw % 0x80 }
  predicate Suppressed(raw: byte) { raw >= 0x80 }

  function Positive(e: Ecu, raw: byte, bytes: seq<byte>): Reply {
    Reply(if Suppressed(raw) then 1 else 0, e, bytes)
  }

  // ---------- handlers ----------

  function SessionControl(e: Ecu, req: seq<byte>, cap: nat, now: nat): Reply
    requires |req| >= 1
  {
    if |req| != 2 then Negative(e, req[0], NRC_INCORRECT_LENGTH)
    else
      var sub := Sub(req[1]);
      if !(1 <= sub <= 3) then Negative(e, req[0], NRC_SUB_FUNCTION_NOT_SUPPORTED)
      else
        var e' := SetSession(e, sub, now);
        if cap < 6 then Reply(-1, e', [])
        else Positive(e', req[1], [PositiveSid(req[0]), sub, 0x00, 0x32, 0x01, 0xF4])
  }

  function EcuReset(e: Ecu, req: seq<byte>, now: nat): Reply
    requires |req| >= 1
  {
    if |req| != 2 then Negative(e, req[0], NRC_INCORRECT_LENGTH)
    else
      var sub := Sub(req[1]);
      if !(1 <= sub <= 3) then Negative(e, req[0], NRC_SUB_FUNCTION_NOT_SUPPORTED)
      else
        var e' := SetSession(e, SESSION_DEFAULT, now).(sec := Security.Reset(e.sec));
        Positive(e', req[1], [PositiveSid(req[0]), sub])
  }

  function ClearDtc(e: Ecu, req: seq<byte>): Reply
    requires |req| >= 1
  {
    if |req| != 4 then Negative(e, req[0], NRC_INCORRECT_LENGTH)
    else if !(req[1] == 0xFF && req[2] == 0xFF && req[3] == 0xFF) then Negative(e, req[0], NRC_OUT_OF_RANGE)
    else Reply(0, e.(dtcs := []), [PositiveSid(req[0])])
  }

  function ReadDtc(e: Ecu, req: seq<byte>, cap: nat): Reply
    requires |req| >= 1
  {
    if |req| < 2 then Negative(e, req[0], NRC_INCORRECT_LENGTH)
    else if Sub(req[1]) != 2 then Negative(e, req[0], NRC_SUB_FUNCTION_NOT_SUPPORTED)
    else if |req| != 3 then Negative(e, req[0], NRC_INCORRECT_LENGTH)
    else
      var snap := Dtc.Filter(e.dtcs, req[2]);
      if cap < 3 + 4 * |snap| then Negative(e, req[0], NRC_RESPONSE_TOO_LONG)
      else Positive(e, req[1], [PositiveSid(req[0]), 2, Dtc.AVAILABILITY_MASK] + Dtc.Encode(snap))
  }

  function ReadDid(e: Ecu, req: seq<byte>, cap: nat): Reply
    requires |req| >= 1
  {
    if |req| != 3 then Negative(e, req[0], NRC_INCORRECT_LENGTH)
    else
      match Did(Read16(req[1], req[2]))
      case Unknown => Negative(e, req[0], NRC_OUT_OF_RANGE)
      case Known(d) =>
        var payload := ReadSource(e, d.source);
        if cap < 3 + |payload| then Negative(e, req[0], NRC_RESPONSE_TOO_LONG)
        else Reply(0, e, [PositiveSid(req[0]), req[1], req[2]] + payload)
  }

  function SecurityAccess(e: Ecu, req: seq<byte>, now: nat, entropy: Security.Entropy): Reply
    requires |req| >= 1
  {
    if |req| < 2 then Negative(e, req[0], NRC_INCORRECT_LENGTH)
    else if !Extended(e) then Negative(e, req[0], NRC_NOT_IN_SESSION)
    else
      var sub := Sub(req[1]);
      if sub % 2 == 1 then
        if |req| != 2 then Negative(e, req[0], NRC_INCORRECT_LENGTH)
        else
          var (sec, r) := Security.RequestSeed(e.sec, sub, now, entropy);
          var e' := e.(sec := sec);
          match r
          case SeedRefused(nrc) => Negative(e', req[0], nrc)
          case AlreadyUnlocked => Positive(e', req[1], [PositiveSid(req[0]), sub] + Write32(0))
          case Granted(seed) => Positive(e', req[1], [PositiveSid(req[0]), sub] + Write32(seed))
      else if |req| != 6 then Negative(e, req[0], NRC_INCORRECT_LENGTH)
      else
        var level: byte := (sub as int + 0xFF) % 0x100;
        var (sec, r) := Security.SendKey(e.sec, level, Read32(req[2..6]), now);
        var e' := e.(sec := sec);
        match r
        case KeyRefused(nrc) => Negative(e', req[0], nrc)
        case KeyAccepted => Positive(e', req[1], [PositiveSid(req[0]), sub])
  }

  function WriteDid(e: Ecu, req: seq<byte>): Reply
    requires |req| >= 1
  {
    if |req| < 4 then Negative(e, req[0], NRC_INCORRECT_LENGTH)
    else
      match Did(Read16(req[1], req[2]))
      case Unknown => Negative(e, req[0], NRC_OUT_OF_RANGE)
      case Known(d) =>
        if !d.writable then Negative(e, req[0], NRC_OUT_OF_RANGE)
        else if d.needsExtended && !Extended(e) then Negative(e, req[0], NRC_NOT_IN_SESSION)
        else if d.needsSecurity && e.sec.unlocked < 1 then Negative(e, req[0], NRC_ACCESS_DENIED)
        else if |req| - 3 > OWNER_CAP then Negative(e, req[0], NRC_CONDITIONS_NOT_CORRECT)
        else Reply(0, e.(owner := req[3..]), [PositiveSid(req[0]), req[1], req[2]])
  }

  function TesterPresent(e: Ecu, req: seq<byte>, now: nat): Reply
    requires |req| >= 1
  {
    if |req| != 2 then Negative(e, req[0], NRC_INCORRECT_LENGTH)
    else if Sub(req[1]) != 0 then Negative(e, req[0], NRC_SUB_FUNCTION_NOT_SUPPORTED)
    else Positive(e.(lastTp := now), req[1], [PositiveSid(req[0]), 0])
  }

  /** One request against the ECU: response capacity, clock and entropy are inputs. */
  function Process(e: Ecu, req: seq<byte>, cap: nat, now: nat, entropy: Security.Entropy): Reply {
    if |req| == 0 || cap < 3 then Reply(-1, e, [])
    else if req[0] == SID_SESSION_CONTROL then SessionControl(e, req, cap, now)
    else if req[0] == SID_ECU_RESET then EcuReset(e, req, now)
    else if req[0] == SID_CLEAR_DTC then ClearDtc(e, req)
    else if req[0] == SID_READ_DTC then ReadDtc(e, req, cap)
    else if req[0] == SID_READ_DID then ReadDid(e, req, cap)
    else if req[0] == SID_SECURITY_ACCESS then SecurityAccess(e, req, now, entropy)
    else if req[0] == SID_WRITE_DID then WriteDid(e, req)
    else if req[0] == SID_TESTER_PRESENT then TesterPresent(e, req, now)
    else Negative(e, req[0], NRC_SERVICE_NOT_SUPPORTED)
  }

  // ---------- the S3 poll ----------

  const S3_TIMEOUT_MS := 5000
  const U64_RANGE := 0x1_0000_0000_0000_0000

  /** The comparison the poll makes, in 64-bit unsigned arithmetic. */
  predicate S3Expired(now: nat, lastTp: nat) {
    (now - lastTp) % U64_RANGE > S3_TIMEOUT_MS
  }

  /** One poll with its clock readings and locks taken as one atomic step. */
  function S3Poll(e: Ecu, now: nat): Ecu {
    if e.session != SESSION_DEFAULT && S3Expired(now, e.lastTp) then
      SetSession(e, SESSION_DEFAULT, now).(sec := Security.Relock(e.sec))
    else e
  }
}
