/** The mutable ECU of vecu.c with the handlers of uds.c, proved against `Uds`. */
module UdsCode {
  import opened Bytes
  import opened Uds
  import opened UdsProps
  import Dtc
  import Security

  /** The call returned `rc` and wrote the reply `r` to the front of the response buffer. */
  ghost predicate Answers(r: Reply, ecu: Ecu, rc: int, len: nat, buf: seq<byte>) {
    && rc == r.rc
    && ecu == r.ecu
    && (rc >= 0 ==> len == |r.bytes| <= |buf| && buf[..len] == r.bytes)
  }

  /** Nothing from position `from` on has been written. */
  ghost predicate Untouched(buf: seq<byte>, before: seq<byte>, from: nat) {
    |buf| == |before| && forall i :: from <= i < |buf| ==> buf[i] == before[i]
  }

  method BuildNrc(sid: byte, nrc: byte, resp: array<byte>) returns (len: nat)
    requires resp.Length >= 3
    modifies resp
    ensures len == 3 && resp[..3] == [NEGATIVE, sid, nrc] && Untouched(resp[..], old(resp[..]), 3)
  {
    resp[0], resp[1], resp[2] := NEGATIVE, sid, nrc;
    len := 3;
  }

  /** Writes the six bytes of a session response: P2 and P2* follow the header. */
  method PutSession(sid: byte, sub: byte, resp: array<byte>) returns (len: nat)
    requires resp.Length >= 6
    modifies resp
    ensures len == 6 && resp[..6] == [sid, sub, 0x00, 0x32, 0x01, 0xF4] && Untouched(resp[..], old(resp[..]), 6)
  {
    resp[0], resp[1] := sid, sub;
    resp[2], resp[3], resp[4], resp[5] := 0x00, 0x32, 0x01, 0xF4;
    len := 6;
  }

  /** Writes the six bytes of a seed response. */
  method PutSeed(sid: byte, sub: byte, seed: word, resp: array<byte>) returns (len: nat)
    requires resp.Length >= 6
    modifies resp
    ensures len == 6 && resp[..6] == [sid, sub] + Write32(seed) && Untouched(resp[..], old(resp[..]), 6)
  {
    var bytes := Write32(seed);
    resp[0], resp[1] := sid, sub;
    resp[2], resp[3], resp[4], resp[5] := bytes[0], bytes[1], bytes[2], bytes[3];
    len := 6;
    assert resp[..6] == [sid, sub] + bytes;
  }

  /** Writes a header and a payload to the front of the response. */
  method WriteReply(header: seq<byte>, payload: seq<byte>, resp: array<byte>) returns (len: nat)
    requires |header| + |payload| <= resp.Length
    modifies resp
    ensures len == |header| + |payload| && resp[..len] == header + payload && Untouched(resp[..], old(resp[..]), len)
  {
    forall i | 0 <= i < |header| {
      resp[i] := header[i];
    }
    forall i | 0 <= i < |payload| {
      resp[|header| + i] := payload[i];
    }
    len := |header| + |payload|;
  }

  function DispatchTable(): seq<byte> {
    [
      SID_SESSION_CONTROL, SID_ECU_RESET, SID_CLEAR_DTC, SID_READ_DTC,
      SID_READ_DID, SID_SECURITY_ACCESS, SID_WRITE_DID, SID_TESTER_PRESENT
    ]
  }

  class Vecu {
    var session: byte
    var lastTesterPresentMs: nat
    const security: Security.SecurityState
    const dtcs: Dtc.DtcMem
    const ownerName: array<byte>
    var ownerLen: nat
    var engine: Engine

    ghost predicate Valid()
      reads this, dtcs, dtcs.entries
    {
      ownerName.Length == OWNER_CAP && ownerLen <= OWNER_CAP && dtcs.Valid()
    }

    ghost function View(): (e: Ecu)
      reads this, security, dtcs, dtcs.entries, ownerName
      requires Valid()
      ensures Bounded(e)
    {
      Ecu(session, lastTesterPresentMs, security.View(), dtcs.View(), ownerName[..ownerLen], engine)
    }

    constructor (now: nat)
      ensures Valid() && View() == Boot(now)
      ensures fresh(security) && fresh(dtcs) && fresh(dtcs.entries) && fresh(ownerName)
    {
      session, lastTesterPresentMs := SESSION_DEFAULT, now;
      var def := Ascii("ANONYMOUS");
      ownerName := new byte[OWNER_CAP](i => if 0 <= i < |def| then def[i] else 0);
      ownerLen := |def|;
      engine := Engine(3200, 0, 60);
      dtcs := new Dtc.DtcMem();
      security := new Security.SecurityState();
      new;
      assert ownerName[..ownerLen] == def;
      var ok := dtcs.Append(0x030100, 0x29);
      ok := dtcs.Append(0x042000, 0x29);
    }

    method SetSession(s: byte, now: nat)
      requires Valid()
      modifies this
      ensures Valid() && View() == Uds.SetSession(old(View()), s, now)
    {
      session := s;
      lastTesterPresentMs := now;
    }

    predicate IsExtendedSession()
      reads this
    {
      session == SESSION_EXTENDED || session == SESSION_PROGRAMMING
    }

    // ---------- handlers ----------

    method SessionControl(req: seq<byte>, resp: array<byte>, cap: nat, now: nat) returns (rc: int, len: nat)
      requires Valid() && |req| >= 1 && 3 <= cap <= resp.Length && resp != ownerName
      modifies this, resp
      ensures Valid() && Answers(Uds.SessionControl(old(View()), req, cap, now), View(), rc, len, resp[..])
      ensures Untouched(resp[..], old(resp[..]), cap)
    {
      rc := 0;
      if |req| != 2 {
        len := BuildNrc(req[0], NRC_INCORRECT_LENGTH, resp);
        return;
      }
      var sub := req[1] % 0x80;
      if sub != 1 && sub != 2 && sub != 3 {
        len := BuildNrc(req[0], NRC_SUB_FUNCTION_NOT_SUPPORTED, resp);
        return;
      }
      SetSession(sub, now);
      if cap < 6 { return -1, 0; }
      len := PutSession(PositiveSid(req[0]), sub, resp);
      if req[1] >= 0x80 { rc := 1; }
    }

    method EcuReset(req: seq<byte>, resp: array<byte>, cap: nat, now: nat) returns (rc: int, len: nat)
      requires Valid() && |req| >= 1 && 3 <= cap <= resp.Length && resp != ownerName
      modifies this, security, resp
      ensures Valid() && Answers(Uds.EcuReset(old(View()), req, now), View(), rc, len, resp[..])
      ensures Untouched(resp[..], old(resp[..]), cap)
    {
      rc := 0;
      if |req| != 2 {
        len := BuildNrc(req[0], NRC_INCORRECT_LENGTH, resp);
        return;
      }
      var sub := req[1] % 0x80;
      if sub != 1 && sub != 2 && sub != 3 {
        len := BuildNrc(req[0], NRC_SUB_FUNCTION_NOT_SUPPORTED, resp);
        return;
      }
      SetSession(SESSION_DEFAULT, now);
      security.Clear();
      resp[0], resp[1] := PositiveSid(req[0]), sub;
      len := 2;
      if req[1] >= 0x80 { rc := 1; }
    }

    method ClearDtc(req: seq<byte>, resp: array<byte>, cap: nat) returns (rc: int, len: nat)
      requires Valid() && |req| >= 1 && 3 <= cap <= resp.Length && resp != ownerName
      modifies dtcs, dtcs.entries, resp
      ensures Valid() && Answers(Uds.ClearDtc(old(View()), req), View(), rc, len, resp[..])
      ensures Untouched(resp[..], old(resp[..]), cap)
    {
      rc := 0;
      if |req| != 4 {
        len := BuildNrc(req[0], NRC_INCORRECT_LENGTH, resp);
        return;
      }
      if !(req[1] == 0xFF && req[2] == 0xFF && req[3] == 0xFF) {
        len := BuildNrc(req[0], NRC_OUT_OF_RANGE, resp);
        return;
      }
      var n := dtcs.ClearAll();
      resp[0] := PositiveSid(req[0]);
      len := 1;
    }

    method ReadDtc(req: seq<byte>, resp: array<byte>, cap: nat) returns (rc: int, len: nat)
      requires Valid() && |req| >= 1 && 3 <= cap <= resp.Length && resp != ownerName
      modifies resp
      ensures Valid() && Answers(Uds.ReadDtc(old(View()), req, cap), View(), rc, len, resp[..])
      ensures Untouched(resp[..], old(resp[..]), cap)
    {
      rc := 0;
      if |req| < 2 {
        len := BuildNrc(req[0], NRC_INCORRECT_LENGTH, resp);
        return;
      }
      if req[1] % 0x80 != 2 {
        len := BuildNrc(req[0], NRC_SUB_FUNCTION_NOT_SUPPORTED, resp);
        return;
      }
      if |req| != 3 {
        len := BuildNrc(req[0], NRC_INCORRECT_LENGTH, resp);
        return;
      }
      var snap := new Dtc.Entry[Dtc.DTC_MAX](i => Dtc.Entry(0, 0));
      var n := dtcs.SnapshotByMask(req[2], snap);
      ghost var found := Dtc.Filter(dtcs.View(), req[2]);
      assert snap[..n] == found;
      var need := 3 + n * 4;
      if cap < need {
        len := BuildNrc(req[0], NRC_RESPONSE_TOO_LONG, resp);
        return;
      }
      len := WriteReply([PositiveSid(req[0]), 2, Dtc.AVAILABILITY_MASK], [], resp);
      assert resp[..3] == [PositiveSid(req[0]), 2, Dtc.AVAILABILITY_MASK];
      WriteRecords(snap, n, resp);
      len := need;
      if req[1] >= 0x80 { rc := 1; }
    }

    method ReadDid(req: seq<byte>, resp: array<byte>, cap: nat) returns (rc: int, len: nat)
      requires Valid() && |req| >= 1 && 3 <= cap <= resp.Length && resp != ownerName
      modifies resp
      ensures Valid() && Answers(Uds.ReadDid(old(View()), req, cap), View(), rc, len, resp[..])
      ensures Untouched(resp[..], old(resp[..]), cap)
    {
      rc := 0;
      if |req| != 3 {
        len := BuildNrc(req[0], NRC_INCORRECT_LENGTH, resp);
        return;
      }
      var found := FindDid(Read16(req[1], req[2]));
      if found.Unknown? {
        len := BuildNrc(req[0], NRC_OUT_OF_RANGE, resp);
        return;
      }
      var payload := ReadPayload(found.entry.source);
      if cap < 3 + |payload| {
        len := BuildNrc(req[0], NRC_RESPONSE_TOO_LONG, resp);
        return;
      }
      len := WriteReply([PositiveSid(req[0]), req[1], req[2]], payload, resp);
    }

    method ReadPayload(source: Source) returns (payload: seq<byte>)
      requires Valid()
      ensures payload == ReadSource(View(), source)
    {
      match source
      case Static(data) => payload := data;
      case Rpm => payload := [engine.rpm as int / 0x100, engine.rpm as int % 0x100];
      case Speed => payload := [engine.speed];
      case Coolant =>
        var enc: int := engine.coolant as int + 40;
        if enc > 0xFF { enc := 0xFF; }
        payload := [enc];
      case Owner => payload := ownerName[..ownerLen];
    }

    method SecurityAccess(req: seq<byte>, resp: array<byte>, cap: nat, now: nat, entropy: Security.Entropy) returns (rc: int, len: nat)
      requires Valid() && |req| >= 1 && 3 <= cap <= resp.Length && resp != ownerName
      requires req[0] == SID_SECURITY_ACCESS && (resp.Length >= 6 || !Overruns(View(), req, cap, now))
      modifies security, resp
      ensures Valid() && Answers(Uds.SecurityAccess(old(View()), req, now, entropy), View(), rc, len, resp[..])
      ensures Untouched(resp[..], old(resp[..]), if Overruns(old(View()), req, cap, now) then 6 else cap)
    {
      rc := 0;
      if |req| < 2 {
        len := BuildNrc(req[0], NRC_INCORRECT_LENGTH, resp);
        return;
      }
      var sub := req[1] % 0x80;
      if !IsExtendedSession() {
        len := BuildNrc(req[0], NRC_NOT_IN_SESSION, resp);
        return;
      }
      if sub % 2 == 1 {
        rc, len := OnRequestSeed(req, sub, resp, cap, now, entropy);
      } else {
        rc, len := OnSendKey(req, sub, resp, cap, now);
      }
    }

    method OnRequestSeed(req: seq<byte>, sub: byte, resp: array<byte>, cap: nat, now: nat, entropy: Security.Entropy)
      returns (rc: int, len: nat)
      requires Valid() && |req| >= 2 && 3 <= cap <= resp.Length && resp != ownerName
      requires sub == Sub(req[1]) && sub % 2 == 1 && Extended(View())
      requires req[0] == SID_SECURITY_ACCESS && (resp.Length >= 6 || !Overruns(View(), req, cap, now))
      modifies security, resp
      ensures Valid() && Answers(Uds.SecurityAccess(old(View()), req, now, entropy), View(), rc, len, resp[..])
      ensures Untouched(resp[..], old(resp[..]), if Overruns(old(View()), req, cap, now) then 6 else cap)
    {
      rc := 0;
      if |req| != 2 {
        len := BuildNrc(req[0], NRC_INCORRECT_LENGTH, resp);
        return;
      }
      var r := security.IssueSeed(sub, now, entropy);
      if r.SeedRefused? {
        len := BuildNrc(req[0], r.nrc, resp);
        return;
      }
      len := PutSeed(PositiveSid(req[0]), sub, if r.Granted? then r.seed else 0, resp);
      if req[1] >= 0x80 { rc := 1; }
    }

    method OnSendKey(req: seq<byte>, sub: byte, resp: array<byte>, cap: nat, now: nat) returns (rc: int, len: nat)
      requires Valid() && |req| >= 2 && 3 <= cap <= resp.Length && resp != ownerName
      requires sub == Sub(req[1]) && sub % 2 == 0 && Extended(View())
      modifies security, resp
      ensures Valid()
      ensures forall entropy :: Answers(Uds.SecurityAccess(old(View()), req, now, entropy), View(), rc, len, resp[..])
      ensures Untouched(resp[..], old(resp[..]), cap)
    {
      rc := 0;
      if |req| != 6 {
        len := BuildNrc(req[0], NRC_INCORRECT_LENGTH, resp);
        return;
      }
      var r := security.CheckKey((sub as int + 0xFF) % 0x100, Read32(req[2..6]), now);
      if r.KeyRefused? {
        len := BuildNrc(req[0], r.nrc, resp);
        return;
      }
      resp[0], resp[1] := PositiveSid(req[0]), sub;
      len := 2;
      if req[1] >= 0x80 { rc := 1; }
    }

    method WriteDid(req: seq<byte>, resp: array<byte>, cap: nat) returns (rc: int, len: nat)
      requires Valid() && |req| >= 1 && 3 <= cap <= resp.Length && resp != ownerName
      modifies this, ownerName, resp
      ensures Valid() && Answers(Uds.WriteDid(old(View()), req), View(), rc, len, resp[..])
      ensures Untouched(resp[..], old(resp[..]), cap)
    {
      rc := 0;
      if |req| < 4 {
        len := BuildNrc(req[0], NRC_INCORRECT_LENGTH, resp);
        return;
      }
      var found := FindDid(Read16(req[1], req[2]));
      if found.Unknown? || !found.entry.writable {
        len := BuildNrc(req[0], NRC_OUT_OF_RANGE, resp);
        return;
      }
      if found.entry.needsExtended && !IsExtendedSession() {
        len := BuildNrc(req[0], NRC_NOT_IN_SESSION, resp);
        return;
      }
      if found.entry.needsSecurity && !(security.unlockedLevel >= 1) {
        len := BuildNrc(req[0], NRC_ACCESS_DENIED, resp);
        return;
      }
      var ok := OwnerWrite(req[3..]);
      if !ok {
        len := BuildNrc(req[0], NRC_CONDITIONS_NOT_CORRECT, resp);
        return;
      }
      resp[0], resp[1], resp[2] := PositiveSid(req[0]), req[1], req[2];
      len := 3;
    }

    method OwnerWrite(data: seq<byte>) returns (ok: bool)
      requires Valid()
      modifies this, ownerName
      ensures Valid() && (ok <==> 1 <= |data| <= 32)
      ensures View() == if ok then old(View()).(owner := data) else old(View())
    {
      if |data| == 0 || |data| > OWNER_CAP { return false; }
      forall i | 0 <= i < |data| {
        ownerName[i] := data[i];
      }
      ownerLen := |data|;
      assert ownerName[..ownerLen] == data;
      ok := true;
    }

    method TesterPresent(req: seq<byte>, resp: array<byte>, cap: nat, now: nat) returns (rc: int, len: nat)
      requires Valid() && |req| >= 1 && 3 <= cap <= resp.Length && resp != ownerName
      modifies this, resp
      ensures Valid() && Answers(Uds.TesterPresent(old(View()), req, now), View(), rc, len, resp[..])
      ensures Untouched(resp[..], old(resp[..]), cap)
    {
      rc := 0;
      if |req| != 2 {
        len := BuildNrc(req[0], NRC_INCORRECT_LENGTH, resp);
        return;
      }
      if req[1] % 0x80 != 0 {
        len := BuildNrc(req[0], NRC_SUB_FUNCTION_NOT_SUPPORTED, resp);
        return;
      }
      lastTesterPresentMs := now;
      resp[0], resp[1] := PositiveSid(req[0]), 0;
      len := 2;
      if req[1] >= 0x80 { rc := 1; }
    }

    // ---------- dispatch and the S3 poll ----------

    /**
     * The whole request path: same state change, return code and response bytes as `Uds.Process`, for
     * every capacity, and nothing written past it except by an overrun, for which there must be memory.
     */
    method ProcessRequest(req: seq<byte>, resp: array<byte>, cap: nat, now: nat, entropy: Security.Entropy) returns (rc: int, len: nat)
      requires Valid() && cap <= resp.Length && resp != ownerName
      requires resp.Length >= 6 || !Overruns(View(), req, cap, now)
      modifies this, security, dtcs, dtcs.entries, ownerName, resp
      ensures Valid() && Answers(Process(old(View()), req, cap, now, entropy), View(), rc, len, resp[..])
      ensures Untouched(resp[..], old(resp[..]), if Overruns(old(View()), req, cap, now) then 6 else cap)
    {
      if |req| == 0 || cap < 3 { return -1, 0; }
      var table := DispatchTable();
      var i := 0;
      while i < |table| && table[i] != req[0]
        invariant i <= |table|
        invariant forall j :: 0 <= j < i ==> table[j] != req[0]
      {
        i := i + 1;
      }
      if i == |table| {
        rc := 0;
        len := BuildNrc(req[0], NRC_SERVICE_NOT_SUPPORTED, resp);
        assert table[0] != req[0] && table[1] != req[0] && table[2] != req[0] && table[3] != req[0];
        assert table[4] != req[0] && table[5] != req[0] && table[6] != req[0] && table[7] != req[0];
        return;
      }
      match i {
        case 0 => rc, len := SessionControl(req, resp, cap, now);
        case 1 => rc, len := EcuReset(req, resp, cap, now);
        case 2 => rc, len := ClearDtc(req, resp, cap);
        case 3 => rc, len := ReadDtc(req, resp, cap);
        case 4 => rc, len := ReadDid(req, resp, cap);
        case 5 => rc, len := SecurityAccess(req, resp, cap, now, entropy);
        case 6 => rc, len := WriteDid(req, resp, cap);
        case _ => rc, len := TesterPresent(req, resp, cap, now);
      }
    }

    method PollS3(now: nat)
      requires Valid()
      modifies this, security
      ensures Valid() && View() == S3Poll(old(View()), now)
    {
      if session != SESSION_DEFAULT {
        if (now - lastTesterPresentMs) % U64_RANGE > S3_TIMEOUT_MS {
          SetSession(SESSION_DEFAULT, now);
          security.LockBack();
        }
      }
    }
  }

  /** The table as vecu_init fills it. */
  function DidTable(): seq<DidEntry> {
    [
      DidEntry(0xF190, Static(Ascii("VF1234567890ABCDE")), false, false, false),
      DidEntry(0xF18C, Static(Ascii("ECU-DEMO-001")), false, false, false),
      DidEntry(0xF187, Static(Ascii("SPN-0001")), false, false, false),
      DidEntry(0x010C, Rpm, false, false, false),
      DidEntry(0x010D, Speed, false, false, false),
      DidEntry(0x0105, Coolant, false, false, false),
      DidEntry(OWNER_DID, Owner, true, true, true)
    ]
  }

  /** The linear scan of the DID table. */
  method FindDid(did: nat) returns (r: DidLookup)
    ensures r == Did(did)
  {
    var table := DidTable();
    var i := 0;
    while i < |table|
      invariant i <= |table|
      invariant forall j :: 0 <= j < i ==> table[j].did != did
    {
      if table[i].did == did { return Known(table[i]); }
      i := i + 1;
    }
    assert table[0].did != did && table[1].did != did && table[2].did != did && table[3].did != did;
    assert table[4].did != did && table[5].did != did && table[6].did != did;
    r := Unknown;
  }

  /** Writes the records of `snap[..n]` after the three header bytes. */
  method WriteRecords(snap: array<Dtc.Entry>, n: nat, resp: array<byte>)
    requires n <= snap.Length && resp.Length >= 3 + 4 * n
    modifies resp
    ensures resp[..3 + 4 * n] == old(resp[..3]) + Dtc.Encode(snap[..n]) && Untouched(resp[..], old(resp[..]), 3 + 4 * n)
  {
    var i := 0;
    while i < n
      invariant i <= n
      invariant resp[..3 + 4 * i] == old(resp[..3]) + Dtc.Encode(snap[..i]) && Untouched(resp[..], old(resp[..]), 3 + 4 * i)
    {
      ghost var before := resp[..3 + 4 * i];
      ghost var done := snap[..i];
      var e := snap[i];
      resp[3 + i * 4 + 0] := e.code / 0x1_0000 % 0x100;
      resp[3 + i * 4 + 1] := e.code / 0x100 % 0x100;
      resp[3 + i * 4 + 2] := e.code % 0x100;
      resp[3 + i * 4 + 3] := e.status;
      i := i + 1;
      assert resp[..3 + 4 * i] == before + Dtc.EncodeEntry(e);
      assert snap[..i] == done + [e];
      Dtc.EncodeAppend(done, [e]);
      assert Dtc.Encode([e]) == Dtc.EncodeEntry(e);
    }
  }
}
