/** Properties of one call of the dispatcher and of one S3 poll, for every state and every request. */
module UdsProps {
  import opened Bytes
  import opened Uds
  import Dtc
  import Security

  /**
   * Service 27 writes its six-byte seed response without looking at the capacity: a granted seed, or
   * the zero seed of an unlocked level.
   */
  predicate Overruns(e: Ecu, req: seq<byte>, cap: nat, now: nat) {
    && 3 <= cap < 6
    && |req| == 2 && req[0] == SID_SECURITY_ACCESS && Sub(req[1]) == 1
    && Extended(e)
    && (e.sec.unlocked >= 1 || !Security.LockedOut(e.sec, now))
  }

  /** A response is longer than the buffer exactly then, for every state, request and capacity. */
  lemma {:induction false} OverrunExactly(e: Ecu, req: seq<byte>, cap: nat, now: nat, entropy: Security.Entropy)
    ensures |Process(e, req, cap, now, entropy).bytes| > cap <==> Overruns(e, req, cap, now)
  {
    if |req| >= 1 && cap >= 3 && req[0] == SID_SECURITY_ACCESS {
      SeedResponseLength(e, req, now, entropy);
    }
  }

  lemma {:induction false} SeedResponseLength(e: Ecu, req: seq<byte>, now: nat, entropy: Security.Entropy)
    requires |req| >= 1
    ensures |SecurityAccess(e, req, now, entropy).bytes| ==
            if |req| == 2 && Sub(req[1]) == 1 && Extended(e) && (e.sec.unlocked >= 1 || !Security.LockedOut(e.sec, now)) then 6
            else if |req| == 6 && Extended(e) && Sub(req[1]) == 2 && Security.SendKey(e.sec, 1, Read32(req[2..6]), now).1.KeyAccepted? then 2
            else 3
  {
    if |req| == 2 && Extended(e) && Sub(req[1]) % 2 == 1 {
      SeedReplyLength(e, req, now, entropy);
    } else if |req| == 6 && Extended(e) && Sub(req[1]) % 2 == 0 {
      KeyReplyLength(e, req, now, entropy);
    }
  }

  lemma {:induction false} SeedReplyLength(e: Ecu, req: seq<byte>, now: nat, entropy: Security.Entropy)
    requires |req| == 2 && Extended(e) && Sub(req[1]) % 2 == 1
    ensures |SecurityAccess(e, req, now, entropy).bytes| ==
            if Sub(req[1]) == 1 && (e.sec.unlocked >= 1 || !Security.LockedOut(e.sec, now)) then 6 else 3
  {
    var reply := Security.RequestSeed(e.sec, Sub(req[1]), now, entropy).1;
    assert |SecurityAccess(e, req, now, entropy).bytes| == if reply.SeedRefused? then 3 else 6;
  }

  lemma {:induction false} KeyReplyLength(e: Ecu, req: seq<byte>, now: nat, entropy: Security.Entropy)
    requires |req| == 6 && Extended(e) && Sub(req[1]) % 2 == 0
    ensures |SecurityAccess(e, req, now, entropy).bytes| ==
            if Sub(req[1]) == 2 && Security.SendKey(e.sec, 1, Read32(req[2..6]), now).1.KeyAccepted? then 2 else 3
  {
    var level: byte := (Sub(req[1]) as int + 0xFF) % 0x100;
    assert level == 1 <==> Sub(req[1]) == 2;
    var reply := Security.SendKey(e.sec, level, Read32(req[2..6]), now).1;
    assert |SecurityAccess(e, req, now, entropy).bytes| == if reply.KeyRefused? then 3 else 2;
  }

  /** Dropped with -1: a session change that is applied although its response does not fit. */
  predicate Dropped(req: seq<byte>, cap: nat) {
    cap < 6 && |req| == 2 && req[0] == SID_SESSION_CONTROL && 1 <= Sub(req[1]) <= 3
  }

  /** Response codes and shapes that a tester may rely on. */
  ghost predicate Disciplined(e: Ecu, req: seq<byte>, r: Reply)
    requires |req| >= 1
  {
    && (r.rc == 0 || r.rc == 1)
    && 1 <= |r.bytes| <= 67
    && (r.bytes[0] == NEGATIVE || r.bytes[0] == req[0] as int + 0x40 < NEGATIVE as int)
    && (r.bytes[0] == NEGATIVE ==> r.rc == 0 && |r.bytes| == 3 && r.bytes[1] == req[0])
    && (r.rc == 1 <==> r.bytes[0] != NEGATIVE && HasSubFunction(req[0]) && |req| >= 2 && req[1] >= 0x80)
  }

  /**
   * Every non-empty request that is not dropped is answered: negatively with [7F, sid, nrc], or
   * positively with sid + 40, in at most 67 bytes, and within the buffer unless service 27 overruns
   * it; only positive answers to sub-function services are ever suppressed.
   */
  lemma {:induction false} ResponseDiscipline(e: Ecu, req: seq<byte>, cap: nat, now: nat, entropy: Security.Entropy)
    requires Bounded(e) && |req| >= 1 && cap >= 3
    ensures var r := Process(e, req, cap, now, entropy);
            if Dropped(req, cap) then r == Reply(-1, SetSession(e, Sub(req[1]), now), [])
            else Disciplined(e, req, r) && (|r.bytes| <= cap <==> !Overruns(e, req, cap, now))
  {
    OverrunExactly(e, req, cap, now, entropy);
    if req[0] == SID_READ_DTC {
      assert Disciplined(e, req, ReadDtc(e, req, cap));
    } else if req[0] == SID_READ_DID {
      assert Disciplined(e, req, ReadDid(e, req, cap));
    } else if req[0] == SID_SECURITY_ACCESS {
      assert Disciplined(e, req, SecurityAccess(e, req, now, entropy));
    }
  }

  /** If the reply is negative, the state is unchanged unless it reports a used-up seed. */
  ghost predicate Harmless(e: Ecu, r: Reply) {
    |r.bytes| == 3 && r.bytes[0] == NEGATIVE ==>
      if r.bytes[2] == Security.NRC_INVALID_KEY || r.bytes[2] == Security.NRC_EXCEEDED_ATTEMPTS
      then e.sec.seedIssued && r.ecu == e.(sec := r.ecu.sec) && !r.ecu.sec.seedIssued && r.ecu.sec.unlocked == e.sec.unlocked
      else r.ecu == e
  }

  /** A negative answer changes nothing, except that NRC 35 and 36 report a used-up seed. */
  lemma {:induction false} NegativeChangesNothing(e: Ecu, req: seq<byte>, cap: nat, now: nat, entropy: Security.Entropy)
    requires |req| >= 1
    ensures Harmless(e, Process(e, req, cap, now, entropy))
  {
  }

  /** Each part of the state is changed only by the services meant to change it. */
  lemma {:induction false} FrameByService(e: Ecu, req: seq<byte>, cap: nat, now: nat, entropy: Security.Entropy)
    requires |req| >= 1
    ensures var r := Process(e, req, cap, now, entropy).ecu;
            && (r.session != e.session ==> req[0] in {SID_SESSION_CONTROL, SID_ECU_RESET} && r.lastTp == now)
            && (r.lastTp != e.lastTp ==> req[0] in {SID_SESSION_CONTROL, SID_ECU_RESET, SID_TESTER_PRESENT} && r.lastTp == now)
            && (r.sec != e.sec ==> req[0] in {SID_ECU_RESET, SID_SECURITY_ACCESS})
            && (r.dtcs != e.dtcs ==> req[0] == SID_CLEAR_DTC && r.dtcs == [])
            && (r.owner != e.owner ==> req[0] == SID_WRITE_DID && |req| >= 4 && r.owner == req[3..])
            && r.engine == e.engine
  {
  }

  /**
   * A dropped request (-1) is not always a request without effect: with a response buffer of
   * 3 to 5 bytes a session change is applied and then dropped. Nothing else is ever dropped, but
   * empty requests and everything if the buffer has less than 3 bytes.
   */
  lemma {:induction false} DroppedExactly(e: Ecu, req: seq<byte>, cap: nat, now: nat, entropy: Security.Entropy)
    ensures var r := Process(e, req, cap, now, entropy);
            && (r.rc == -1 <==> |req| == 0 || cap < 3 || Dropped(req, cap))
            && (r.rc == -1 ==> r.bytes == [] && r.ecu == if |req| >= 2 && cap >= 3 then SetSession(e, Sub(req[1]), now) else e)
  {
  }

  function Flip(req: seq<byte>): seq<byte>
    requires |req| >= 2 && req[1] < 0x80
  {
    req[1 := req[1] + 0x80]
  }

  /** The suppress bit changes nothing but the return code, and that exactly for positive answers that are not dropped. */
  lemma {:induction false} SuppressTransparent(e: Ecu, req: seq<byte>, cap: nat, now: nat, entropy: Security.Entropy)
    requires |req| >= 2 && req[1] < 0x80 && HasSubFunction(req[0]) && cap >= 3
    ensures var plain := Process(e, req, cap, now, entropy);
            var quiet := Process(e, Flip(req), cap, now, entropy);
            && quiet.ecu == plain.ecu
            && quiet.bytes == plain.bytes
            && plain.rc == (if Dropped(req, cap) then -1 else 0)
            && quiet.rc == if Dropped(req, cap) then -1 else if plain.bytes[0] == NEGATIVE then 0 else 1
  {
    var f := Flip(req);
    assert |f| == |req| && f[0] == req[0] && Sub(f[1]) == Sub(req[1]) && Suppressed(f[1]) && !Suppressed(req[1]);
    assert |req| == 6 ==> f[2..6] == req[2..6];
    assert |req| >= 3 ==> f[2] == req[2];
  }

  /** The 19 02 report carries exactly the matching entries, in store order, and is never too long. */
  lemma {:induction false} ReportExact(e: Ecu, req: seq<byte>, cap: nat, now: nat, entropy: Security.Entropy)
    requires Bounded(e) && cap >= 67
    requires |req| == 3 && req[0] == SID_READ_DTC && Sub(req[1]) == 2
    ensures var r := Process(e, req, cap, now, entropy);
            && r.ecu == e
            && r.bytes[..3] == [0x59, 0x02, 0x29]
            && |r.bytes[3..]| % 4 == 0
            && Dtc.Decode(r.bytes[3..]) == Dtc.Filter(e.dtcs, req[2])
  {
    var es := Dtc.Filter(e.dtcs, req[2]);
    Dtc.FilterOk(e.dtcs, req[2]);
    Dtc.ReportRoundTrip(es);
    var head: seq<byte> := [0x59, 0x02, 0x29];
    var r := Process(e, req, cap, now, entropy);
    assert r.bytes == head + Dtc.Encode(es);
    assert r.bytes[3..] == Dtc.Encode(es);
  }

  // ---------- the S3 comparison ----------

  /** In unsigned arithmetic the test also fires when the time stamp is later than the clock sample. */
  lemma {:induction false} S3ExpiredExactly(now: nat, lastTp: nat)
    requires now < U64_RANGE && lastTp < U64_RANGE
    ensures S3Expired(now, lastTp) <==>
            || now - lastTp > 5000
            || (lastTp > now && lastTp - now < U64_RANGE - 5000)
  {
    if lastTp > now {
      assert (now - lastTp) % U64_RANGE == now - lastTp + U64_RANGE;
    } else {
      assert (now - lastTp) % U64_RANGE == now - lastTp;
    }
  }

  /** An atomic poll reverts exactly after more than 5 s of silence, locks security, and touches nothing else. */
  lemma {:induction false} PollExact(e: Ecu, now: nat)
    requires e.lastTp <= now < U64_RANGE
    ensures S3Poll(e, now) ==
            if e.session != SESSION_DEFAULT && now - e.lastTp > 5000
            then e.(session := SESSION_DEFAULT, lastTp := now, sec := e.sec.(unlocked := 0, seedIssued := false))
            else e
  {
    S3ExpiredExactly(now, e.lastTp);
  }
}
