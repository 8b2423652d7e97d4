/**
 * The S3 poll in the steps in which the code makes it. Other threads may run between any two of
 * them: the session is read, the clock is sampled, the time stamp is read, the session is written,
 * and security is locked.
 */
module S3Steps {
  import opened Bytes
  import opened Runs
  import opened Uds
  import opened UdsProps
  import Security

  /** What the poll decides from its three readings. */
  predicate Fires(sessionRead: byte, sample: nat, stampRead: nat) {
    sessionRead != SESSION_DEFAULT && S3Expired(sample, stampRead)
  }

  /** The first write, in whatever state `w` the ECU is then. */
  function WriteSession(fires: bool, w: Ecu, now: nat): Ecu {
    if fires then SetSession(w, SESSION_DEFAULT, now) else w
  }

  /** The second write, under another lock and later. */
  function WriteLock(fires: bool, w: Ecu): Ecu {
    if fires then w.(sec := Security.Relock(w.sec)) else w
  }

  /** If nothing happens between its steps, the poll is the atomic one. */
  lemma {:induction false} UndisturbedPoll(w: Ecu, now: nat)
    ensures var fires := Fires(w.session, now, w.lastTp);
            WriteLock(fires, WriteSession(fires, w, now)) == S3Poll(w, now)
  {
  }

  // ---------- between the readings and the first write ----------

  /**
   * A session that is live when the poll writes (the tester was heard within 5 s) is ended exactly if
   * the comparison fired, and that is exactly in two cases: the time stamp had passed the clock sample
   * when it was read, or it was old when read and the tester was heard between read and write.
   */
  lemma {:induction false} EndsLiveSession(sessionRead: byte, sample: nat, stampRead: nat, w: Ecu, now: nat)
    requires sample <= now < U64_RANGE - 5000 && stampRead <= w.lastTp <= now
    requires w.session != SESSION_DEFAULT && now - w.lastTp <= 5000
    ensures var ended := WriteSession(Fires(sessionRead, sample, stampRead), w, now).session == SESSION_DEFAULT;
            && (ended <==> Fires(sessionRead, sample, stampRead))
            && (ended <==>
                && sessionRead != SESSION_DEFAULT
                && (|| stampRead > sample
                    || (sample - stampRead > 5000 && w.lastTp > stampRead)))
  {
    S3ExpiredExactly(sample, stampRead);
  }

  /** The first case: a TesterPresent handled 1 ms after the sample ends the session it should keep alive. */
  lemma {:induction false} TesterPresentEndsSession(e: Ecu, sample: nat, entropy: Security.Entropy)
    requires e.session != SESSION_DEFAULT && sample + 1 < U64_RANGE - 5000
    ensures var kept := Process(e, [SID_TESTER_PRESENT, 0x00], 4095, sample + 1, entropy).ecu;
            && kept == e.(lastTp := sample + 1)
            && WriteSession(Fires(e.session, sample, kept.lastTp), kept, sample + 1).session == SESSION_DEFAULT
            && S3Poll(kept, sample + 1) == kept
  {
    S3ExpiredExactly(sample, sample + 1);
    S3ExpiredExactly(sample + 1, sample + 1);
  }

  /** The second case: a session opened after an overdue time stamp was read is ended at once. */
  lemma {:induction false} OpenedSessionEnded(e: Ecu, sample: nat, now: nat, entropy: Security.Entropy)
    requires e.session != SESSION_DEFAULT && e.lastTp + 5000 < sample <= now < U64_RANGE - 5000
    ensures var begun := Process(e, [SID_SESSION_CONTROL, SESSION_EXTENDED], 4095, now, entropy).ecu;
            && begun == e.(session := SESSION_EXTENDED, lastTp := now)
            && WriteSession(Fires(e.session, sample, e.lastTp), begun, now).session == SESSION_DEFAULT
            && S3Poll(begun, now) == begun
  {
    S3ExpiredExactly(sample, e.lastTp);
    S3ExpiredExactly(now, now);
  }

  // ---------- between the two writes ----------

  /** If the action is a request, it gets the same answer in both states. */
  ghost predicate RepliesAgree(e: Ecu, q: Ecu, t: Timed) {
    t.action.Request? ==> Answer(e, t).rc == Answer(q, t).rc && Answer(e, t).bytes == Answer(q, t).bytes
  }

  /** In the default session no request can tell whether security is locked yet, and neither can a poll. */
  lemma {:induction false} DefaultSessionHidesLock(e: Ecu, t: Timed)
    requires e.session == SESSION_DEFAULT
    ensures Next(WriteLock(true, e), t) == WriteLock(true, Next(e, t))
    ensures RepliesAgree(e, WriteLock(true, e), t)
  {
    if t.action.Request? && |t.action.req| >= 1 {
      var req := t.action.req;
      if req[0] == SID_SECURITY_ACCESS || req[0] == SID_WRITE_DID {
        assert Answer(e, t).ecu == e && Answer(WriteLock(true, e), t).ecu == WriteLock(true, e);
      }
    }
  }

  lemma {:induction false} WindowState(w: Ecu, acts: seq<Timed>, n: nat)
    requires n <= |acts| && forall k :: 0 <= k < n ==> StateAt(w, acts, k).session == SESSION_DEFAULT
    ensures StateAt(WriteLock(true, w), acts, n) == WriteLock(true, StateAt(w, acts, n))
  {
    if n > 0 {
      WindowState(w, acts, n - 1);
      DefaultSessionHidesLock(StateAt(w, acts, n - 1), acts[n - 1]);
    }
  }

  /**
   * As long as nobody opens a session between the two writes, they are as good as one: same answers,
   * and same state once security is locked.
   */
  lemma {:induction false} WindowIsHarmless(w: Ecu, acts: seq<Timed>, n: nat)
    requires n <= |acts| && forall k :: 0 <= k < n ==> StateAt(w, acts, k).session == SESSION_DEFAULT
    ensures StateAt(WriteLock(true, w), acts, n) == WriteLock(true, StateAt(w, acts, n))
    ensures forall k :: 0 <= k < n ==> RepliesAgree(StateAt(w, acts, k), StateAt(WriteLock(true, w), acts, k), acts[k])
  {
    WindowState(w, acts, n);
    forall k | 0 <= k < n
      ensures RepliesAgree(StateAt(w, acts, k), StateAt(WriteLock(true, w), acts, k), acts[k])
    {
      WindowState(w, acts, k);
      DefaultSessionHidesLock(StateAt(w, acts, k), acts[k]);
    }
  }

  /**
   * And exactly then they differ: when the first session has been opened, a write of the owner name
   * that one atomic poll would have refused is accepted if and only if the old unlock is still there.
   */
  lemma {:induction false} OldUnlockExactly(w: Ecu, acts: seq<Timed>, n: nat, t: Timed)
    requires n <= |acts| && forall k :: 0 <= k < n ==> StateAt(w, acts, k).session == SESSION_DEFAULT
    requires t.action.Request? && 4 <= |t.action.req| <= 35 && t.action.req[..3] == [SID_WRITE_DID, 0xF2, 0x00]
    ensures !WriteAccepted(StateAt(WriteLock(true, w), acts, n), t)
    ensures var e := StateAt(w, acts, n); WriteAccepted(e, t) <==> Extended(e) && e.sec.unlocked >= 1
  {
    WindowIsHarmless(w, acts, n);
    assert t.action.req[1..3] == [0xF2, 0x00];
    WriteGated(StateAt(w, acts, n), t);
    WriteGated(StateAt(WriteLock(true, w), acts, n), t);
  }

  /**
   * An instance, for every unlocked state: after the first write a 10 03 and a 2E F2 00 41 are
   * accepted with the old unlock, and the second write then locks the live session.
   */
  lemma {:induction false} OldUnlockUsed(w: Ecu, now: nat, entropy: Security.Entropy)
    requires w.sec.unlocked >= 1
    ensures var e := WriteSession(true, w, now);
            var acts := [At(now, Request([SID_SESSION_CONTROL, SESSION_EXTENDED], entropy)),
                         At(now, Request([SID_WRITE_DID, 0xF2, 0x00, 0x41], entropy))];
            && StateAt(e, acts, 2).owner == [0x41]
            && StateAt(WriteLock(true, e), acts, 2).owner == w.owner
            && WriteLock(true, StateAt(e, acts, 2)).session == SESSION_EXTENDED
            && WriteLock(true, StateAt(e, acts, 2)).sec.unlocked == 0
  {
    var open := At(now, Request([SID_SESSION_CONTROL, SESSION_EXTENDED], entropy));
    var write := At(now, Request([SID_WRITE_DID, 0xF2, 0x00, 0x41], entropy));
    var acts := [open, write];
    var e := WriteSession(true, w, now);
    var begun := e.(session := SESSION_EXTENDED);
    assert Next(e, open) == begun && Next(WriteLock(true, e), open) == WriteLock(true, begun);
    assert StateAt(e, acts, 1) == begun && StateAt(WriteLock(true, e), acts, 1) == WriteLock(true, begun);
    WriteGated(begun, write);
    WriteGated(WriteLock(true, begun), write);
    OwnerStep(begun, write);
    OwnerStep(WriteLock(true, begun), write);
    FrameByService(begun, write.action.req, RESP_CAP, now, entropy);
  }
}
