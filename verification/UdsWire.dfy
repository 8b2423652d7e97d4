/**
 * The server told from the octets: which refusal every request gets, as a list of checks in order of
 * priority, and what every positive answer means for the state. Nothing here is computed by a handler.
 */
module UdsWire {
  import opened Bytes
  import opened Runs
  import opened Uds
  import opened UdsProps
  import Dtc
  import Security
  import SecurityRuns

  // ---------- refusals ----------

  datatype Check = Check(fails: bool, nrc: byte)

  /** The code of the first check that fails, if one does. */
  function FirstFailed(cs: seq<Check>): seq<byte> {
    if cs == [] then [] else if cs[0].fails then [cs[0].nrc] else FirstFailed(cs[1..])
  }

  /** Four octets on the wire as one number. */
  function Word32(b: seq<byte>): word
    requires |b| == 4
  {
    b[0] as int * 0x100_0000 + b[1] as int * 0x1_0000 + b[2] as int * 0x100 + b[3] as int
  }

  function Low7(b: byte): int { b as int % 0x80 }

  predicate InSession(e: Ecu) { e.session == 2 || e.session == 3 }

  /** How many octets the value of an identifier has, if it is one of the seven. */
  function ValueLength(e: Ecu, hi: byte, lo: byte): int {
    if hi == 0xF1 && lo == 0x90 then 17
    else if hi == 0xF1 && lo == 0x8C then 12
    else if hi == 0xF1 && lo == 0x87 then 8
    else if hi == 0x01 && lo == 0x0C then 2
    else if hi == 0x01 && (lo == 0x0D || lo == 0x05) then 1
    else if hi == 0xF2 && lo == 0x00 then |e.owner|
    else -1
  }

  /** How many stored codes share a bit with the mask. */
  function Shared(store: seq<Dtc.Entry>, mask: byte): nat {
    if store == [] then 0
    else Shared(store[..|store| - 1], mask) + (if Dtc.ShareBit(store[|store| - 1].status, mask) then 1 else 0)
  }

  function SecurityChecks(e: Ecu, req: seq<byte>, now: nat): seq<Check>
    requires |req| >= 1
  {
    var n := |req|;
    var sub := if n >= 2 then Low7(req[1]) else 0;
    var key: word := if n == 6 then Word32(req[2..6]) else 0;
    [ Check(n < 2, 0x13),
      Check(!InSession(e), 0x7F),
      Check(n != (if sub % 2 == 1 then 2 else 6), 0x13),
      Check(sub != 1 && sub != 2, 0x12),
      Check(sub == 1 && e.sec.unlocked == 0 && now < e.sec.lockUntil, 0x37),
      Check(sub == 2 && !e.sec.seedIssued, 0x24),
      Check(sub == 2 && !Security.KeyFits(e.sec.pendingSeed, key) && e.sec.fails >= 2, 0x36),
      Check(sub == 2 && !Security.KeyFits(e.sec.pendingSeed, key), 0x35) ]
  }

  /** What a request of one of the eight services must satisfy, in order of priority. */
  function Checks(e: Ecu, req: seq<byte>, cap: nat, now: nat): seq<Check>
    requires |req| >= 1
  {
    var n := |req|;
    var sub := if n >= 2 then Low7(req[1]) else 0;
    match req[0]
    case 0x10 => [Check(n != 2, 0x13), Check(!(1 <= sub <= 3), 0x12)]
    case 0x11 => [Check(n != 2, 0x13), Check(!(1 <= sub <= 3), 0x12)]
    case 0x14 => [Check(n != 4, 0x13), Check(req[1..] != [0xFF, 0xFF, 0xFF], 0x31)]
    case 0x19 =>
      [Check(n < 2, 0x13), Check(sub != 2, 0x12), Check(n != 3, 0x13),
       Check(n == 3 && cap < 3 + 4 * Shared(e.dtcs, req[2]), 0x14)]
    case 0x22 =>
      [Check(n != 3, 0x13), Check(n == 3 && ValueLength(e, req[1], req[2]) < 0, 0x31),
       Check(n == 3 && cap < 3 + ValueLength(e, req[1], req[2]), 0x14)]
    case 0x27 => SecurityChecks(e, req, now)
    case 0x2E =>
      [Check(n < 4, 0x13), Check(n >= 4 && req[1..3] != [0xF2, 0x00], 0x31), Check(!InSession(e), 0x7F),
       Check(e.sec.unlocked == 0, 0x33), Check(n > 35, 0x22)]
    case 0x3E => [Check(n != 2, 0x13), Check(sub != 0, 0x12)]
    case _ => [Check(true, 0x11)]
  }

  /** The answer is a refusal with the first code whose check fails, or the positive response. */
  ghost predicate AnswersBy(cs: seq<Check>, sid: byte, bytes: seq<byte>) {
    var f := FirstFailed(cs);
    if f != [] then bytes == [0x7F, sid] + f
    else |bytes| >= 1 && bytes[0] as int == sid as int + 0x40 && bytes[0] != 0x7F
  }

  lemma {:induction false} FirstIndex(cs: seq<Check>) returns (i: nat)
    ensures i <= |cs| && forall j :: 0 <= j < i ==> !cs[j].fails
    ensures i < |cs| ==> cs[i].fails
    ensures FirstFailed(cs) == if i < |cs| then [cs[i].nrc] else []
  {
    if cs == [] || cs[0].fails {
      i := 0;
    } else {
      i := FirstIndex(cs[1..]);
      i := i + 1;
    }
  }

  /** The list read as a chain of tests. */
  lemma {:induction false} Chain(cs: seq<Check>)
    requires |cs| <= 8
    ensures FirstFailed(cs) ==
            if |cs| > 0 && cs[0].fails then [cs[0].nrc]
            else if |cs| > 1 && cs[1].fails then [cs[1].nrc]
            else if |cs| > 2 && cs[2].fails then [cs[2].nrc]
            else if |cs| > 3 && cs[3].fails then [cs[3].nrc]
            else if |cs| > 4 && cs[4].fails then [cs[4].nrc]
            else if |cs| > 5 && cs[5].fails then [cs[5].nrc]
            else if |cs| > 6 && cs[6].fails then [cs[6].nrc]
            else if |cs| > 7 && cs[7].fails then [cs[7].nrc]
            else []
  {
    var i := FirstIndex(cs);
  }

  lemma {:induction false} SharedIsFilter(store: seq<Dtc.Entry>, mask: byte)
    ensures Shared(store, mask) == |Dtc.Filter(store, mask)|
  {
    if store != [] {
      var init, last := store[..|store| - 1], store[|store| - 1];
      assert store == init + [last];
      SharedIsFilter(init, mask);
      Dtc.FilterLast(init, last, mask);
    }
  }

  lemma {:induction false} ValueKnown(e: Ecu, hi: byte, lo: byte)
    ensures match Did(Read16(hi, lo))
            case Unknown => ValueLength(e, hi, lo) == -1
            case Known(d) => ValueLength(e, hi, lo) == |ReadSource(e, d.source)|
  {
  }

  lemma {:induction false} SeedRefusals(e: Ecu, req: seq<byte>, now: nat, entropy: Security.Entropy)
    requires |req| >= 1 && req[0] == 0x27 && SecurityRuns.SecInv(e.sec)
    requires |req| == 2 && InSession(e) && Low7(req[1]) % 2 == 1
    ensures AnswersBy(SecurityChecks(e, req, now), 0x27, SecurityAccess(e, req, now, entropy).bytes)
  {
    Chain(SecurityChecks(e, req, now));
    var (sec, r) := Security.RequestSeed(e.sec, Sub(req[1]), now, entropy);
    assert SecurityAccess(e, req, now, entropy).bytes ==
           match r
           case SeedRefused(nrc) => [0x7F, 0x27, nrc]
           case AlreadyUnlocked => [0x67, Sub(req[1])] + Write32(0)
           case Granted(seed) => [0x67, Sub(req[1])] + Write32(seed);
  }

  /** The verdict on a key, in a state that runs reach. */
  lemma {:induction false} KeyReplyExact(s: Security.Sec, level: byte, key: word, now: nat)
    requires SecurityRuns.SecInv(s)
    ensures Security.SendKey(s, level, key, now).1 ==
            if level != 1 then Security.KeyRefused(0x12)
            else if !s.seedIssued then Security.KeyRefused(0x24)
            else if Security.KeyFits(s.pendingSeed, key) then Security.KeyAccepted
            else Security.KeyRefused(if s.fails >= 2 then 0x36 else 0x35)
  {
    Security.KeyExact(s.pendingSeed, key);
  }

  lemma {:induction false} KeyRefusals(e: Ecu, req: seq<byte>, now: nat, entropy: Security.Entropy)
    requires |req| >= 1 && req[0] == 0x27 && SecurityRuns.SecInv(e.sec)
    requires |req| == 6 && InSession(e) && Low7(req[1]) % 2 == 0
    ensures AnswersBy(SecurityChecks(e, req, now), 0x27, SecurityAccess(e, req, now, entropy).bytes)
  {
    Chain(SecurityChecks(e, req, now));
    var level: byte := (Sub(req[1]) as int + 0xFF) % 0x100;
    assert level == 1 <==> Low7(req[1]) == 2;
    KeyReplyExact(e.sec, level, Word32(req[2..6]), now);
    var (sec, r) := Security.SendKey(e.sec, level, Word32(req[2..6]), now);
    assert SecurityAccess(e, req, now, entropy).bytes ==
           match r
           case KeyRefused(nrc) => [0x7F, 0x27, nrc]
           case KeyAccepted => [0x67, Sub(req[1])];
  }

  lemma {:induction false} SecurityRefusals(e: Ecu, req: seq<byte>, now: nat, entropy: Security.Entropy)
    requires |req| >= 1 && req[0] == 0x27 && SecurityRuns.SecInv(e.sec)
    ensures AnswersBy(SecurityChecks(e, req, now), 0x27, SecurityAccess(e, req, now, entropy).bytes)
  {
    if |req| == 2 && InSession(e) && Low7(req[1]) % 2 == 1 {
      SeedRefusals(e, req, now, entropy);
    } else if |req| == 6 && InSession(e) && Low7(req[1]) % 2 == 0 {
      KeyRefusals(e, req, now, entropy);
    } else {
      Chain(SecurityChecks(e, req, now));
    }
  }

  lemma {:induction false} ReadRefusals(e: Ecu, req: seq<byte>, cap: nat, now: nat, entropy: Security.Entropy)
    requires |req| >= 1 && (req[0] == 0x19 || req[0] == 0x22) && cap >= 3
    ensures AnswersBy(Checks(e, req, cap, now), req[0], Process(e, req, cap, now, entropy).bytes)
  {
    Chain(Checks(e, req, cap, now));
    if |req| == 3 {
      SharedIsFilter(e.dtcs, req[2]);
      ValueKnown(e, req[1], req[2]);
    }
  }

  lemma {:induction false} WriteRefusals(e: Ecu, req: seq<byte>, cap: nat, now: nat, entropy: Security.Entropy)
    requires |req| >= 1 && req[0] == 0x2E && cap >= 3
    ensures AnswersBy(Checks(e, req, cap, now), req[0], Process(e, req, cap, now, entropy).bytes)
  {
    Chain(Checks(e, req, cap, now));
    if |req| >= 4 {
      assert Read16(req[1], req[2]) == 0xF200 <==> req[1..3] == [0xF2, 0x00];
    }
  }

  lemma {:induction false} OtherRefusals(e: Ecu, req: seq<byte>, cap: nat, now: nat, entropy: Security.Entropy)
    requires |req| >= 1 && req[0] !in {0x19, 0x22, 0x27, 0x2E} && cap >= 3 && !Dropped(req, cap)
    ensures AnswersBy(Checks(e, req, cap, now), req[0], Process(e, req, cap, now, entropy).bytes)
  {
    Chain(Checks(e, req, cap, now));
    if |req| == 4 {
      assert req[1..] == [0xFF, 0xFF, 0xFF] <==> req[1] == 0xFF && req[2] == 0xFF && req[3] == 0xFF;
    }
  }

  /**
   * Every request that is not dropped is refused exactly if one of its checks fails, with the code of
   * the first that does; otherwise it is answered positively.
   */
  lemma {:induction false} RefusedExactly(e: Ecu, req: seq<byte>, cap: nat, now: nat, entropy: Security.Entropy)
    requires SecurityRuns.SecInv(e.sec) && |req| >= 1 && cap >= 3 && !Dropped(req, cap)
    ensures AnswersBy(Checks(e, req, cap, now), req[0], Process(e, req, cap, now, entropy).bytes)
  {
    if req[0] == 0x27 {
      SecurityRefusals(e, req, now, entropy);
    } else if req[0] == 0x2E {
      WriteRefusals(e, req, cap, now, entropy);
    } else if req[0] == 0x19 || req[0] == 0x22 {
      ReadRefusals(e, req, cap, now, entropy);
    } else {
      OtherRefusals(e, req, cap, now, entropy);
    }
  }

  // ---------- positive answers ----------

  /** The octets of a registered value. */
  ghost predicate IsValue(e: Ecu, hi: byte, lo: byte, v: seq<byte>) {
    if hi == 0xF1 && lo == 0x90 then
      v == [0x56, 0x46, 0x31, 0x32, 0x33, 0x34, 0x35, 0x36, 0x37, 0x38, 0x39, 0x30, 0x41, 0x42, 0x43, 0x44, 0x45]
    else if hi == 0xF1 && lo == 0x8C then
      v == [0x45, 0x43, 0x55, 0x2D, 0x44, 0x45, 0x4D, 0x4F, 0x2D, 0x30, 0x30, 0x31]
    else if hi == 0xF1 && lo == 0x87 then
      v == [0x53, 0x50, 0x4E, 0x2D, 0x30, 0x30, 0x30, 0x31]
    else if hi == 0x01 && lo == 0x0C then |v| == 2 && v[0] as int * 0x100 + v[1] as int == e.engine.rpm as int
    else if hi == 0x01 && lo == 0x0D then v == [e.engine.speed]
    else if hi == 0x01 && lo == 0x05 then
      |v| == 1 && (if e.engine.coolant <= 215 then v[0] as int - 40 == e.engine.coolant as int else v[0] == 255)
    else hi == 0xF2 && lo == 0x00 && v == e.owner
  }

  /** A seed is the random word, or A5A5A5A5 in its place; zero tells that the level is unlocked. */
  ghost predicate IsSeed(e: Ecu, entropy: Security.Entropy, seed: word) {
    if e.sec.unlocked >= 1 then seed == 0
    else if entropy.Drawn? && entropy.value != 0 then seed == entropy.value
    else seed == 0xA5A5A5A5
  }

  /** The records of a report: the selected entries, each with three octets of code and one of status. */
  ghost predicate IsReport(store: seq<Dtc.Entry>, mask: byte, body: seq<byte>, at: seq<nat>) {
    && Dtc.Selects(store, mask, at)
    && |body| == 4 * |at|
    && forall k :: 0 <= k < |at| ==> at[k] < |store| && IsRecord(store[at[k]], body[4 * k..4 * k + 4])
  }

  predicate IsRecord(e: Dtc.Entry, r: seq<byte>)
    requires |r| == 4
  {
    r[0] as int * 0x1_0000 + r[1] as int * 0x100 + r[2] as int == e.code as int && r[3] == e.status
  }

  lemma {:induction false} RecordAt(es: seq<Dtc.Entry>, k: nat)
    requires Dtc.CodesOk(es) && k < |es|
    ensures IsRecord(es[k], Dtc.Encode(es)[4 * k..4 * k + 4])
  {
    var r := Dtc.Encode(es);
    if k == 0 {
      Dtc.EntryRoundTrip(es[0]);
      assert r[0..4] == Dtc.EncodeEntry(es[0]);
    } else {
      RecordAt(es[1..], k - 1);
      assert r[4 * k..4 * k + 4] == Dtc.Encode(es[1..])[4 * (k - 1)..4 * (k - 1) + 4];
    }
  }

  /** The 19 02 report, position by position. */
  lemma {:induction false} ReportPositions(e: Ecu, req: seq<byte>, cap: nat, now: nat, entropy: Security.Entropy) returns (at: seq<nat>)
    requires Bounded(e) && |req| == 3 && req[0] == 0x19 && cap >= 3
    requires var b := Process(e, req, cap, now, entropy).bytes; b[0] == 0x59
    ensures var b := Process(e, req, cap, now, entropy).bytes;
            |b| >= 3 && b[..3] == [0x59, 0x02, 0x29] && IsReport(e.dtcs, req[2], b[3..], at)
  {
    var es := Dtc.Filter(e.dtcs, req[2]);
    Dtc.FilterOk(e.dtcs, req[2]);
    at := Dtc.FilterSelects(e.dtcs, req[2]);
    var b := Process(e, req, cap, now, entropy).bytes;
    assert b == [0x59, 0x02, 0x29] + Dtc.Encode(es);
    assert b[3..] == Dtc.Encode(es);
    forall k | 0 <= k < |at|
      ensures at[k] < |e.dtcs| && IsRecord(e.dtcs[at[k]], b[3..][4 * k..4 * k + 4])
    {
      RecordAt(es, k);
    }
  }

  /** The octets of every positive answer. */
  ghost predicate PositiveShape(e: Ecu, req: seq<byte>, entropy: Security.Entropy, b: seq<byte>)
    requires |req| >= 1
  {
    match req[0]
    case 0x10 => |req| == 2 && b == [0x50, Sub(req[1]), 0x00, 0x32, 0x01, 0xF4]
    case 0x11 => |req| == 2 && b == [0x51, Sub(req[1])]
    case 0x14 => b == [0x54]
    case 0x19 => |req| == 3
    case 0x22 => |req| == 3 && |b| >= 3 && b[..3] == [0x62, req[1], req[2]] && IsValue(e, req[1], req[2], b[3..])
    case 0x27 =>
      if |req| == 2 then |b| == 6 && b[..2] == [0x67, 0x01] && IsSeed(e, entropy, Word32(b[2..6])) else b == [0x67, 0x02]
    case 0x2E => b == [0x6E, 0xF2, 0x00]
    case 0x3E => b == [0x7E, 0x00]
    case _ => false
  }

  lemma {:induction false} StaticValues()
    ensures Ascii("VF1234567890ABCDE") ==
            [0x56, 0x46, 0x31, 0x32, 0x33, 0x34, 0x35, 0x36, 0x37, 0x38, 0x39, 0x30, 0x41, 0x42, 0x43, 0x44, 0x45]
    ensures Ascii("ECU-DEMO-001") == [0x45, 0x43, 0x55, 0x2D, 0x44, 0x45, 0x4D, 0x4F, 0x2D, 0x30, 0x30, 0x31]
    ensures Ascii("SPN-0001") == [0x53, 0x50, 0x4E, 0x2D, 0x30, 0x30, 0x30, 0x31]
    ensures Ascii("ANONYMOUS") == [0x41, 0x4E, 0x4F, 0x4E, 0x59, 0x4D, 0x4F, 0x55, 0x53]
  {
  }

  lemma {:induction false} ReadValueShape(e: Ecu, req: seq<byte>, cap: nat)
    requires |req| == 3 && req[0] == 0x22 && cap >= 3 && ReadDid(e, req, cap).bytes[0] == 0x62
    ensures var b := ReadDid(e, req, cap).bytes;
            |b| >= 3 && b[..3] == [0x62, req[1], req[2]] && IsValue(e, req[1], req[2], b[3..])
  {
    StaticValues();
    var b := ReadDid(e, req, cap).bytes;
    var value := ReadSource(e, Did(Read16(req[1], req[2])).entry.source);
    assert b == [0x62, req[1], req[2]] + value;
    assert b[3..] == value;
  }

  lemma {:induction false} SeedShape(e: Ecu, req: seq<byte>, now: nat, entropy: Security.Entropy)
    requires |req| == 2 && req[0] == 0x27 && InSession(e) && Low7(req[1]) % 2 == 1
    requires SecurityAccess(e, req, now, entropy).bytes[0] == 0x67
    ensures var b := SecurityAccess(e, req, now, entropy).bytes;
            |b| == 6 && b[..2] == [0x67, 0x01] && IsSeed(e, entropy, Word32(b[2..6]))
  {
    var (sec, reply) := Security.RequestSeed(e.sec, Sub(req[1]), now, entropy);
    var b := SecurityAccess(e, req, now, entropy).bytes;
    var seed: word := if reply.Granted? then reply.seed else 0;
    assert !reply.SeedRefused? && Sub(req[1]) == 1;
    assert b == [0x67, 0x01] + Write32(seed);
    assert b[2..6] == Write32(seed);
  }

  lemma {:induction false} KeyReplyOctets(e: Ecu, req: seq<byte>, now: nat, entropy: Security.Entropy)
    requires |req| == 6 && req[0] == 0x27 && InSession(e) && Low7(req[1]) % 2 == 0
    ensures var b := SecurityAccess(e, req, now, entropy).bytes; b == [0x67, 0x02] || b[0] == 0x7F
  {
    var level: byte := (Sub(req[1]) as int + 0xFF) % 0x100;
    assert level == 1 <==> Sub(req[1]) == 2;
    var (sec, reply) := Security.SendKey(e.sec, level, Word32(req[2..6]), now);
    assert reply.KeyAccepted? ==> level == 1;
    assert SecurityAccess(e, req, now, entropy).bytes == match reply
                                                         case KeyRefused(nrc) => [0x7F, 0x27, nrc]
                                                         case KeyAccepted => [0x67, Sub(req[1])];
  }

  lemma {:induction false} KeyShape(e: Ecu, req: seq<byte>, now: nat, entropy: Security.Entropy)
    requires |req| >= 1 && |req| != 2 && req[0] == 0x27 && SecurityAccess(e, req, now, entropy).bytes[0] == 0x67
    ensures SecurityAccess(e, req, now, entropy).bytes == [0x67, 0x02]
  {
    if |req| == 6 && InSession(e) && Low7(req[1]) % 2 == 0 {
      KeyReplyOctets(e, req, now, entropy);
    }
  }

  lemma {:induction false} AccessShape(e: Ecu, req: seq<byte>, now: nat, entropy: Security.Entropy)
    requires |req| >= 1 && req[0] == 0x27 && SecurityAccess(e, req, now, entropy).bytes[0] == 0x67
    ensures var b := SecurityAccess(e, req, now, entropy).bytes;
            if |req| == 2 then |b| == 6 && b[..2] == [0x67, 0x01] && IsSeed(e, entropy, Word32(b[2..6])) else b == [0x67, 0x02]
  {
    if |req| == 2 {
      SeedShape(e, req, now, entropy);
    } else {
      KeyShape(e, req, now, entropy);
    }
  }

  lemma {:induction false} OtherShapes(e: Ecu, req: seq<byte>, cap: nat, now: nat, entropy: Security.Entropy)
    requires |req| >= 1 && req[0] !in {0x22, 0x27} && cap >= 3 && !Dropped(req, cap)
    requires Process(e, req, cap, now, entropy).bytes[0] != 0x7F
    ensures PositiveShape(e, req, entropy, Process(e, req, cap, now, entropy).bytes)
  {
  }

  /** Every positive answer has its octets. */
  lemma {:induction false} PositiveExact(e: Ecu, req: seq<byte>, cap: nat, now: nat, entropy: Security.Entropy)
    requires |req| >= 1 && cap >= 3 && !Dropped(req, cap) && Process(e, req, cap, now, entropy).bytes[0] != 0x7F
    ensures PositiveShape(e, req, entropy, Process(e, req, cap, now, entropy).bytes)
  {
    if req[0] == 0x22 {
      ReadValueShape(e, req, cap);
    } else if req[0] == 0x27 {
      AccessShape(e, req, now, entropy);
    } else {
      OtherShapes(e, req, cap, now, entropy);
    }
  }

  // ---------- the state told from the answers ----------

  /** The state after a request, as somebody knows it who sees only the request, its answer and the clock. */
  function Observe(e: Ecu, now: nat, req: seq<byte>, b: seq<byte>): Ecu {
    if |b| == 0 then e
    else match b[0]
      case 0x50 => if |b| > 1 then e.(session := b[1], lastTp := now) else e
      case 0x51 => e.(session := 1, lastTp := now, sec := e.sec.(unlocked := 0, seedIssued := false, fails := 0, lockUntil := 0))
      case 0x54 => e.(dtcs := [])
      case 0x67 =>
        if |b| != 6 then e.(sec := e.sec.(unlocked := 1, seedIssued := false, fails := 0))
        else if Word32(b[2..6]) == 0 then e.(sec := e.sec.(seedIssued := false))
        else
          var s := if e.sec.lockUntil != 0 then e.sec.(fails := 0, lockUntil := 0) else e.sec;
          e.(sec := s.(pendingSeed := Word32(b[2..6]), seedIssued := true))
      case 0x6E => if |req| >= 3 then e.(owner := req[3..]) else e
      case 0x7E => e.(lastTp := now)
      case 0x7F =>
        if |b| > 2 && (b[2] == 0x35 || b[2] == 0x36) then
          var s := e.sec.(seedIssued := false, fails := (e.sec.fails as int + 1) % 0x100);
          e.(sec := if b[2] == 0x36 then s.(lockUntil := now + 10000) else s)
        else e
      case _ => e
  }

  lemma {:induction false} SeedObserved(e: Ecu, req: seq<byte>, now: nat, entropy: Security.Entropy)
    requires |req| == 2 && req[0] == 0x27 && InSession(e) && Low7(req[1]) % 2 == 1
    ensures var r := SecurityAccess(e, req, now, entropy); r.ecu == Observe(e, now, req, r.bytes)
  {
    var (sec, reply) := Security.RequestSeed(e.sec, Sub(req[1]), now, entropy);
    var r := SecurityAccess(e, req, now, entropy);
    assert r.ecu == e.(sec := sec);
    if !reply.SeedRefused? {
      var seed: word := if reply.Granted? then reply.seed else 0;
      assert r.bytes == [0x67, Sub(req[1])] + Write32(seed);
      assert r.bytes[2..6] == Write32(seed);
    }
  }

  lemma {:induction false} KeyObserved(e: Ecu, req: seq<byte>, now: nat, entropy: Security.Entropy)
    requires |req| == 6 && req[0] == 0x27 && InSession(e) && Low7(req[1]) % 2 == 0
    ensures var r := SecurityAccess(e, req, now, entropy); r.ecu == Observe(e, now, req, r.bytes)
  {
    var level: byte := (Sub(req[1]) as int + 0xFF) % 0x100;
    var (sec, reply) := Security.SendKey(e.sec, level, Word32(req[2..6]), now);
    var r := SecurityAccess(e, req, now, entropy);
    assert r.ecu == e.(sec := sec);
    assert r.bytes == if reply.KeyAccepted? then [0x67, Sub(req[1])] else [0x7F, 0x27, reply.nrc];
  }

  lemma {:induction false} AccessObserved(e: Ecu, req: seq<byte>, now: nat, entropy: Security.Entropy)
    requires |req| >= 1 && req[0] == 0x27
    ensures var r := SecurityAccess(e, req, now, entropy); r.ecu == Observe(e, now, req, r.bytes)
  {
    if |req| == 2 && InSession(e) && Low7(req[1]) % 2 == 1 {
      SeedObserved(e, req, now, entropy);
    } else if |req| == 6 && InSession(e) && Low7(req[1]) % 2 == 0 {
      KeyObserved(e, req, now, entropy);
    }
  }

  lemma {:induction false} ReadsObserved(e: Ecu, req: seq<byte>, cap: nat, now: nat, entropy: Security.Entropy)
    requires |req| >= 1 && (req[0] == 0x19 || req[0] == 0x22) && cap >= 3
    ensures var r := Process(e, req, cap, now, entropy); r.ecu == Observe(e, now, req, r.bytes)
  {
  }

  /** The whole state after any request follows from the state before it and the octets of the answer. */
  lemma {:induction false} Observed(e: Ecu, req: seq<byte>, cap: nat, now: nat, entropy: Security.Entropy)
    requires |req| >= 1 && cap >= 3 && !Dropped(req, cap)
    ensures var r := Process(e, req, cap, now, entropy); r.ecu == Observe(e, now, req, r.bytes)
  {
    if req[0] == 0x27 {
      AccessObserved(e, req, now, entropy);
    } else if req[0] == 0x19 || req[0] == 0x22 {
      ReadsObserved(e, req, cap, now, entropy);
    }
  }
}
