/** security.c: the SecurityAccess seed/key state with its fail counter and timed lock-out. */
module Security {
  import opened Bytes

  const KEY_CONSTANT: word := 0xDEADBEEF
  const FALLBACK_SEED: word := 0xA5A5A5A5
  const MAX_FAILS := 3
  const LOCK_MS := 10000

  const NRC_SUB_FUNCTION_NOT_SUPPORTED: byte := 0x12
  const NRC_SEQUENCE_ERROR: byte := 0x24
  const NRC_INVALID_KEY: byte := 0x35
  const NRC_EXCEEDED_ATTEMPTS: byte := 0x36
  const NRC_DELAY_NOT_EXPIRED: byte := 0x37

  /** `lockUntil == 0` means that there is no lock-out. */
  datatype Sec = Sec(unlocked: byte, pendingSeed: word, seedIssued: bool, fails: byte, lockUntil: nat)

  const INITIAL := Sec(0, 0, false, 0, 0)

  /** What `getrandom` gives. */
  datatype Entropy = Drawn(value: word) | Unavailable

  function SeedFrom(e: Entropy): word {
    if e.Drawn? && e.value != 0 then e.value else FALLBACK_SEED
  }

  function KeyFor(seed: word): word {
    XorWord(seed, KEY_CONSTANT)
  }

  datatype SeedReply = Granted(seed: word) | AlreadyUnlocked | SeedRefused(nrc: byte)
  datatype KeyReply = KeyAccepted | KeyRefused(nrc: byte)

  predicate LevelSupported(level: byte) {
    level == 1
  }

  predicate LockedOut(s: Sec, now: nat) {
    s.lockUntil != 0 && now < s.lockUntil
  }

  function RequestSeed(s: Sec, level: byte, now: nat, e: Entropy): (Sec, SeedReply) {
    if !LevelSupported(level) then (s, SeedRefused(NRC_SUB_FUNCTION_NOT_SUPPORTED))
    else if s.unlocked >= level then (s.(seedIssued := false), AlreadyUnlocked)
    else if LockedOut(s, now) then (s, SeedRefused(NRC_DELAY_NOT_EXPIRED))
    else
      var s1 := if s.lockUntil != 0 then s.(lockUntil := 0, fails := 0) else s;
      (s1.(pendingSeed := SeedFrom(e), seedIssued := true), Granted(SeedFrom(e)))
  }

  function SendKey(s: Sec, level: byte, key: word, now: nat): (Sec, KeyReply) {
    if !LevelSupported(level) then (s, KeyRefused(NRC_SUB_FUNCTION_NOT_SUPPORTED))
    else if !s.seedIssued then (s, KeyRefused(NRC_SEQUENCE_ERROR))
    else if LockedOut(s, now) then (s, KeyRefused(NRC_DELAY_NOT_EXPIRED))
    else if key == KeyFor(s.pendingSeed) then
      (s.(seedIssued := false, unlocked := level, fails := 0), KeyAccepted)
    else
      var fails: byte := (s.fails + 1) as int % 0x100;
      if fails >= MAX_FAILS then
        (s.(seedIssued := false, fails := fails, lockUntil := now + LOCK_MS), KeyRefused(NRC_EXCEEDED_ATTEMPTS))
      else (s.(seedIssued := false, fails := fails), KeyRefused(NRC_INVALID_KEY))
  }

  /** ECUReset forgets everything but the stale seed value. */
  function Reset(s: Sec): Sec {
    s.(unlocked := 0, seedIssued := false, fails := 0, lockUntil := 0)
  }

  /** The S3 timeout locks again but keeps the fail counter and the lock-out. */
  function Relock(s: Sec): Sec {
    s.(unlocked := 0, seedIssued := false)
  }

  class SecurityState {
    var unlockedLevel: byte
    var pendingSeed: word
    var seedIssued: bool
    var failCount: byte
    var lockUntilMs: nat

    function View(): Sec
      reads this
    {
      Sec(unlockedLevel, pendingSeed, seedIssued, failCount, lockUntilMs)
    }

    constructor ()
      ensures View() == INITIAL
    {
      unlockedLevel, pendingSeed, seedIssued, failCount, lockUntilMs := 0, 0, false, 0, 0;
    }

    method IssueSeed(level: byte, now: nat, e: Entropy) returns (r: SeedReply)
      modifies this
      ensures (View(), r) == RequestSeed(old(View()), level, now, e)
    {
      if level != 1 { return SeedRefused(NRC_SUB_FUNCTION_NOT_SUPPORTED); }
      if unlockedLevel >= level {
        seedIssued := false;
        return AlreadyUnlocked;
      }
      if lockUntilMs != 0 {
        if now < lockUntilMs { return SeedRefused(NRC_DELAY_NOT_EXPIRED); }
        lockUntilMs := 0;
        failCount := 0;
      }
      var seed: word := 0;
      match e {
        case Drawn(v) => seed := v;
        case Unavailable => seed := FALLBACK_SEED;
      }
      if seed == 0 { seed := FALLBACK_SEED; }
      pendingSeed := seed;
      seedIssued := true;
      r := Granted(seed);
    }

    method CheckKey(level: byte, key: word, now: nat) returns (r: KeyReply)
      modifies this
      ensures (View(), r) == SendKey(old(View()), level, key, now)
    {
      if level != 1 { return KeyRefused(NRC_SUB_FUNCTION_NOT_SUPPORTED); }
      if !seedIssued { return KeyRefused(NRC_SEQUENCE_ERROR); }
      if lockUntilMs != 0 && now < lockUntilMs { return KeyRefused(NRC_DELAY_NOT_EXPIRED); }
      var expected := KeyFor(pendingSeed);
      seedIssued := false;
      if key == expected {
        unlockedLevel := level;
        failCount := 0;
        return KeyAccepted;
      }
      failCount := (failCount as int + 1) % 0x100;
      if failCount as int >= MAX_FAILS {
        lockUntilMs := now + LOCK_MS;
        r := KeyRefused(NRC_EXCEEDED_ATTEMPTS);
      } else {
        r := KeyRefused(NRC_INVALID_KEY);
      }
    }

    method Clear()
      modifies this
      ensures View() == Reset(old(View()))
    {
      unlockedLevel, seedIssued, failCount, lockUntilMs := 0, false, 0, 0;
    }

    method LockBack()
      modifies this
      ensures View() == Relock(old(View()))
    {
      unlockedLevel, seedIssued := 0, false;
    }
  }

  /** The key is the seed with the bits of DEADBEEF flipped. */
  predicate KeyFits(seed: word, key: word) {
    forall i :: 0 <= i < 32 ==> (Bit(key, i) <==> (Bit(seed, i) != Bit(0xDEADBEEF, i)))
  }

  /** Which key belongs to a seed, bit by bit. */
  lemma {:induction false} KeyExact(seed: word, key: word)
    ensures key == KeyFor(seed) <==> KeyFits(seed, key)
  {
    forall i | 0 <= i < 32
      ensures Bit(KeyFor(seed), i) <==> (Bit(seed, i) != Bit(0xDEADBEEF, i))
    {
      XorBit(seed, 0xDEADBEEF, i);
    }
    if KeyFits(seed, key) {
      Pow2Word();
      SameBits(key, KeyFor(seed), 32);
    }
  }

  /** Every seed has exactly one key, and seed and key determine each other. */
  lemma {:induction false} KeyIsInvolution(seed: word)
    ensures KeyFor(KeyFor(seed)) == seed
  {
    XorInvolution(seed, KEY_CONSTANT);
  }
}
