/** Time-based one-time passwords of common/util/totp.c. */
module Totp {
  import opened Bytes
  import opened Arithmetic
  import opened Numerals

  const DIGEST_LEN := 20

  /** HMAC-SHA-1 as a function of key and message. */
  type Hmac = (seq<byte>, seq<byte>) -> seq<byte>

  ghost predicate DigestLaw(hmac: Hmac, key: seq<byte>, message: seq<byte>) {
    |hmac(key, message)| == DIGEST_LEN
  }

  ghost predicate Lawful(hmac: Hmac) {
    forall key: seq<byte>, message: seq<byte> :: DigestLaw(hmac, key, message)
  }

  datatype Config = Config(secret: seq<byte>, periodS: uint32, digits: byte)

  predicate Usable(cfg: Config) {
    |cfg.secret| > 0 && 6 <= cfg.digits <= 8 && cfg.periodS > 0
  }

  // ---------- The specification: RFC 4226 section 5.3 and RFC 6238 section 4.2 ----------

  function BigEndian(n: nat, k: nat): (s: seq<byte>)
    ensures |s| == k
  {
    if k == 0 then [] else BigEndian(n / 256, k - 1) + [n % 256]
  }

  function BigEndianValue(s: seq<byte>): nat {
    if |s| == 0 then 0 else 256 * BigEndianValue(s[..|s| - 1]) + s[|s| - 1]
  }

  /** Bytes of a number and number of bytes are inverse to each other. */
  lemma {:induction false} BigEndianRoundTrip(n: nat, s: seq<byte>)
    ensures BigEndian(BigEndianValue(s), |s|) == s
    ensures n < Pow256(|s|) ==> BigEndianValue(BigEndian(n, |s|)) == n
    decreases |s|
  {
    if |s| > 0 {
      var front := s[..|s| - 1];
      BigEndianRoundTrip(n / 256, front);
      assert BigEndian(n, |s|)[..|s| - 1] == BigEndian(n / 256, |s| - 1);
      assert s == front + [s[|s| - 1]];
    }
  }

  /** The most significant byte comes first. */
  lemma BigEndianOrder()
    ensures BigEndian(0x0102_0304_0506_0708, 8) == [1, 2, 3, 4, 5, 6, 7, 8]
  {
    assert BigEndian(0x0102_0304, 4) == [1, 2, 3, 4];
    assert BigEndian(0x0102_0304_0506, 6) == [1, 2, 3, 4, 5, 6];
  }

  /** Dynamic truncation: 31 bits from the place that the last four bits name. */
  function Truncate(digest: seq<byte>): (binary: nat)
    requires |digest| == DIGEST_LEN
    ensures binary < 0x8000_0000
  {
    var offset := digest[19] % 16;
    var b0: int, b1: int, b2: int, b3: int :=
      digest[offset], digest[offset + 1], digest[offset + 2], digest[offset + 3];
    b0 % 128 * 0x100_0000 + b1 * 0x1_0000 + b2 * 0x100 + b3
  }

  /** Four bytes from the place that the last four bits name, without the uppermost bit. */
  function NamedBytes(d: seq<byte>): (s: seq<byte>)
    requires |d| == 20
    ensures |s| == 4
  {
    var k := d[19] % 16;
    [d[k] % 128] + d[k + 1..k + 4]
  }

  /** The truncated word has these bytes, most significant first. */
  lemma TruncatedBytes(d: seq<byte>)
    requires |d| == DIGEST_LEN
    ensures BigEndian(Truncate(d), 4) == NamedBytes(d)
  {
    var k := d[19] % 16;
    var s := NamedBytes(d);
    assert |s| == 4 && s[0] == d[k] % 128 && s[1] == d[k + 1] && s[2] == d[k + 2] && s[3] == d[k + 3];
    ValueOfFour(s);
    BigEndianRoundTrip(0, s);
  }

  lemma ValueOfFour(s: seq<byte>)
    requires |s| == 4
    ensures var b0: int, b1: int, b2: int, b3: int := s[0], s[1], s[2], s[3];
            BigEndianValue(s) == b0 * 0x100_0000 + b1 * 0x1_0000 + b2 * 0x100 + b3
  {
    assert s[..3][..2] == s[..2] && s[..2][..1] == s[..1];
    var b0: int, b1: int := s[0], s[1];
    assert BigEndianValue(s[..1]) == b0;
    assert BigEndianValue(s[..2]) == 256 * b0 + b1;
  }

  /** The example of section 5.4 of RFC 4226. */
  lemma TruncationExample(d: seq<byte>)
    requires d == [0x1f, 0x86, 0x98, 0x69, 0x0e, 0x02, 0xca, 0x16, 0x61, 0x85,
                   0x50, 0xef, 0x7f, 0x19, 0xda, 0x8e, 0x94, 0x5b, 0x55, 0x5a]
    ensures Truncate(d) == 0x50ef7f19 && Truncate(d) % Pow10(6) == 872921
  {
    Pow10Values();
  }

  /** The named bytes of the digest of the step, read as a number and cut to the digits. */
  ghost predicate IsCodeOf(hmac: Hmac, secret: seq<byte>, step: nat, digits: nat, code: nat) {
    var d := hmac(secret, BigEndian(step, 8));
    |d| == 20 && code == BigEndianValue(NamedBytes(d)) % Pow10(digits)
  }

  ghost function Hotp(hmac: Hmac, secret: seq<byte>, step: nat, digits: nat): (code: nat)
    requires Lawful(hmac)
    ensures code < Pow10(digits)
  {
    assert DigestLaw(hmac, secret, BigEndian(step, 8));
    Truncate(hmac(secret, BigEndian(step, 8))) % Pow10(digits)
  }

  lemma HotpMeans(hmac: Hmac, secret: seq<byte>, step: nat, digits: nat)
    requires Lawful(hmac)
    ensures var d := hmac(secret, BigEndian(step, 8));
            |d| == 20 && Hotp(hmac, secret, step, digits) == Truncate(d) % Pow10(digits)
    ensures IsCodeOf(hmac, secret, step, digits, Hotp(hmac, secret, step, digits))
  {
    hide Truncate, NamedBytes;
    assert DigestLaw(hmac, secret, BigEndian(step, 8));
    var digest := hmac(secret, BigEndian(step, 8));
    TruncatedBytes(digest);
    BigEndianRoundTrip(Truncate(digest), NamedBytes(digest));
    Pow256Values();
  }

  lemma Pow10Small(digits: nat)
    requires digits <= 8
    ensures Pow10(digits) <= 100_000_000
  {
    Pow10Values();
    Pow10Monotone(digits, 8);
  }

  // ---------- Computing a code ----------

  method Pow10U32(digits: byte) returns (value: uint32)
    requires digits <= 8
    ensures value == Pow10(digits)
  {
    value := 1;
    var i := 0;
    while i < digits
      invariant 0 <= i <= digits && value == Pow10(i)
    {
      Pow10Small(i + 1);
      value := value * 10 % TWO32;
      i := i + 1;
    }
  }

  /** The time step, counted from the epoch. */
  function StepAt(unixTime: uint64, periodS: uint32): (step: nat)
    requires periodS > 0
    ensures step == unixTime / periodS
  {
    SignOfQuotient(unixTime, periodS);
    unixTime / periodS
  }

  method Compute(hmac: Hmac, cfg: Config, unixTime: uint64) returns (err: EspErr, code: uint32)
    requires Lawful(hmac)
    ensures err == if |cfg.secret| > 0 && 6 <= cfg.digits <= 8 && cfg.periodS > 0 then EspOk else InvalidArg
    ensures err == EspOk ==> code == Hotp(hmac, cfg.secret, StepAt(unixTime, cfg.periodS), cfg.digits)
    ensures err == EspOk ==> IsCodeOf(hmac, cfg.secret, StepAt(unixTime, cfg.periodS), cfg.digits, code)
  {
    if !Usable(cfg) {
      return InvalidArg, 0;
    }
    hide Truncate, NamedBytes, Pow10, Hotp;
    var counter := unixTime / cfg.periodS;
    ghost var step := StepAt(unixTime, cfg.periodS);
    var counterBytes := new byte[8];
    var i := 7;
    while i >= 0
      invariant -1 <= i <= 7 && counter >= 0
      invariant BigEndian(counter, i + 1) + counterBytes[i + 1..] == BigEndian(step, 8)
    {
      ghost var low := counterBytes[i + 1..];
      counterBytes[i] := counter % 256;
      assert counterBytes[i..] == [counter % 256] + low;
      assert BigEndian(counter, i + 1) + low == BigEndian(counter / 256, i) + counterBytes[i..];
      counter := counter / 256;
      i := i - 1;
    }
    assert counterBytes[..] == BigEndian(step, 8);
    var digest := hmac(cfg.secret, counterBytes[..]);
    assert DigestLaw(hmac, cfg.secret, counterBytes[..]);
    var modulus := Pow10U32(cfg.digits);
    err, code := EspOk, Truncate(digest) % modulus;
    HotpMeans(hmac, cfg.secret, step, cfg.digits);
  }

  // ---------- Verifying a code ----------

  function ToInt32(n: uint32): int {
    if n < 0x8000_0000 then n else n - TWO32
  }

  /** The time that the source checks for a step offset; none when it would precede the epoch. */
  function AdjustedTime(unixTime: uint64, offset: int, periodS: uint32): Option<uint64> {
    var delta := offset * periodS;
    if offset < 0 then
      if -delta > unixTime then None else Some(unixTime + delta)
    else
      Some((unixTime + delta) % TWO64)
  }

  ghost predicate MatchesAt(hmac: Hmac, cfg: Config, unixTime: uint64, code: uint32, offset: int)
    requires Lawful(hmac)
  {
    var time := AdjustedTime(unixTime, offset, cfg.periodS);
    time.Some? && cfg.periodS > 0 && Hotp(hmac, cfg.secret, time.value / cfg.periodS, cfg.digits) == code
  }

  /**
   * The window is cast to a signed word. For the two values excluded here the source's own
   * arithmetic on that word overflows, which C leaves undefined.
   */
  method Verify(hmac: Hmac, cfg: Config, unixTime: uint64, window: uint32, code: uint32)
    returns (err: EspErr, matched: bool)
    requires Lawful(hmac)
    requires window != 0x7FFF_FFFF && window != 0x8000_0000
    ensures Usable(cfg) ==>
      && err == EspOk
      && (matched <==> exists k :: -ToInt32(window) <= k <= ToInt32(window) && MatchesAt(hmac, cfg, unixTime, code, k))
    ensures !Usable(cfg) ==>
      !matched && err == if |cfg.secret| > 0 && ToInt32(window) < 0 then EspOk else InvalidArg
  {
    matched := false;
    if |cfg.secret| == 0 {
      return InvalidArg, false;
    }
    var bound := ToInt32(window);
    var offset := -bound;
    while offset <= bound
      invariant bound >= 0 ==> -bound <= offset <= bound + 1
      invariant bound < 0 ==> offset == -bound
      invariant forall k :: -bound <= k < offset && k <= bound ==> !MatchesAt(hmac, cfg, unixTime, code, k)
      invariant !Usable(cfg) && bound >= 0 ==> offset <= 0
    {
      var adjusted := AdjustedTime(unixTime, offset, cfg.periodS);
      if adjusted == None {
        offset := offset + 1;
        continue;
      }
      var e, expected := Compute(hmac, cfg, adjusted.value);
      if e != EspOk {
        return e, false;
      }
      if expected == code {
        assert MatchesAt(hmac, cfg, unixTime, code, offset);
        return EspOk, true;
      }
      offset := offset + 1;
    }
    return EspOk, false;
  }

  // ---------- What the window means ----------

  lemma StepOfSum(time: int, offset: int, periodS: int)
    requires periodS > 0
    ensures (time + offset * periodS) / periodS == time / periodS + offset
  {
    DivModIdentity(time, periodS);
    assert periodS * (time / periodS + offset) == periodS * (time / periodS) + offset * periodS;
    DivModUnique(time + offset * periodS, periodS, time / periodS + offset, time % periodS);
  }

  /** A step is skipped exactly when it would lie before the epoch. */
  lemma SkipLosesNoStep(unixTime: uint64, offset: int, periodS: uint32)
    requires periodS > 0 && offset < 0
    ensures AdjustedTime(unixTime, offset, periodS).Some? <==> unixTime / periodS + offset >= 0
    ensures AdjustedTime(unixTime, offset, periodS).Some? ==>
      AdjustedTime(unixTime, offset, periodS).value / periodS == unixTime / periodS + offset
  {
    StepOfSum(unixTime, offset, periodS);
    SignOfQuotient(unixTime + offset * periodS, periodS);
  }

  lemma SignOfQuotient(x: int, m: int)
    requires m > 0
    ensures x >= 0 <==> x / m >= 0
  {
  }

  /** A later step is met exactly as long as the shifted time fits its 64-bit word. */
  lemma LaterStepNeedsRoom(unixTime: uint64, offset: int, periodS: uint32)
    requires periodS > 0 && 0 <= offset < 0x8000_0000
    ensures AdjustedTime(unixTime, offset, periodS).Some?
    ensures AdjustedTime(unixTime, offset, periodS).value / periodS == unixTime / periodS + offset
        <==> unixTime + offset * periodS < TWO64
  {
    StepOfSum(unixTime, offset, periodS);
    MulMonotone(periodS, offset, 0x8000_0000);
    MulMonotone(periodS, 0, offset);
    if unixTime + offset * periodS >= TWO64 {
      var wrapped := unixTime + offset * periodS - TWO64;
      assert wrapped == (unixTime + offset * periodS) % TWO64;
      assert offset > 0;
      SmallerQuotient(wrapped, unixTime, periodS);
    }
  }

  lemma SmallerQuotient(a: int, b: int, m: int)
    requires m > 0 && a <= b
    ensures a / m <= b / m
  {
    DivModIdentity(a, m);
    DivModIdentity(b, m);
    if b / m < a / m {
      MulMonotone(m, b / m + 1, a / m);
    }
  }

  ghost predicate StepHasCode(hmac: Hmac, cfg: Config, step: int, code: uint32)
    requires Lawful(hmac)
  {
    step >= 0 && Hotp(hmac, cfg.secret, step, cfg.digits) == code
  }

  /** The code is that of a step within the window around the given one. */
  ghost predicate StepInWindow(hmac: Hmac, cfg: Config, now: int, window: int, code: uint32)
    requires Lawful(hmac)
  {
    exists step :: now - window <= step <= now + window && StepHasCode(hmac, cfg, step, code)
  }

  lemma RoomForOffset(unixTime: uint64, k: int, window: int, periodS: uint32)
    requires 0 <= k <= window && unixTime + window * periodS < TWO64
    ensures unixTime + k * periodS < TWO64
  {
    MulMonotone(periodS, k, window);
  }

  lemma OffsetIsStep(hmac: Hmac, cfg: Config, unixTime: uint64, window: int, code: uint32, k: int)
    requires Lawful(hmac) && Usable(cfg) && 0 <= window < 0x8000_0000
    requires unixTime + window * cfg.periodS < TWO64 && 0 - window <= k <= window
    ensures MatchesAt(hmac, cfg, unixTime, code, k) <==> StepHasCode(hmac, cfg, unixTime / cfg.periodS + k, code)
  {
    hide Hotp, AdjustedTime;
    var time := AdjustedTime(unixTime, k, cfg.periodS);
    assert time.Some? <==> unixTime / cfg.periodS + k >= 0 by {
      if k < 0 {
        SkipLosesNoStep(unixTime, k, cfg.periodS);
      } else {
        LaterStepNeedsRoom(unixTime, k, cfg.periodS);
        SignOfQuotient(unixTime, cfg.periodS);
      }
    }
    assert time.Some? ==> time.value / cfg.periodS == unixTime / cfg.periodS + k by {
      if k < 0 {
        SkipLosesNoStep(unixTime, k, cfg.periodS);
      } else {
        RoomForOffset(unixTime, k, window, cfg.periodS);
        LaterStepNeedsRoom(unixTime, k, cfg.periodS);
      }
    }
  }

  /** With room at the end of time, the source accepts exactly the codes of the steps in the window. */
  lemma WindowIsSteps(hmac: Hmac, cfg: Config, unixTime: uint64, window: int, code: uint32)
    requires Lawful(hmac) && Usable(cfg) && 0 <= window < 0x8000_0000
    requires unixTime + window * cfg.periodS < TWO64
    ensures (exists k :: 0 - window <= k <= window && MatchesAt(hmac, cfg, unixTime, code, k))
        <==> StepInWindow(hmac, cfg, unixTime / cfg.periodS, window, code)
  {
    hide MatchesAt, StepHasCode;
    var now := unixTime / cfg.periodS;
    forall k | 0 - window <= k <= window
      ensures MatchesAt(hmac, cfg, unixTime, code, k) <==> StepHasCode(hmac, cfg, now + k, code)
    {
      OffsetIsStep(hmac, cfg, unixTime, window, code, k);
    }
    if StepInWindow(hmac, cfg, now, window, code) {
      var step :| now - window <= step <= now + window && StepHasCode(hmac, cfg, step, code);
      assert MatchesAt(hmac, cfg, unixTime, code, step - now);
    }
  }

  /** Clocks that differ by at most the window's length are within the window in steps. */
  lemma DriftWithinWindow(a: nat, b: nat, window: nat, periodS: nat)
    requires periodS > 0 && a <= b <= a + window * periodS
    ensures a / periodS <= b / periodS <= a / periodS + window
  {
    SmallerQuotient(a, b, periodS);
    SmallerQuotient(b, a + window * periodS, periodS);
    StepOfSum(a, window, periodS);
  }
}
