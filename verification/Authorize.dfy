/** The server's side of the handshake: authorize_request of common/net/ws_server.c. */
module Authorize {
  import opened Bytes
  import opened Numerals
  import opened Headers
  import opened Handshake
  import opened NonceCache
  import ReplayProtection

  const AUTHORIZATION_SIZE := 192
  const NONCE_SIZE := 2 * NONCE_LEN + 1
  const SIGNATURE_SIZE := 160
  const SIGNATURE_BYTES := 64
  const TOTP_SIZE := 16

  // ---------- The checks ----------

  predicate BearerAccepted(cfg: Config, headers: HeaderMap) {
    cfg.token == "" || HeaderValue(headers, "Authorization", AUTHORIZATION_SIZE) == Some("Bearer " + cfg.token)
  }

  function PresentedNonce(headers: HeaderMap): Option<seq<byte>> {
    match HeaderValue(headers, "X-WS-Nonce", NONCE_SIZE)
    case None => None
    case Some(text) => if |text| == 2 * NONCE_LEN && IsHex(text) then Some(FromHex(text)) else None
  }

  function PresentedSignature(crypto: Crypto, headers: HeaderMap): Option<seq<byte>> {
    match HeaderValue(headers, "X-WS-Signature", SIGNATURE_SIZE)
    case None => None
    case Some(text) =>
      if text == "" then None
      else match crypto.decode64(text)
        case None => None
        case Some(data) => if |data| <= SIGNATURE_BYTES then Some(data) else None
  }

  /** Only the first 32 bytes of what was presented are compared. */
  predicate SignatureAccepted(crypto: Crypto, cfg: Config, nonce: seq<byte>, signature: seq<byte>) {
    |signature| >= SIGNATURE_LEN && signature[..SIGNATURE_LEN] == crypto.sign(cfg.handshakeKey, nonce, cfg.token)
  }

  ghost predicate TotpAccepted(crypto: Crypto, cfg: Config, headers: HeaderMap, unixTime: uint64)
    requires Lawful(crypto) && Admissible(cfg)
  {
    cfg.totpEnabled ==>
      match HeaderValue(headers, "X-WS-TOTP", TOTP_SIZE)
      case None => false
      case Some(text) =>
        && |text| == cfg.totp.digits && AllDigits(text) && DecimalValue(text) < TWO32
        && exists k :: -Totp.ToInt32(cfg.totpWindow) <= k <= Totp.ToInt32(cfg.totpWindow)
             && Totp.MatchesAt(crypto.hmacSha1, cfg.totp, unixTime, DecimalValue(text), k)
  }

  datatype Decision = Decision(accepted: bool, cache: seq<Entry>)

  /** What becomes of a request, and of the replay cache. */
  ghost function Decide(crypto: Crypto, cfg: Config, cache: seq<Entry>, ttl: uint32,
                        headers: HeaderMap, now: uint32, unixTime: uint64): Decision
    requires Lawful(crypto) && Admissible(cfg)
  {
    if !BearerAccepted(cfg, headers) then Decision(false, cache)
    else if !cfg.handshakeEnabled then Decision(TotpAccepted(crypto, cfg, headers, unixTime), cache)
    else
      var nonce, signature := PresentedNonce(headers), PresentedSignature(crypto, headers);
      if nonce == None || signature == None then Decision(false, cache)
      else
        var swept := Swept(cache, nonce.value, now, ttl);
        if IsDuplicate(cache, nonce.value, now, ttl)
          || !SignatureAccepted(crypto, cfg, nonce.value, signature.value)
        then Decision(false, swept)
        else Decision(TotpAccepted(crypto, cfg, headers, unixTime), Stored(swept, nonce.value, now))
  }

  /** With one-time codes on, the two windows whose signed arithmetic overflows in C are not used. */
  predicate WindowDefined(cfg: Config) {
    cfg.totpEnabled ==> cfg.totpWindow != 0x7FFF_FFFF && cfg.totpWindow != 0x8000_0000
  }

  // ---------- The checks in the order of the source ----------

  method CheckTotp(crypto: Crypto, cfg: Config, headers: HeaderMap, unixTime: uint64) returns (accepted: bool)
    requires Lawful(crypto) && Admissible(cfg) && WindowDefined(cfg)
    ensures accepted == TotpAccepted(crypto, cfg, headers, unixTime)
  {
    hide Totp.MatchesAt, DecimalValue;
    if !cfg.totpEnabled {
      return true;
    }
    var header := HeaderValue(headers, "X-WS-TOTP", TOTP_SIZE);
    if header == None {
      return false;
    }
    var ok, code := ParseDecimalHeader(header.value, cfg.totp.digits);
    if !ok {
      return false;
    }
    var err, matched := Totp.Verify(crypto.hmacSha1, cfg.totp, unixTime, cfg.totpWindow, code);
    return err == EspOk && matched;
  }

  method AuthorizeRequest(crypto: Crypto, cfg: Config, cache: Cache, headers: HeaderMap, now: uint32, unixTime: uint64)
    returns (accepted: bool)
    requires Lawful(crypto) && Admissible(cfg) && WindowDefined(cfg)
    modifies cache.slots
    ensures Decision(accepted, cache.slots[..])
         == Decide(crypto, cfg, old(cache.slots[..]), cache.ttl, headers, now, unixTime)
    ensures accepted <==>
              && BearsToken(cfg, headers)
              && (cfg.handshakeEnabled ==> exists nonce ::
                    && ShowsNonce(headers, nonce) && ShowsSignature(crypto, cfg, headers, nonce)
                    && IsFresh(old(cache.slots[..]), nonce, now, cache.ttl))
              && (cfg.totpEnabled ==> ShowsCode(crypto, cfg, headers, unixTime))
  {
    hide Swept, Stored, IsDuplicate, TotpAccepted, BearsToken, ShowsNonce, ShowsSignature, IsFresh, ShowsCode;
    AcceptedExactlyWhen(crypto, cfg, cache.slots[..], cache.ttl, headers, now, unixTime);
    if cfg.token != "" {
      var header := HeaderValue(headers, "Authorization", AUTHORIZATION_SIZE);
      if header == None {
        return false;
      }
      var prefix := "Bearer ";
      if |header.value| < |prefix| || header.value[..|prefix|] != prefix {
        return false;
      }
      assert header.value == prefix + header.value[|prefix|..];
      if header.value[|prefix|..] != cfg.token {
        assert header.value != prefix + cfg.token by {
          assert (prefix + cfg.token)[|prefix|..] == cfg.token;
        }
        return false;
      }
    }
    if cfg.handshakeEnabled {
      var nonceHex := HeaderValue(headers, "X-WS-Nonce", NONCE_SIZE);
      if nonceHex == None || |nonceHex.value| != 2 * NONCE_LEN {
        return false;
      }
      var nonceBytes := new byte[NONCE_LEN];
      var parsed := ParseHex(nonceHex.value, nonceBytes);
      if !parsed {
        return false;
      }
      var nonce := nonceBytes[..];
      var signature := PresentedSignature(crypto, headers);
      if signature == None {
        return false;
      }
      var duplicate := cache.CheckDuplicate(nonce, now);
      if duplicate {
        return false;
      }
      if !SignatureAccepted(crypto, cfg, nonce, signature.value) {
        return false;
      }
      cache.Store(nonce, now);
    }
    accepted := CheckTotp(crypto, cfg, headers, unixTime);
  }

  // ---------- What acceptance means, in terms of the headers alone ----------

  ghost predicate HasText(headers: HeaderMap, name: string, text: string) {
    name in headers && headers[name] == text
  }

  /** The bearer header carries the configured token, if there is one. */
  ghost predicate BearsToken(cfg: Config, headers: HeaderMap) {
    cfg.token != "" ==> |cfg.token| <= 184 && HasText(headers, "Authorization", "Bearer " + cfg.token)
  }

  /** The nonce header is 32 hexadecimal digits, and these are its bytes. */
  ghost predicate ShowsNonce(headers: HeaderMap, nonce: seq<byte>) {
    exists text :: HasText(headers, "X-WS-Nonce", text) && |text| == 32 && IsHex(text) && FromHex(text) == nonce
  }

  /** The signature header decodes to 32 to 64 bytes, the first 32 of which sign the nonce and the token. */
  ghost predicate ShowsSignature(crypto: Crypto, cfg: Config, headers: HeaderMap, nonce: seq<byte>) {
    exists text, data ::
      && HasText(headers, "X-WS-Signature", text) && 0 < |text| < 160
      && crypto.decode64(text) == Some(data) && 32 <= |data| <= 64
      && data[..32] == crypto.sign(cfg.handshakeKey, nonce, cfg.token)
  }

  /** An entry that makes a nonce a replay: a lifetime of 0 never ends. */
  predicate Remembers(e: Entry, nonce: seq<byte>, now: uint32, ttl: uint32) {
    e.valid && e.nonce == nonce && (ttl == 0 || (now - e.timestamp) % TWO32 <= ttl)
  }

  ghost predicate IsFresh(cache: seq<Entry>, nonce: seq<byte>, now: uint32, ttl: uint32) {
    forall i :: 0 <= i < |cache| ==> !Remembers(cache[i], nonce, now, ttl)
  }

  function SignedWindow(cfg: Config): int {
    if cfg.totpWindow < 0x8000_0000 then cfg.totpWindow else cfg.totpWindow - 0x1_0000_0000
  }

  function Quotient(a: nat, b: nat): (q: nat)
    requires b > 0
    ensures q == a / b
  {
    Totp.SignOfQuotient(a, b);
    a / b
  }

  /** The code of the time step that is k steps away, on a clock of 64 bits that starts at 0. */
  ghost predicate IsCodeAt(crypto: Crypto, cfg: Config, unixTime: uint64, code: nat, k: int)
    requires Lawful(crypto)
  {
    var time := unixTime + k * cfg.totp.periodS;
    && time >= 0 && cfg.totp.periodS > 0
    && Totp.Hotp(crypto.hmacSha1, cfg.totp.secret, Quotient(time % TWO64, cfg.totp.periodS), cfg.totp.digits) == code
  }

  /** The code header is all digits, as many as configured, and the code of a step in the window. */
  ghost predicate ShowsCode(crypto: Crypto, cfg: Config, headers: HeaderMap, unixTime: uint64)
    requires Lawful(crypto)
  {
    exists text, k ::
      && HasText(headers, "X-WS-TOTP", text) && |text| == cfg.totp.digits && AllDigits(text)
      && -SignedWindow(cfg) <= k <= SignedWindow(cfg)
      && IsCodeAt(crypto, cfg, unixTime, DecimalValue(text), k)
  }

  lemma BearerMeans(cfg: Config, headers: HeaderMap)
    ensures BearerAccepted(cfg, headers) <==> BearsToken(cfg, headers)
  {
  }

  lemma FreshMeans(cache: seq<Entry>, nonce: seq<byte>, now: uint32, ttl: uint32)
    ensures IsDuplicate(cache, nonce, now, ttl) <==> !IsFresh(cache, nonce, now, ttl)
  {
    assert forall i :: 0 <= i < |cache| ==>
      (Matches(cache[i], nonce, now, ttl) <==> Remembers(cache[i], nonce, now, ttl));
  }

  lemma NonceMeans(headers: HeaderMap, nonce: seq<byte>)
    ensures PresentedNonce(headers) == Some(nonce) <==> ShowsNonce(headers, nonce)
  {
    hide FromHex, IsHex;
  }

  lemma SignatureMeans(crypto: Crypto, cfg: Config, headers: HeaderMap, nonce: seq<byte>)
    ensures (PresentedSignature(crypto, headers).Some?
             && SignatureAccepted(crypto, cfg, nonce, PresentedSignature(crypto, headers).value))
        <==> ShowsSignature(crypto, cfg, headers, nonce)
  {
  }

  lemma MatchMeans(crypto: Crypto, cfg: Config, unixTime: uint64, code: uint32, k: int)
    requires Lawful(crypto)
    ensures Totp.MatchesAt(crypto.hmacSha1, cfg.totp, unixTime, code, k) <==> IsCodeAt(crypto, cfg, unixTime, code, k)
  {
    hide Totp.Hotp;
    var period := cfg.totp.periodS;
    var time := unixTime + k * period;
    if k < 0 {
      NegativeProduct(k, period);
      if time >= 0 {
        assert time % TWO64 == time;
      }
    } else {
      NonNegativeProduct(k, period);
    }
  }

  lemma NegativeProduct(k: int, period: uint32)
    requires k < 0
    ensures k * period <= 0
  {
  }

  lemma NonNegativeProduct(k: int, period: uint32)
    requires k >= 0
    ensures k * period >= 0
  {
  }

  lemma CodeMeans(crypto: Crypto, cfg: Config, headers: HeaderMap, unixTime: uint64)
    requires Lawful(crypto) && Admissible(cfg) && cfg.totpEnabled
    ensures TotpAccepted(crypto, cfg, headers, unixTime) <==> ShowsCode(crypto, cfg, headers, unixTime)
  {
    hide Totp.MatchesAt, IsCodeAt, DecimalValue, AllDigits;
    if "X-WS-TOTP" in headers && |headers["X-WS-TOTP"]| == cfg.totp.digits && AllDigits(headers["X-WS-TOTP"]) {
      var code := DecimalValue(headers["X-WS-TOTP"]);
      DecimalValueBound(headers["X-WS-TOTP"]);
      Totp.Pow10Small(cfg.totp.digits);
      forall k: int
        ensures Totp.MatchesAt(crypto.hmacSha1, cfg.totp, unixTime, code, k)
           <==> IsCodeAt(crypto, cfg, unixTime, code, k)
      {
        MatchMeans(crypto, cfg, unixTime, code, k);
      }
    }
  }

  /** A request is accepted if and only if its headers show all that the configuration asks for. */
  lemma AcceptedExactlyWhen(crypto: Crypto, cfg: Config, cache: seq<Entry>, ttl: uint32,
                            headers: HeaderMap, now: uint32, unixTime: uint64)
    requires Lawful(crypto) && Admissible(cfg)
    ensures Decide(crypto, cfg, cache, ttl, headers, now, unixTime).accepted <==>
              && BearsToken(cfg, headers)
              && (cfg.handshakeEnabled ==> exists nonce ::
                    && ShowsNonce(headers, nonce) && ShowsSignature(crypto, cfg, headers, nonce)
                    && IsFresh(cache, nonce, now, ttl))
              && (cfg.totpEnabled ==> ShowsCode(crypto, cfg, headers, unixTime))
  {
    hide PresentedNonce, SignatureAccepted, PresentedSignature, BearerAccepted, TotpAccepted, IsDuplicate;
    hide Swept, Stored, BearsToken, ShowsNonce, ShowsSignature, IsFresh, ShowsCode;
    BearerMeans(cfg, headers);
    if cfg.totpEnabled {
      CodeMeans(crypto, cfg, headers, unixTime);
    } else {
      NoCodeNeeded(crypto, cfg, headers, unixTime);
    }
    forall nonce
      ensures PresentedNonce(headers) == Some(nonce) <==> ShowsNonce(headers, nonce)
      ensures IsDuplicate(cache, nonce, now, ttl) <==> !IsFresh(cache, nonce, now, ttl)
      ensures (PresentedSignature(crypto, headers).Some?
               && SignatureAccepted(crypto, cfg, nonce, PresentedSignature(crypto, headers).value))
          <==> ShowsSignature(crypto, cfg, headers, nonce)
    {
      NonceMeans(headers, nonce);
      SignatureMeans(crypto, cfg, headers, nonce);
      FreshMeans(cache, nonce, now, ttl);
    }
  }

  /** On a clock with room, an accepted code is that of a step within the window around the present one. */
  lemma ShownCodeIsOfStepInWindow(crypto: Crypto, cfg: Config, headers: HeaderMap, unixTime: uint64)
    requires Lawful(crypto) && Admissible(cfg) && cfg.totpEnabled && ClockHasRoom(cfg, unixTime)
    ensures ShowsCode(crypto, cfg, headers, unixTime) <==>
      exists text, step: nat ::
        && HasText(headers, "X-WS-TOTP", text) && |text| == cfg.totp.digits && AllDigits(text)
        && unixTime / cfg.totp.periodS - SignedWindow(cfg) <= step <= unixTime / cfg.totp.periodS + SignedWindow(cfg)
        && Totp.Hotp(crypto.hmacSha1, cfg.totp.secret, step, cfg.totp.digits) == DecimalValue(text)
  {
    hide IsCodeAt, Totp.MatchesAt, Totp.Hotp, DecimalValue, AllDigits;
    if "X-WS-TOTP" in headers && |headers["X-WS-TOTP"]| == cfg.totp.digits && AllDigits(headers["X-WS-TOTP"])
      && SignedWindow(cfg) >= 0 {
      var code := DecimalValue(headers["X-WS-TOTP"]);
      DecimalValueBound(headers["X-WS-TOTP"]);
      Totp.Pow10Small(cfg.totp.digits);
      var now := unixTime / cfg.totp.periodS;
      forall k | -SignedWindow(cfg) <= k <= SignedWindow(cfg)
        ensures IsCodeAt(crypto, cfg, unixTime, code, k)
           <==> Totp.StepHasCode(crypto.hmacSha1, cfg.totp, now + k, code)
      {
        MatchMeans(crypto, cfg, unixTime, code, k);
        Totp.OffsetIsStep(crypto.hmacSha1, cfg.totp, unixTime, SignedWindow(cfg), code, k);
      }
      if step: nat :| now - SignedWindow(cfg) <= step <= now + SignedWindow(cfg)
                      && Totp.Hotp(crypto.hmacSha1, cfg.totp.secret, step, cfg.totp.digits) == code {
        assert Totp.StepHasCode(crypto.hmacSha1, cfg.totp, now + (step - now), code);
        assert IsCodeAt(crypto, cfg, unixTime, code, step - now);
      }
    }
  }

  lemma NoCodeNeeded(crypto: Crypto, cfg: Config, headers: HeaderMap, unixTime: uint64)
    requires Lawful(crypto) && Admissible(cfg) && !cfg.totpEnabled
    ensures TotpAccepted(crypto, cfg, headers, unixTime)
  {
  }

  /** An entry stays, or is cleared after its lifetime. */
  predicate KeptOrExpired(before: Entry, after: Entry, now: uint32, ttl: uint32) {
    after == before || (before.valid && 0 < ttl < (now - before.timestamp) % TWO32 && after == before.(valid := false))
  }

  /** Token, nonce and signature are right, and the nonce is new. */
  ghost predicate PassesHandshake(crypto: Crypto, cfg: Config, cache: seq<Entry>, ttl: uint32,
                                  headers: HeaderMap, now: uint32, nonce: seq<byte>)
  {
    && cfg.handshakeEnabled && BearsToken(cfg, headers) && ShowsNonce(headers, nonce)
    && ShowsSignature(crypto, cfg, headers, nonce) && IsFresh(cache, nonce, now, ttl)
  }

  lemma SweptKeepsOrExpires(cache: seq<Entry>, nonce: seq<byte>, now: uint32, ttl: uint32)
    ensures var after := Swept(cache, nonce, now, ttl);
            forall i :: 0 <= i < |cache| ==> KeptOrExpired(cache[i], after[i], now, ttl)
  {
  }

  /** What becomes of the cache, in the same terms. */
  lemma CacheAfter(crypto: Crypto, cfg: Config, cache: seq<Entry>, ttl: uint32,
                   headers: HeaderMap, now: uint32, unixTime: uint64, nonce: seq<byte>)
    requires Lawful(crypto) && Admissible(cfg) && PassesHandshake(crypto, cfg, cache, ttl, headers, now, nonce)
    ensures Decide(crypto, cfg, cache, ttl, headers, now, unixTime).cache
         == Stored(Swept(cache, nonce, now, ttl), nonce, now)
  {
    hide PresentedNonce, SignatureAccepted, PresentedSignature, BearerAccepted, TotpAccepted, IsDuplicate;
    hide Stored, Swept, BearsToken, ShowsNonce, ShowsSignature, IsFresh;
    BearerMeans(cfg, headers);
    NonceMeans(headers, nonce);
    SignatureMeans(crypto, cfg, headers, nonce);
    FreshMeans(cache, nonce, now, ttl);
  }

  lemma CacheOtherwise(crypto: Crypto, cfg: Config, cache: seq<Entry>, ttl: uint32,
                       headers: HeaderMap, now: uint32, unixTime: uint64)
    requires Lawful(crypto) && Admissible(cfg)
    requires forall nonce :: !PassesHandshake(crypto, cfg, cache, ttl, headers, now, nonce)
    ensures var after := Decide(crypto, cfg, cache, ttl, headers, now, unixTime).cache;
            after == cache || exists nonce :: after == Swept(cache, nonce, now, ttl)
  {
    hide PresentedNonce, SignatureAccepted, PresentedSignature, BearerAccepted, TotpAccepted, IsDuplicate;
    hide Stored, Swept, BearsToken, ShowsNonce, ShowsSignature, IsFresh;
    BearerMeans(cfg, headers);
    if PresentedNonce(headers).Some? {
      var nonce := PresentedNonce(headers).value;
      assert !PassesHandshake(crypto, cfg, cache, ttl, headers, now, nonce);
      NonceMeans(headers, nonce);
      SignatureMeans(crypto, cfg, headers, nonce);
      FreshMeans(cache, nonce, now, ttl);
    }
  }

  /** A nonce is put into one slot, and the other entries stay or have expired. */
  ghost predicate StoredInOneSlot(before: seq<Entry>, after: seq<Entry>, nonce: seq<byte>, now: uint32, ttl: uint32) {
    && |after| == |before|
    && exists slot :: 0 <= slot < |after| && after[slot] == Entry(true, now, nonce)
         && forall i :: 0 <= i < |before| && i != slot ==> KeptOrExpired(before[i], after[i], now, ttl)
  }

  ghost predicate NothingStored(before: seq<Entry>, after: seq<Entry>, now: uint32, ttl: uint32) {
    && |after| == |before|
    && forall i :: 0 <= i < |before| ==> KeptOrExpired(before[i], after[i], now, ttl)
  }

  /**
   * A request that passes the handshake puts its nonce into one slot of the cache, whether its code is
   * right or not. A request that does not pass, such as one with a wrong signature, stores nothing.
   */
  lemma NonceIsStoredExactlyWhen(crypto: Crypto, cfg: Config, cache: seq<Entry>, ttl: uint32,
                                 headers: HeaderMap, now: uint32, unixTime: uint64)
    requires Lawful(crypto) && Admissible(cfg)
    ensures var after := Decide(crypto, cfg, cache, ttl, headers, now, unixTime).cache;
            && ((forall nonce :: !PassesHandshake(crypto, cfg, cache, ttl, headers, now, nonce)) ==>
                  NothingStored(cache, after, now, ttl))
            && (forall nonce :: PassesHandshake(crypto, cfg, cache, ttl, headers, now, nonce) && |cache| > 0 ==>
                  StoredInOneSlot(cache, after, nonce, now, ttl))
  {
    hide Decide, PassesHandshake, KeptOrExpired, SlotFor, Swept;
    var after := Decide(crypto, cfg, cache, ttl, headers, now, unixTime).cache;
    if nonce :| PassesHandshake(crypto, cfg, cache, ttl, headers, now, nonce) {
      forall nonce | PassesHandshake(crypto, cfg, cache, ttl, headers, now, nonce) && |cache| > 0
        ensures StoredInOneSlot(cache, after, nonce, now, ttl)
      {
        CacheAfter(crypto, cfg, cache, ttl, headers, now, unixTime, nonce);
        SweptKeepsOrExpires(cache, nonce, now, ttl);
        assert after[SlotFor(Swept(cache, nonce, now, ttl), now)] == Entry(true, now, nonce);
      }
    } else {
      CacheOtherwise(crypto, cfg, cache, ttl, headers, now, unixTime);
      if after == cache {
        NothingHappened(cache, now, ttl);
      } else {
        var nonce :| after == Swept(cache, nonce, now, ttl);
        SweptKeepsOrExpires(cache, nonce, now, ttl);
      }
    }
  }

  lemma NothingHappened(cache: seq<Entry>, now: uint32, ttl: uint32)
    ensures NothingStored(cache, cache, now, ttl)
  {
  }

  // ---------- Every accepted handshake is a call of the replay model ----------

  /** A request that reaches the nonce check changes the cache as the replay model says. */
  lemma RequestIsCall(crypto: Crypto, cfg: Config, s: ReplayProtection.State, ttl: uint32,
                      headers: HeaderMap, time: nat, unixTime: uint64)
    requires Lawful(crypto) && Admissible(cfg) && cfg.handshakeEnabled && |s.cache| == |s.source|
    requires BearerAccepted(cfg, headers) && PresentedNonce(headers).Some? && PresentedSignature(crypto, headers).Some?
    ensures
      var nonce, signature := PresentedNonce(headers).value, PresentedSignature(crypto, headers).value;
      var call := ReplayProtection.Call(nonce, time, SignatureAccepted(crypto, cfg, nonce, signature));
      var decision := Decide(crypto, cfg, s.cache, ttl, headers, ReplayProtection.Tick(time), unixTime);
      && decision.cache == ReplayProtection.Next(s, call, ttl).cache
      && (ReplayProtection.Refused(s, call, ttl) ==> !decision.accepted)
  {
    hide Swept, SlotFor, IsDuplicate, TotpAccepted;
  }

  lemma PresentedIsDecoded(crypto: Crypto, headers: HeaderMap, data: seq<byte>)
    requires Lawful(crypto) && 0 < |data| <= SIGNATURE_BYTES
    ensures PresentedSignature(crypto, headers["X-WS-Signature" := crypto.encode64(data)]) == Some(data)
  {
    assert Base64Law(crypto, data);
  }

  /** A presented signature of 32 to 64 bytes is treated exactly as its first 32 bytes are. */
  lemma SignatureTailIsIgnored(crypto: Crypto, cfg: Config, cache: seq<Entry>, ttl: uint32, headers: HeaderMap,
                               now: uint32, unixTime: uint64, data: seq<byte>)
    requires Lawful(crypto) && Admissible(cfg) && SIGNATURE_LEN <= |data| <= SIGNATURE_BYTES
    ensures var whole := headers["X-WS-Signature" := crypto.encode64(data)];
            var first := headers["X-WS-Signature" := crypto.encode64(data[..SIGNATURE_LEN])];
            Decide(crypto, cfg, cache, ttl, whole, now, unixTime)
            == Decide(crypto, cfg, cache, ttl, first, now, unixTime)
  {
    hide PresentedSignature, Swept, Stored, IsDuplicate;
    var whole := headers["X-WS-Signature" := crypto.encode64(data)];
    var first := headers["X-WS-Signature" := crypto.encode64(data[..SIGNATURE_LEN])];
    PresentedIsDecoded(crypto, headers, data);
    PresentedIsDecoded(crypto, headers, data[..SIGNATURE_LEN]);
    assert data[..SIGNATURE_LEN][..SIGNATURE_LEN] == data[..SIGNATURE_LEN];
    assert BearerAccepted(cfg, whole) == BearerAccepted(cfg, first);
    assert PresentedNonce(whole) == PresentedNonce(first);
    assert HeaderValue(whole, "X-WS-TOTP", TOTP_SIZE) == HeaderValue(first, "X-WS-TOTP", TOTP_SIZE);
    assert TotpAccepted(crypto, cfg, whole, unixTime) == TotpAccepted(crypto, cfg, first, unixTime);
  }

  // ---------- Completeness ----------

  /** A token that survives an HTTP header: no carriage return, no blank at its end. */
  predicate Transportable(token: string) {
    token != "" ==> '\r' !in token && !IsBlank(token[|token| - 1])
  }

  ghost function TotpFields(crypto: Crypto, cfg: Config, unixTime: uint64): HeaderMap
    requires Lawful(crypto) && Admissible(cfg)
  {
    if cfg.totpEnabled then map["X-WS-TOTP" := CodeText(crypto, cfg, unixTime)] else map[]
  }

  function WithHandshakeFields(crypto: Crypto, cfg: Config, nonce: seq<byte>, others: HeaderMap): HeaderMap {
    if cfg.handshakeEnabled
    then others["X-WS-Signature" := SignatureText(crypto, cfg, nonce)]["X-WS-Nonce" := NonceText(nonce)]
    else others
  }

  function WithTokenField(cfg: Config, others: HeaderMap): HeaderMap {
    if cfg.token == "" then others else others["Authorization" := "Bearer " + cfg.token]
  }

  /** The fields that the server reads out of the client's block. */
  ghost function Fields(crypto: Crypto, cfg: Config, nonce: seq<byte>, unixTime: uint64): HeaderMap
    requires Lawful(crypto) && Admissible(cfg)
  {
    WithTokenField(cfg, WithHandshakeFields(crypto, cfg, nonce, TotpFields(crypto, cfg, unixTime)))
  }

  lemma DigitsAreClean(s: string)
    requires |s| > 0 && AllDigits(s)
    ensures IsClean(s)
  {
  }

  lemma HexIsClean(s: string)
    requires |s| > 0 && IsHex(s)
    ensures IsClean(s)
  {
    assert forall i :: 0 <= i < |s| ==> HexValue(s[i]) < 16;
  }

  lemma CodeTextFacts(crypto: Crypto, cfg: Config, unixTime: uint64)
    requires Lawful(crypto) && Admissible(cfg) && cfg.totpEnabled
    ensures var step := unixTime / cfg.totp.periodS;
            var code := Totp.Hotp(crypto.hmacSha1, cfg.totp.secret, step, cfg.totp.digits);
            var text := CodeText(crypto, cfg, unixTime);
            && |text| == cfg.totp.digits && AllDigits(text) && DecimalValue(text) == code < TWO32
  {
    hide Totp.Hotp;
    var code := Totp.Hotp(crypto.hmacSha1, cfg.totp.secret, unixTime / cfg.totp.periodS, cfg.totp.digits);
    FixedRoundTrip(code, cfg.totp.digits);
    Totp.Pow10Small(cfg.totp.digits);
  }

  lemma TotpPartParses(crypto: Crypto, cfg: Config, unixTime: uint64)
    requires Lawful(crypto) && Admissible(cfg)
    ensures ParseHeaders(TotpPart(crypto, cfg, unixTime)) == TotpFields(crypto, cfg, unixTime)
  {
    hide IsClean, CodeText;
    if cfg.totpEnabled {
      var text := CodeText(crypto, cfg, unixTime);
      CodeTextFacts(crypto, cfg, unixTime);
      DigitsAreClean(text);
      LineRoundTrip("X-WS-TOTP", text, "");
      assert HeaderLine("X-WS-TOTP", text) + "" == HeaderLine("X-WS-TOTP", text);
    }
  }

  lemma HandshakePartParses(crypto: Crypto, cfg: Config, nonce: seq<byte>, rest: string)
    requires Lawful(crypto) && |nonce| == NONCE_LEN
    ensures ParseHeaders(HandshakePart(crypto, cfg, nonce) + rest)
         == WithHandshakeFields(crypto, cfg, nonce, ParseHeaders(rest))
  {
    hide HeaderLine, IsClean, Hex, ParseHeaders;
    if cfg.handshakeEnabled {
      assert SignLaw(crypto, cfg.handshakeKey, nonce, cfg.token);
      assert Base64Law(crypto, crypto.sign(cfg.handshakeKey, nonce, cfg.token));
      HexRoundTrip(nonce, false);
      HexIsClean(NonceText(nonce));
      var nonceLine := HeaderLine("X-WS-Nonce", NonceText(nonce));
      var signatureLine := HeaderLine("X-WS-Signature", SignatureText(crypto, cfg, nonce));
      LineRoundTrip("X-WS-Signature", SignatureText(crypto, cfg, nonce), rest);
      LineRoundTrip("X-WS-Nonce", NonceText(nonce), signatureLine + rest);
      assert (nonceLine + signatureLine) + rest == nonceLine + (signatureLine + rest);
    } else {
      assert "" + rest == rest;
    }
  }

  lemma TokenPartParses(cfg: Config, rest: string)
    requires Transportable(cfg.token)
    ensures ParseHeaders(TokenPart(cfg) + rest) == WithTokenField(cfg, ParseHeaders(rest))
  {
    hide HeaderLine, IsClean, ParseHeaders;
    if cfg.token == "" {
      assert "" + rest == rest;
    } else {
      BearerIsClean(cfg.token);
      LineRoundTrip("Authorization", "Bearer " + cfg.token, rest);
    }
  }

  /** The server reads back exactly the fields that the client wrote. */
  lemma BlockParses(crypto: Crypto, cfg: Config, nonce: seq<byte>, unixTime: uint64)
    requires Lawful(crypto) && Admissible(cfg) && |nonce| == NONCE_LEN && Transportable(cfg.token)
    ensures ParseHeaders(HeaderBlock(crypto, cfg, nonce, unixTime)) == Fields(crypto, cfg, nonce, unixTime)
  {
    hide TokenPart, HandshakePart, TotpPart, ParseHeaders;
    var token, handshake := TokenPart(cfg), HandshakePart(crypto, cfg, nonce);
    var totp := TotpPart(crypto, cfg, unixTime);
    TotpPartParses(crypto, cfg, unixTime);
    HandshakePartParses(crypto, cfg, nonce, totp);
    TokenPartParses(cfg, handshake + totp);
    assert (token + handshake) + totp == token + (handshake + totp);
  }

  lemma BearerIsClean(token: string)
    requires token != "" && Transportable(token)
    ensures IsClean("Bearer " + token)
  {
    var value := "Bearer " + token;
    assert value[0] == 'B' && value[|value| - 1] == token[|token| - 1];
  }

  /** Client and server clocks whose time steps differ by at most the window. */
  predicate ClocksAgree(cfg: Config, clientTime: uint64, serverTime: uint64)
    requires Admissible(cfg)
  {
    cfg.totpEnabled ==>
      var client, server := clientTime / cfg.totp.periodS, serverTime / cfg.totp.periodS;
      server - Totp.ToInt32(cfg.totpWindow) <= client <= server + Totp.ToInt32(cfg.totpWindow)
  }

  predicate ClockHasRoom(cfg: Config, serverTime: uint64) {
    cfg.totpEnabled ==> serverTime + Totp.ToInt32(cfg.totpWindow) * cfg.totp.periodS < TWO64
  }

  /** It is enough that the clocks differ by no more than the window's length in seconds. */
  lemma SmallDriftAgrees(cfg: Config, clientTime: uint64, serverTime: uint64)
    requires Admissible(cfg)
    requires clientTime <= serverTime + Totp.ToInt32(cfg.totpWindow) * cfg.totp.periodS
    requires serverTime <= clientTime + Totp.ToInt32(cfg.totpWindow) * cfg.totp.periodS
    ensures ClocksAgree(cfg, clientTime, serverTime)
  {
    if cfg.totpEnabled {
      var window := Totp.ToInt32(cfg.totpWindow);
      NotNegative(window, cfg.totp.periodS);
      if clientTime <= serverTime {
        Totp.DriftWithinWindow(clientTime, serverTime, window, cfg.totp.periodS);
      } else {
        Totp.DriftWithinWindow(serverTime, clientTime, window, cfg.totp.periodS);
      }
    }
  }

  lemma NotNegative(window: int, periodS: int)
    requires periodS > 0 && window * periodS >= 0
    ensures window >= 0
  {
  }

  lemma OwnCodeIsAccepted(crypto: Crypto, cfg: Config, headers: HeaderMap, clientTime: uint64, serverTime: uint64)
    requires Lawful(crypto) && Admissible(cfg)
    requires ClocksAgree(cfg, clientTime, serverTime) && ClockHasRoom(cfg, serverTime)
    requires cfg.totpEnabled ==>
      HeaderValue(headers, "X-WS-TOTP", TOTP_SIZE) == Some(CodeText(crypto, cfg, clientTime))
    ensures TotpAccepted(crypto, cfg, headers, serverTime)
  {
    hide Totp.Hotp, Totp.MatchesAt, CodeText, DecimalValue;
    if cfg.totpEnabled {
      CodeTextFacts(crypto, cfg, clientTime);
      var code := DecimalValue(CodeText(crypto, cfg, clientTime));
      assert Totp.StepHasCode(crypto.hmacSha1, cfg.totp, clientTime / cfg.totp.periodS, code) by {
        Totp.SignOfQuotient(clientTime, cfg.totp.periodS);
      }
      Totp.WindowIsSteps(crypto.hmacSha1, cfg.totp, serverTime, Totp.ToInt32(cfg.totpWindow), code);
    }
  }

  /**
   * With everything shared, a new nonce and clocks that agree, the server accepts what the client
   * builds, whatever the features and the token, exactly if the bearer header fits its buffer.
   */
  lemma OwnHandshakeIsAccepted(crypto: Crypto, cfg: Config, cache: seq<Entry>, ttl: uint32,
                               nonce: seq<byte>, now: uint32, clientTime: uint64, serverTime: uint64)
    requires Lawful(crypto) && Admissible(cfg) && |nonce| == NONCE_LEN && Transportable(cfg.token)
    requires !IsDuplicate(cache, nonce, now, ttl)
    requires ClocksAgree(cfg, clientTime, serverTime) && ClockHasRoom(cfg, serverTime)
    ensures
      var headers := ParseHeaders(HeaderBlock(crypto, cfg, nonce, clientTime));
      Decide(crypto, cfg, cache, ttl, headers, now, serverTime).accepted <==> |cfg.token| <= 184
  {
    hide ParseHeaders, HeaderBlock, Totp.Hotp, Swept, Stored, IsDuplicate, TotpAccepted, CodeText, Hex;
    var headers := Fields(crypto, cfg, nonce, clientTime);
    BlockParses(crypto, cfg, nonce, clientTime);
    if cfg.totpEnabled {
      CodeTextFacts(crypto, cfg, clientTime);
    }
    OwnCodeIsAccepted(crypto, cfg, headers, clientTime, serverTime);
    if cfg.handshakeEnabled {
      HexRoundTrip(nonce, false);
      assert SignLaw(crypto, cfg.handshakeKey, nonce, cfg.token);
      var signature := crypto.sign(cfg.handshakeKey, nonce, cfg.token);
      assert Base64Law(crypto, signature);
      assert PresentedNonce(headers) == Some(nonce);
      assert PresentedSignature(crypto, headers) == Some(signature);
      assert signature[..SIGNATURE_LEN] == signature;
    }
  }
}
