/**
 * The connection handshake: the headers that common/net/ws_client.c builds and the checks of
 * authorize_request in common/net/ws_server.c.
 */
module Handshake {
  import opened Bytes
  import opened Numerals
  import opened Headers
  import opened Printing
  import Totp

  const NONCE_LEN := 16
  const SIGNATURE_LEN := 32
  const SIGNATURE_TEXT_LEN := 44

  /**
   * The cryptographic library as functions: the HMAC-SHA-256 signature of a nonce followed by a
   * token, HMAC-SHA-1, and Base64 in both directions.
   */
  datatype Crypto = Crypto(
    sign: (seq<byte>, seq<byte>, string) -> seq<byte>,
    hmacSha1: Totp.Hmac,
    encode64: seq<byte> -> string,
    decode64: string -> Option<seq<byte>>)

  ghost predicate SignLaw(c: Crypto, key: seq<byte>, nonce: seq<byte>, token: string) {
    |c.sign(key, nonce, token)| == SIGNATURE_LEN
  }

  /**
   * Section 4 of RFC 4648, as far as it is used: up to 64 bytes give four characters for every three
   * begun, 44 for a signature, and these decode back.
   */
  ghost predicate Base64Law(c: Crypto, data: seq<byte>) {
    0 < |data| <= 2 * SIGNATURE_LEN ==>
      && |c.encode64(data)| == (|data| + 2) / 3 * 4
      && IsClean(c.encode64(data))
      && c.decode64(c.encode64(data)) == Some(data)
  }

  ghost predicate Lawful(c: Crypto) {
    && (forall key: seq<byte>, nonce: seq<byte>, token: string :: SignLaw(c, key, nonce, token))
    && (forall data: seq<byte> :: Base64Law(c, data))
    && Totp.Lawful(c.hmacSha1)
  }

  /** What both ends are configured with. */
  datatype Config = Config(
    token: string,
    handshakeEnabled: bool,
    handshakeKey: seq<byte>,
    totpEnabled: bool,
    totp: Totp.Config,
    totpWindow: uint32)

  /** What the start functions admit. */
  predicate Admissible(cfg: Config) {
    cfg.totpEnabled ==> Totp.Usable(cfg.totp)
  }

  // ---------- The client's header block ----------

  function NonceText(nonce: seq<byte>): string {
    Hex(nonce, false)
  }

  /** The nonce is printed in lower case. */
  lemma NonceIsLowerCase(nonce: seq<byte>, i: nat)
    requires i < |nonce|
    ensures NonceText(nonce)[2 * i] == "0123456789abcdef"[nonce[i] / 16]
    ensures NonceText(nonce)[2 * i + 1] == "0123456789abcdef"[nonce[i] % 16]
  {
    HexAt(nonce, i);
    HexDigitsAre(nonce[i] / 16, '0');
    HexDigitsAre(nonce[i] % 16, '0');
  }

  lemma {:induction false} HexAt(data: seq<byte>, i: nat)
    requires i < |data|
    ensures Hex(data, false)[2 * i] == HexDigit(data[i] / 16, false)
    ensures Hex(data, false)[2 * i + 1] == HexDigit(data[i] % 16, false)
    decreases |data|
  {
    hide HexDigit;
    if i > 0 {
      HexAt(data[1..], i - 1);
    }
  }

  function SignatureText(crypto: Crypto, cfg: Config, nonce: seq<byte>): string {
    crypto.encode64(crypto.sign(cfg.handshakeKey, nonce, cfg.token))
  }

  ghost function CodeText(crypto: Crypto, cfg: Config, unixTime: uint64): string
    requires Lawful(crypto) && Admissible(cfg) && cfg.totpEnabled
  {
    Padded(Totp.Hotp(crypto.hmacSha1, cfg.totp.secret, unixTime / cfg.totp.periodS, cfg.totp.digits), cfg.totp.digits)
  }

  function TokenPart(cfg: Config): string {
    if cfg.token == "" then "" else HeaderLine("Authorization", "Bearer " + cfg.token)
  }

  function HandshakePart(crypto: Crypto, cfg: Config, nonce: seq<byte>): string {
    if cfg.handshakeEnabled
    then HeaderLine("X-WS-Nonce", NonceText(nonce)) + HeaderLine("X-WS-Signature", SignatureText(crypto, cfg, nonce))
    else ""
  }

  ghost function TotpPart(crypto: Crypto, cfg: Config, unixTime: uint64): string
    requires Lawful(crypto) && Admissible(cfg)
  {
    if cfg.totpEnabled then HeaderLine("X-WS-TOTP", CodeText(crypto, cfg, unixTime)) else ""
  }

  ghost function HeaderBlock(crypto: Crypto, cfg: Config, nonce: seq<byte>, unixTime: uint64): string
    requires Lawful(crypto) && Admissible(cfg)
  {
    TokenPart(cfg) + HandshakePart(crypto, cfg, nonce) + TotpPart(crypto, cfg, unixTime)
  }

  /** The length that ws_client_start computes before any line is built. */
  function HeaderLen(cfg: Config): nat {
    (if cfg.token != "" then |"Authorization: Bearer "| + |cfg.token| + 2 else 0)
    + (if cfg.handshakeEnabled
       then |"X-WS-Nonce: "| + 2 * NONCE_LEN + 2 + |"X-WS-Signature: "| + SIGNATURE_TEXT_LEN + 2
       else 0)
    + (if cfg.totpEnabled && cfg.totp.digits > 0 then |"X-WS-TOTP: "| + cfg.totp.digits + 2 else 0)
  }

  lemma SignatureTextLength(crypto: Crypto, cfg: Config, nonce: seq<byte>)
    requires Lawful(crypto)
    ensures |SignatureText(crypto, cfg, nonce)| == SIGNATURE_TEXT_LEN
  {
    assert SignLaw(crypto, cfg.handshakeKey, nonce, cfg.token);
    assert Base64Law(crypto, crypto.sign(cfg.handshakeKey, nonce, cfg.token));
  }

  /** The lines add up to exactly the computed length, for every token, nonce, time and feature set. */
  lemma BlockHasHeaderLen(crypto: Crypto, cfg: Config, nonce: seq<byte>, unixTime: uint64)
    requires Lawful(crypto) && Admissible(cfg) && |nonce| == NONCE_LEN
    ensures |HeaderBlock(crypto, cfg, nonce, unixTime)| == HeaderLen(cfg)
  {
    hide SignatureText, Totp.Hotp, Hex, Lawful;
    SignatureTextLength(crypto, cfg, nonce);
  }

  class HeaderBuilder {
    const crypto: Crypto
    const cfg: Config
    const headerLen: nat
    var block: array?<char>

    constructor (crypto: Crypto, cfg: Config)
      ensures this.crypto == crypto && this.cfg == cfg && headerLen == HeaderLen(cfg) && block == null
    {
      this.crypto, this.cfg, headerLen, block := crypto, cfg, HeaderLen(cfg), null;
    }

    ghost predicate Valid()
      reads this
    {
      && headerLen == HeaderLen(cfg)
      && (block != null ==> block.Length == headerLen + 1)
    }

    /** Prints one line at the offset; ok says that it fits in what is left of the block. */
    method AppendLine(offset: nat, line: string) returns (ok: bool, end: nat)
      requires Valid() && block != null && offset <= headerLen
      modifies block
      ensures ok <==> offset + |line| <= headerLen
      ensures ok ==> end == offset + |line| && block[..end] == old(block[..offset]) + line
    {
      var written := BoundedPrint(block, offset, headerLen - offset + 1, line);
      if written > headerLen - offset {
        return false, offset;
      }
      return true, offset + written;
    }

    method AppendHandshake(offset: nat, nonce: seq<byte>) returns (ok: bool, end: nat)
      requires Valid() && block != null && offset <= headerLen
      modifies block
      ensures ok <==> offset + |HandshakePart(crypto, cfg, nonce)| <= headerLen
      ensures ok ==>
        && end == offset + |HandshakePart(crypto, cfg, nonce)|
        && block[..end] == old(block[..offset]) + HandshakePart(crypto, cfg, nonce)
    {
      hide HeaderLine, Hex;
      ok, end := true, offset;
      if cfg.handshakeEnabled {
        ok, end := AppendLine(end, HeaderLine("X-WS-Nonce", NonceText(nonce)));
        if ok {
          ok, end := AppendLine(end, HeaderLine("X-WS-Signature", SignatureText(crypto, cfg, nonce)));
        }
      }
    }

    method AppendTotp(offset: nat, unixTime: uint64) returns (err: EspErr, end: nat)
      requires Valid() && block != null && offset <= headerLen && Lawful(crypto) && Admissible(cfg)
      modifies block
      ensures err == if offset + |TotpPart(crypto, cfg, unixTime)| <= headerLen then EspOk else InvalidSize
      ensures err == EspOk ==>
        && end == offset + |TotpPart(crypto, cfg, unixTime)|
        && block[..end] == old(block[..offset]) + TotpPart(crypto, cfg, unixTime)
    {
      hide HeaderLine, Padded, Totp.Hotp;
      err, end := EspOk, offset;
      if cfg.totpEnabled {
        var e, code := Totp.Compute(crypto.hmacSha1, cfg.totp, unixTime);
        if e != EspOk {
          return e, offset;
        }
        var ok;
        ok, end := AppendLine(end, HeaderLine("X-WS-TOTP", Padded(code, cfg.totp.digits)));
        err := if ok then EspOk else InvalidSize;
      }
    }

    /**
     * Rebuilds the block for a connection attempt, the first one or any later one. The nonce is
     * fresh random bytes; allocOk says whether memory for the first block was available. Whatever
     * the token and the features, the bound is never hit: there is no size error.
     */
    method Regenerate(nonce: seq<byte>, unixTime: uint64, allocOk: bool) returns (err: EspErr)
      requires Valid() && Lawful(crypto) && Admissible(cfg) && |nonce| == NONCE_LEN
      modifies this, block
      ensures Valid()
      ensures err == if headerLen > 0 && old(block) == null && !allocOk then NoMem else EspOk
      ensures old(block) != null ==> block == old(block)
      ensures err == EspOk && headerLen > 0 ==>
        && block != null
        && block[..headerLen] == HeaderBlock(crypto, cfg, nonce, unixTime)
        && block[headerLen] == '\0'
    {
      hide HeaderLen, HeaderLine, HandshakePart, TotpPart;
      if headerLen == 0 {
        return EspOk;
      }
      if block == null {
        if !allocOk {
          return NoMem;
        }
        block := new char[headerLen + 1];
      }
      BlockHasHeaderLen(crypto, cfg, nonce, unixTime);
      var offset, ok := 0, true;
      if cfg.token != "" {
        ok, offset := AppendLine(offset, HeaderLine("Authorization", "Bearer " + cfg.token));
        if !ok {
          return InvalidSize;
        }
      }
      ok, offset := AppendHandshake(offset, nonce);
      if !ok {
        return InvalidSize;
      }
      err, offset := AppendTotp(offset, unixTime);
      if err != EspOk {
        return err;
      }
      if offset <= headerLen {
        block[offset] := '\0';
      }
      return EspOk;
    }
  }
}
