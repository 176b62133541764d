/** The sealed frame envelope of common/net/ws_security.c. */
module SecureFrame {
  import opened Bytes

  const VERSION: byte := 1
  const IV_LEN := 12
  const TAG_LEN := 16
  const COUNTER_LEN := 8
  const FIXED_HEADER_LEN := 1 + 1 + COUNTER_LEN
  const HEADER_LEN := FIXED_HEADER_LEN + IV_LEN

  /**
   * AES-GCM as two functions: sealing gives ciphertext and tag, opening gives the plaintext
   * or nothing. Arguments are key, nonce, associated data and text (and tag).
   */
  datatype Aead = Aead(
    seal: (seq<byte>, seq<byte>, seq<byte>, seq<byte>) -> (seq<byte>, seq<byte>),
    open: (seq<byte>, seq<byte>, seq<byte>, seq<byte>, seq<byte>) -> Option<seq<byte>>)

  ghost predicate SealLaw(a: Aead, key: seq<byte>, iv: seq<byte>, aad: seq<byte>, plain: seq<byte>) {
    var (text, tag) := a.seal(key, iv, aad, plain);
    |text| == |plain| && |tag| == TAG_LEN && a.open(key, iv, aad, text, tag) == Some(plain)
  }

  ghost predicate OpenLaw(a: Aead, key: seq<byte>, iv: seq<byte>, aad: seq<byte>, text: seq<byte>, tag: seq<byte>) {
    var plain := a.open(key, iv, aad, text, tag);
    plain.Some? ==> |plain.value| == |text|
  }

  /** The functional laws of section 7 of NIST SP 800-38D that the envelope relies on. */
  ghost predicate Lawful(a: Aead) {
    && (forall key: seq<byte>, iv: seq<byte>, aad: seq<byte>, plain: seq<byte> :: SealLaw(a, key, iv, aad, plain))
    && (forall key: seq<byte>, iv: seq<byte>, aad: seq<byte>, text: seq<byte>, tag: seq<byte> ::
          OpenLaw(a, key, iv, aad, text, tag))
  }

  lemma Sealing(a: Aead, key: seq<byte>, iv: seq<byte>, aad: seq<byte>, plain: seq<byte>)
    requires Lawful(a)
    ensures SealLaw(a, key, iv, aad, plain)
  {
  }

  // ---------- The envelope as a value ----------

  function EncryptedSize(enabled: bool, plaintextLen: nat): nat {
    if enabled then HEADER_LEN + plaintextLen + TAG_LEN else plaintextLen
  }

  function FixedHeader(counter: uint64): (h: seq<byte>)
    ensures |h| == FIXED_HEADER_LEN
  {
    [VERSION, 0] + ToLittleEndian(counter, COUNTER_LEN)
  }

  function Seal(a: Aead, key: seq<byte>, counter: uint64, iv: seq<byte>, plain: seq<byte>): seq<byte> {
    var (text, tag) := a.seal(key, iv, FixedHeader(counter), plain);
    FixedHeader(counter) + iv + text + tag
  }

  function FrameIv(frame: seq<byte>): seq<byte>
    requires |frame| >= HEADER_LEN + TAG_LEN
  {
    frame[FIXED_HEADER_LEN..HEADER_LEN]
  }

  function FrameCounter(frame: seq<byte>): uint64
    requires |frame| >= HEADER_LEN + TAG_LEN
  {
    ReadUint64(frame[2..FIXED_HEADER_LEN])
  }

  /** What the cipher makes of a frame's fields. */
  function Authenticated(a: Aead, key: seq<byte>, frame: seq<byte>): Option<seq<byte>>
    requires |frame| >= HEADER_LEN + TAG_LEN
  {
    var end := |frame| - TAG_LEN;
    a.open(key, FrameIv(frame), frame[..FIXED_HEADER_LEN], frame[HEADER_LEN..end], frame[end..])
  }

  datatype Opened = Opened(plain: seq<byte>, counter: uint64) | Refused(err: EspErr)

  /** What a receiver that last accepted the given counter makes of a frame. */
  function Open(a: Aead, key: seq<byte>, frame: seq<byte>, last: uint64): Opened {
    if |frame| < HEADER_LEN + TAG_LEN then Refused(InvalidSize)
    else if frame[0] != VERSION then Refused(InvalidVersion)
    else if frame[1] != 0 then Refused(InvalidState)
    else if FrameCounter(frame) <= last then Refused(InvalidResponse)
    else match Authenticated(a, key, frame)
      case None => Refused(InvalidResponse)
      case Some(plain) => Opened(plain, FrameCounter(frame))
  }

  /** A number of 64 bits whose low byte comes first. */
  function LowByteFirst(s: seq<byte>): nat
    requires |s| == 8
  {
    var s0: nat, s1: nat, s2: nat, s3: nat, s4: nat, s5: nat, s6: nat, s7: nat :=
      s[0], s[1], s[2], s[3], s[4], s[5], s[6], s[7];
    s0 + 0x100 * s1 + 0x1_0000 * s2 + 0x100_0000 * s3 + 0x1_0000_0000 * s4 + 0x100_0000_0000 * s5
    + 0x1_0000_0000_0000 * s6 + 0x100_0000_0000_0000 * s7
  }

  lemma ByteByByte(s: seq<byte>)
    ensures FromLittleEndian([]) == 0
    ensures forall i :: 0 <= i < |s| ==> FromLittleEndian(s[i..]) == s[i] + 256 * FromLittleEndian(s[i + 1..])
  {
    forall i | 0 <= i < |s|
      ensures FromLittleEndian(s[i..]) == s[i] + 256 * FromLittleEndian(s[i + 1..])
    {
      assert s[i..][1..] == s[i + 1..];
    }
  }

  lemma LowByteFirstIsRead(s: seq<byte>)
    requires |s| == 8
    ensures ReadUint64(s) == LowByteFirst(s)
  {
    hide FromLittleEndian;
    ByteByByte(s);
    assert s[0..] == s && s[8..] == [];
  }

  /**
   * The layout of a frame: version 1, flags 0, the counter with its low byte first, a nonce of 12
   * bytes, the ciphertext, a tag of 16 bytes. The first ten bytes are authenticated with the text.
   */
  ghost predicate HasLayout(a: Aead, key: seq<byte>, counter: uint64, iv: seq<byte>, plain: seq<byte>,
                            frame: seq<byte>)
  {
    && |frame| == |plain| + 38
    && frame[0] == 1 && frame[1] == 0
    && LowByteFirst(frame[2..10]) == counter
    && frame[10..22] == iv
    && a.seal(key, iv, frame[..10], plain) == (frame[22..|frame| - 16], frame[|frame| - 16..])
  }

  /** A sealed frame has that layout, and the receiver finds the fields where the sender put them. */
  lemma SealedFields(a: Aead, key: seq<byte>, counter: uint64, iv: seq<byte>, plain: seq<byte>)
    requires Lawful(a) && |iv| == IV_LEN
    ensures var frame := Seal(a, key, counter, iv, plain);
            && |frame| == EncryptedSize(true, |plain|) == |plain| + 38
            && HasLayout(a, key, counter, iv, plain, frame)
            && FrameCounter(frame) == counter
            && Authenticated(a, key, frame) == Some(plain)
  {
    assert SealLaw(a, key, iv, FixedHeader(counter), plain);
    var (text, tag) := a.seal(key, iv, FixedHeader(counter), plain);
    var frame := Seal(a, key, counter, iv, plain);
    var end := |frame| - TAG_LEN;
    assert frame[..FIXED_HEADER_LEN] == FixedHeader(counter);
    assert FrameIv(frame) == iv;
    assert frame[HEADER_LEN..end] == text;
    assert frame[end..] == tag;
    assert frame[2..FIXED_HEADER_LEN] == ToLittleEndian(counter, COUNTER_LEN);
    Uint64RoundTrip(counter);
    LowByteFirstIsRead(frame[2..10]);
  }

  /** A receiver opens a sealed frame exactly when its counter is new, and then gets the plaintext. */
  lemma SealOpens(a: Aead, key: seq<byte>, counter: uint64, iv: seq<byte>, plain: seq<byte>, last: uint64)
    requires Lawful(a) && |iv| == IV_LEN
    ensures Open(a, key, Seal(a, key, counter, iv, plain), last)
         == if last < counter then Opened(plain, counter) else Refused(InvalidResponse)
  {
    SealedFields(a, key, counter, iv, plain);
  }

  /** What a receiver makes of any bytes, in numbers. */
  lemma OpenedExactlyWhen(a: Aead, key: seq<byte>, frame: seq<byte>, last: uint64)
    requires Lawful(a)
    ensures Open(a, key, frame, last) ==
      if |frame| < 38 then Refused(InvalidSize)
      else if frame[0] != 1 then Refused(InvalidVersion)
      else if frame[1] != 0 then Refused(InvalidState)
      else if LowByteFirst(frame[2..10]) <= last then Refused(InvalidResponse)
      else match a.open(key, frame[10..22], frame[..10], frame[22..|frame| - 16], frame[|frame| - 16..])
        case None => Refused(InvalidResponse)
        case Some(plain) => Opened(plain, LowByteFirst(frame[2..10]))
  {
    hide LowByteFirst;
    if |frame| >= 38 {
      LowByteFirstIsRead(frame[2..10]);
    }
  }

  // ---------- The envelope in place ----------

  class Context {
    const aead: Aead
    const encryptionEnabled: bool
    const frameKey: seq<byte>
    var txCounter: uint64

    constructor (aead: Aead, encryptionEnabled: bool, frameKey: seq<byte>)
      ensures this.aead == aead && this.encryptionEnabled == encryptionEnabled && this.frameKey == frameKey
      ensures txCounter == 0
    {
      this.aead, this.encryptionEnabled, this.frameKey := aead, encryptionEnabled, frameKey;
      txCounter := 0;
    }

    method ResetCounters()
      modifies this
      ensures txCounter == 0
    {
      txCounter := 0;
    }

    /**
     * The nonce comes from the random source; cipherOk is false when the cipher library
     * reports an error, which uses up a counter value without producing a frame.
     */
    method Encrypt(plaintext: array<byte>, plaintextLen: nat, out: array<byte>, outSize: nat,
                   iv: seq<byte>, cipherOk: bool)
      returns (err: EspErr, outLen: nat)
      requires Lawful(aead) && |iv| == IV_LEN
      requires plaintextLen <= plaintext.Length && outSize <= out.Length && plaintext != out
      modifies this, out
      ensures var size := if encryptionEnabled then plaintextLen + 38 else plaintextLen;
              if outSize < size
              then err == NoMem && txCounter == old(txCounter) && out[..] == old(out[..])
              else
                && txCounter == (if encryptionEnabled then (old(txCounter) + 1) % TWO64 else old(txCounter))
                && err == (if encryptionEnabled && !cipherOk then EspFail else EspOk)
                && (err == EspOk ==> outLen == size)
                && out[size..] == old(out[..])[size..]
      ensures err == EspOk && !encryptionEnabled ==> out[..outLen] == plaintext[..plaintextLen]
      ensures err == EspOk && encryptionEnabled ==>
        && out[..outLen] == Seal(aead, frameKey, txCounter, iv, plaintext[..plaintextLen])
        && HasLayout(aead, frameKey, txCounter, iv, plaintext[..plaintextLen], out[..outLen])
    {
      hide HasLayout, Lawful;
      outLen := 0;
      if !encryptionEnabled {
        if outSize < plaintextLen {
          return NoMem, 0;
        }
        CopyInto(out, 0, plaintext[..plaintextLen]);
        return EspOk, plaintextLen;
      }
      var required := EncryptedSize(true, plaintextLen);
      if outSize < required {
        return NoMem, 0;
      }
      txCounter := (txCounter + 1) % TWO64;
      ghost var before := out[..];
      CopyInto(out, 0, FixedHeader(txCounter) + iv);
      if !cipherOk {
        return EspFail, 0;
      }
      Sealing(aead, frameKey, iv, FixedHeader(txCounter), plaintext[..plaintextLen]);
      var (text, tag) := aead.seal(frameKey, iv, FixedHeader(txCounter), plaintext[..plaintextLen]);
      CopyInto(out, HEADER_LEN, text + tag);
      Assembled(before, FixedHeader(txCounter) + iv, text + tag);
      assert FixedHeader(txCounter) + iv + (text + tag)
          == Seal(aead, frameKey, txCounter, iv, plaintext[..plaintextLen]);
      SealedFields(aead, frameKey, txCounter, iv, plaintext[..plaintextLen]);
      return EspOk, required;
    }

    /**
     * Opens a frame in place. The plaintext replaces the ciphertext and is then moved to the
     * front, over the header. What a failed cipher call leaves in the ciphertext area is not
     * specified here.
     */
    method Decrypt(buffer: array<byte>, bufferLen: nat, last: uint64)
      returns (err: EspErr, plaintextLen: nat, counter: uint64)
      requires Lawful(aead) && bufferLen <= buffer.Length
      modifies buffer
      ensures buffer[bufferLen..] == old(buffer[..])[bufferLen..]
      ensures !encryptionEnabled ==>
        err == EspOk && plaintextLen == bufferLen && counter == last && buffer[..] == old(buffer[..])
      ensures encryptionEnabled ==>
        match Open(aead, frameKey, old(buffer[..bufferLen]), last)
        case Opened(plain, c) =>
          err == EspOk && plaintextLen == |plain| <= bufferLen && counter == c > last && buffer[..plaintextLen] == plain
        case Refused(e) =>
          err == e && err != EspOk && counter == last
      ensures encryptionEnabled ==>
        var f := old(buffer[..bufferLen]);
        if bufferLen < 38 then err == InvalidSize
        else if f[0] != 1 then err == InvalidVersion
        else if f[1] != 0 then err == InvalidState
        else if LowByteFirst(f[2..10]) <= last then err == InvalidResponse
        else match aead.open(frameKey, f[10..22], f[..10], f[22..bufferLen - 16], f[bufferLen - 16..])
          case None => err == InvalidResponse
          case Some(plain) =>
            && err == EspOk && counter == LowByteFirst(f[2..10])
            && plaintextLen == bufferLen - 38 && buffer[..plaintextLen] == plain
    {
      hide LowByteFirst;
      OpenedExactlyWhen(aead, frameKey, buffer[..bufferLen], last);
      plaintextLen, counter := 0, last;
      if !encryptionEnabled {
        return EspOk, bufferLen, last;
      }
      ghost var frame := buffer[..bufferLen];
      if bufferLen < HEADER_LEN + TAG_LEN {
        return InvalidSize, 0, last;
      }
      if buffer[0] != VERSION {
        return InvalidVersion, 0, last;
      }
      if buffer[1] != 0 {
        return InvalidState, 0, last;
      }
      assert frame[2..FIXED_HEADER_LEN] == buffer[2..FIXED_HEADER_LEN];
      var received := ReadUint64(buffer[2..FIXED_HEADER_LEN]);
      if received <= last {
        return InvalidResponse, 0, last;
      }
      var end := bufferLen - TAG_LEN;
      assert frame[..FIXED_HEADER_LEN] == buffer[..FIXED_HEADER_LEN];
      assert FrameIv(frame) == buffer[FIXED_HEADER_LEN..HEADER_LEN];
      assert frame[HEADER_LEN..end] == buffer[HEADER_LEN..end] && frame[end..] == buffer[end..bufferLen];
      var iv, aad := buffer[FIXED_HEADER_LEN..HEADER_LEN], buffer[..FIXED_HEADER_LEN];
      assert OpenLaw(aead, frameKey, iv, aad, buffer[HEADER_LEN..end], buffer[end..bufferLen]);
      var plain := aead.open(frameKey, iv, aad, buffer[HEADER_LEN..end], buffer[end..bufferLen]);
      if plain == None {
        return InvalidResponse, 0, last;
      }
      CopyInto(buffer, HEADER_LEN, plain.value);
      MoveToFront(buffer, HEADER_LEN, |plain.value|);
      return EspOk, |plain.value|, received;
    }
  }

  /** Writing a header and then the rest behind it writes both, and nothing after them. */
  lemma Assembled(before: seq<byte>, header: seq<byte>, body: seq<byte>)
    requires |header| + |body| <= |before|
    ensures var first := header + before[|header|..];
            var second := first[..|header|] + body + first[|header| + |body|..];
            && second[..|header| + |body|] == header + body
            && second[|header| + |body|..] == before[|header| + |body|..]
  {
  }

  method CopyInto(target: array<byte>, at: nat, data: seq<byte>)
    requires at + |data| <= target.Length
    modifies target
    ensures target[..] == old(target[..at]) + data + old(target[at + |data|..])
  {
    forall i | 0 <= i < |data| {
      target[at + i] := data[i];
    }
  }

  /** The overlapping move of a block to the front of its own buffer. */
  method MoveToFront(buffer: array<byte>, from: nat, len: nat)
    requires from + len <= buffer.Length
    modifies buffer
    ensures buffer[..] == old(buffer[from..from + len]) + old(buffer[len..])
  {
    var i := 0;
    while i < len
      invariant 0 <= i <= len
      invariant buffer[..i] == old(buffer[from..from + i])
      invariant buffer[i..] == old(buffer[..])[i..]
    {
      ghost var before := buffer[..];
      assert before[from + i] == old(buffer[..])[from + i];
      buffer[i] := buffer[from + i];
      i := i + 1;
      assert buffer[..] == before[i - 1 := before[from + i - 1]];
    }
  }
}
