/** Machine integers, byte orders and error codes shared by the modules. */
module Bytes {

  const TWO32: int := 0x1_0000_0000
  const TWO64: int := 0x1_0000_0000_0000_0000

  type byte = b: int | 0 <= b < 256
  type uint16 = n: int | 0 <= n < 0x1_0000
  type uint32 = n: int | 0 <= n < 0x1_0000_0000
  type uint64 = n: int | 0 <= n < 0x1_0000_0000_0000_0000

  datatype Option<+T> = None | Some(value: T)

  /** The ESP-IDF error codes that the modelled functions return. */
  datatype EspErr =
    | EspOk
    | EspFail
    | NoMem
    | InvalidArg
    | InvalidState
    | InvalidSize
    | InvalidResponse
    | InvalidVersion

  // ---------- Little-endian numbers ----------

  function Pow256(k: nat): nat {
    if k == 0 then 1 else 256 * Pow256(k - 1)
  }

  function ToLittleEndian(n: nat, k: nat): (s: seq<byte>)
    ensures |s| == k
  {
    if k == 0 then [] else [n % 256] + ToLittleEndian(n / 256, k - 1)
  }

  function FromLittleEndian(s: seq<byte>): nat {
    if |s| == 0 then 0 else s[0] + 256 * FromLittleEndian(s[1..])
  }

  lemma {:induction false} LittleEndianRoundTrip(n: nat, k: nat)
    requires n < Pow256(k)
    ensures FromLittleEndian(ToLittleEndian(n, k)) == n
  {
    if k > 0 {
      LittleEndianRoundTrip(n / 256, k - 1);
    }
  }

  lemma {:induction false} FromLittleEndianBound(s: seq<byte>)
    ensures FromLittleEndian(s) < Pow256(|s|)
  {
    if |s| > 0 {
      FromLittleEndianBound(s[1..]);
    }
  }

  lemma Pow256Values()
    ensures Pow256(4) == TWO32 && Pow256(8) == TWO64
  {
    assert Pow256(2) == 0x1_0000;
    assert Pow256(6) == 0x1_0000_0000_0000;
  }

  /** The number held by four stored bytes. */
  function ReadUint32(s: seq<byte>): uint32
    requires |s| == 4
  {
    FromLittleEndianBound(s);
    Pow256Values();
    FromLittleEndian(s)
  }

  /** The number held by eight stored bytes. */
  function ReadUint64(s: seq<byte>): uint64
    requires |s| == 8
  {
    FromLittleEndianBound(s);
    Pow256Values();
    FromLittleEndian(s)
  }

  lemma Uint64RoundTrip(n: uint64)
    ensures ReadUint64(ToLittleEndian(n, 8)) == n
  {
    Pow256Values();
    LittleEndianRoundTrip(n, 8);
  }

  lemma Uint32RoundTrip(n: uint32)
    ensures ReadUint32(ToLittleEndian(n, 4)) == n
  {
    Pow256Values();
    LittleEndianRoundTrip(n, 4);
  }
}
