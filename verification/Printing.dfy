/** Printing into fixed buffers, as the C library's bounded print does. */
module Printing {
  import opened Crc32

  /** The bounded print: at most size - 1 characters and a terminating zero, and the full length. */
  method BoundedPrint(buffer: array<char>, offset: nat, size: nat, text: string) returns (written: nat)
    requires size > 0 && offset + size <= buffer.Length
    modifies buffer
    ensures written == |text|
    ensures var kept := if |text| < size then |text| else size - 1;
            && buffer[..offset + kept] == old(buffer[..offset]) + text[..kept]
            && buffer[offset + kept] == '\0'
    ensures buffer[..offset] == old(buffer[..offset]) && buffer[offset + size..] == old(buffer[offset + size..])
  {
    var kept := if |text| < size then |text| else size - 1;
    forall i | 0 <= i < kept {
      buffer[offset + i] := text[i];
    }
    buffer[offset + kept] := '\0';
    written := |text|;
  }

  /** The append step of common/proto/messages.c: what is used and what remains always add up. */
  method JsonAppend(buffer: array<char>, cursor: nat, remaining: nat, text: string)
    returns (ok: bool, newCursor: nat, newRemaining: nat)
    requires cursor + remaining <= buffer.Length
    modifies buffer
    ensures newCursor + newRemaining == cursor + remaining
    ensures ok <==> |text| < remaining
    ensures ok ==> newCursor == cursor + |text| && buffer[..newCursor] == old(buffer[..cursor]) + text
    ensures !ok ==> newCursor == cursor
    ensures buffer[..cursor] == old(buffer[..cursor])
    ensures forall i :: cursor + remaining <= i < buffer.Length ==> buffer[i] == old(buffer[i])
  {
    if remaining == 0 {
      return false, cursor, remaining;
    }
    var written := BoundedPrint(buffer, cursor, remaining, text);
    if written >= remaining {
      return false, cursor, remaining;
    }
    return true, cursor + written, remaining - written;
  }

  function CharByte(c: char): bv8 {
    (c as int % 256) as bv8
  }

  /** The characters of a text as the bytes that are sent. */
  function AsBytes(text: string): (bytes: seq<bv8>)
    ensures |bytes| == |text|
  {
    seq(|text|, i requires 0 <= i < |text| => CharByte(text[i]))
  }

  /** The checksum that accompanies a text. */
  function TextChecksum(text: string): bv32 {
    Checksum(AsBytes(text))
  }
}
