/** Machine-level values: bytes, the two- and four-byte integers stored in pages
    and records, and the status codes the storage layers return. */
module Bytes {

  datatype Option<+T> = None | Some(value: T)

  datatype Status =
    | OK
    | BADPAGENO | UNIXERR
    | HASHTBLERROR | HASHNOTFOUND | BUFFEREXCEEDED | PAGENOTPINNED | BADBUFFER | PAGEPINNED
    | NOSPACE | NORECORDS | ENDOFPAGE | INVALIDSLOTNO | INVALIDRECLEN
    | BADSCANPARM | FILEEOF
    | BADSORTPARM | INSUFMEM | FILEEXISTS
    | ATTRTYPEMISMATCH

  type byte = x: int | 0 <= x < 256

  type bytes = seq<byte>

  /** The little-endian two's-complement `short` with the given two bytes. */
  function Short(lo: byte, hi: byte): (v: int)
    ensures -32768 <= v < 32768
  {
    var u := lo as int + 256 * (hi as int);
    if u >= 32768 then u - 65536 else u
  }

  function LoByte(v: int): byte { v % 256 }

  function HiByte(v: int): byte { (v / 256) % 256 }

  /** Storing a value in a `short` and loading it back gives the value, for every value a `short` can hold. */
  lemma ShortRoundTrip(v: int)
    requires -32768 <= v < 32768
    ensures Short(LoByte(v), HiByte(v)) == v
  {
  }

  /** The little-endian two's-complement `int` in the first four bytes of b. */
  function Int32(b: bytes): (v: int)
    requires |b| >= 4
    ensures -0x8000_0000 <= v < 0x8000_0000
  {
    var u: int := b[0] as int + 0x100 * (b[1] as int) + 0x1_0000 * (b[2] as int) + 0x100_0000 * (b[3] as int);
    if u >= 0x8000_0000 then u - 0x1_0000_0000 else u
  }

  /** The four bytes of an int, lowest first, are its digits to the base 256; the int is negative if the highest is 128
      or more. */
  lemma Int32Digits(b: bytes)
    requires |b| >= 4
    ensures var v := Int32(b);
      && v % 0x100 == b[0] && (v / 0x100) % 0x100 == b[1]
      && (v / 0x1_0000) % 0x100 == b[2] && (v / 0x100_0000) % 0x100 == b[3]
    ensures Int32(b) < 0 <==> b[3] >= 0x80
  {
    var top: int := if b[3] >= 0x80 then b[3] as int - 0x100 else b[3] as int;
    var q2 := b[2] + 0x100 * top;
    var q1 := b[1] + 0x100 * q2;
    assert Int32(b) == b[0] + 0x100 * q1;
    hide Int32;
    Lowest(b[0], q1, Int32(b));
    Lowest(b[1], q2, q1);
    Lowest(b[2], top, q2);
    Quotients(Int32(b), q1, q2);
  }

  lemma Lowest(lo: byte, q: int, v: int)
    requires v == lo + 0x100 * q
    ensures v % 0x100 == lo && v / 0x100 == q
  {
  }

  lemma Quotients(v: int, q1: int, q2: int)
    requires v / 0x100 == q1 && q1 / 0x100 == q2
    ensures v / 0x1_0000 == q2 && v / 0x100_0000 == q2 / 0x100
  {
  }

  /** The same for a short. */
  lemma ShortDigits(lo: byte, hi: byte)
    ensures Short(lo, hi) % 0x100 == lo && (Short(lo, hi) / 0x100) % 0x100 == hi
    ensures Short(lo, hi) < 0 <==> hi >= 0x80
  {
  }
}
