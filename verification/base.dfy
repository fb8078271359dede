/**
 Machine words, the C# arithmetic the client relies on, and the little-endian
 codec used by the static index records.

 Dafny integers are unbounded; every place where the client truncates, wraps
 or uses C#'s truncating remainder goes through one of the helpers below.
 */
module Base {

  datatype Option<+T> = None | Some(value: T)

  type byte = x: int | 0 <= x < 0x100
  type u16 = x: int | 0 <= x < 0x1_0000
  type u32 = x: int | 0 <= x < 0x1_0000_0000
  type i32 = x: int | -0x8000_0000 <= x < 0x8000_0000

  const TwoTo32: int := 0x1_0000_0000

  /** Unchecked conversion to `uint`: keep the low 32 bits. */
  function ToU32(x: int): u32 {
    x % TwoTo32
  }

  /** Unchecked conversion to `int`: keep the low 32 bits, read them as two's complement. */
  function ToI32(x: int): i32 {
    var r := x % TwoTo32;
    if r < 0x8000_0000 then r else r - TwoTo32
  }

  function Min(a: int, b: int): int {
    if a <= b then a else b
  }

  function Max(a: int, b: int): int {
    if a >= b then a else b
  }

  /** C#'s `%` on `int`: the remainder takes the sign of the dividend. */
  function CsRem(a: int, b: int): (r: int)
    requires b > 0
    ensures -b < r < b
    ensures a >= 0 ==> r == a % b
    ensures a < 0 ==> r <= 0
    ensures -b <= a < 0 ==> r == (if a == -b then 0 else a)
  {
    if a >= 0 then a % b else -((-a) % b)
  }

  // ---------------------------------------------------------------------------
  // Little-endian 32-bit codec
  // ---------------------------------------------------------------------------

  /** The four bytes `(byte)x, (byte)(x >> 8), (byte)(x >> 16), (byte)(x >> 24)`. */
  function LittleEndian32(x: u32): (bs: seq<byte>)
    ensures |bs| == 4
  {
    [x % 0x100, x / 0x100 % 0x100, x / 0x1_0000 % 0x100, x / 0x100_0000 % 0x100]
  }

  /** Reads an unsigned 32-bit little-endian word at `off`. */
  function ReadU32(s: seq<byte>, off: nat): u32
    requires off + 4 <= |s|
  {
    (s[off] as int) + (s[off + 1] as int) * 0x100 + (s[off + 2] as int) * 0x1_0000 + (s[off + 3] as int) * 0x100_0000
  }

  /** Reads a signed 32-bit little-endian word at `off` (`ReadInt`). */
  function ReadI32(s: seq<byte>, off: nat): i32
    requires off + 4 <= |s|
  {
    ToI32(ReadU32(s, off))
  }

  /** Decoding the encoding of a word gives the word back. */
  lemma ReadLittleEndian32(x: u32)
    ensures ReadU32(LittleEndian32(x), 0) == x
  {
    var b0: int, b1: int, b2: int, b3: int := x % 0x100, x / 0x100 % 0x100, x / 0x1_0000 % 0x100, x / 0x100_0000 % 0x100;
    assert x / 0x100 == b1 + (x / 0x1_0000) * 0x100;
    assert x / 0x1_0000 == b2 + (x / 0x100_0000) * 0x100;
    assert x / 0x100_0000 == b3;
    assert x == b0 + (x / 0x100) * 0x100;
  }

  /** Encoding a decoded word gives the four bytes back. */
  lemma LittleEndianOfRead(s: seq<byte>, off: nat)
    requires off + 4 <= |s|
    ensures LittleEndian32(ReadU32(s, off)) == s[off..off + 4]
  {
    var x := ReadU32(s, off);
    var b0: int, b1: int, b2: int, b3: int := s[off], s[off + 1], s[off + 2], s[off + 3];
    assert x / 0x100 == b1 + b2 * 0x100 + b3 * 0x1_0000;
    assert x / 0x1_0000 == b2 + b3 * 0x100;
    assert x / 0x100_0000 == b3;
  }

  /** A word below 2^31 reads back unchanged as a signed word. */
  lemma SmallToI32(x: int)
    requires 0 <= x < 0x8000_0000
    ensures ToI32(x) == x
  {
  }

  // ---------------------------------------------------------------------------
  // In-place writes into a fixed-size region
  // ---------------------------------------------------------------------------

  /** `data` written at `off` into `s`; the region keeps its length. */
  function Overwrite<T>(s: seq<T>, off: nat, data: seq<T>): (r: seq<T>)
    requires off + |data| <= |s|
    ensures |r| == |s|
    ensures forall i | 0 <= i < |s| :: r[i] == if off <= i < off + |data| then data[i - off] else s[i]
  {
    s[..off] + data + s[off + |data|..]
  }

  /** Reading a word back from where it was just written. */
  lemma ReadAfterOverwrite(s: seq<byte>, off: nat, data: seq<byte>, at: nat)
    requires off + |data| <= |s|
    requires off <= at && at + 4 <= off + |data|
    ensures ReadU32(Overwrite(s, off, data), at) == ReadU32(data, at - off)
  {
  }

  /** Reading a word that does not overlap a write. */
  lemma ReadBesideOverwrite(s: seq<byte>, off: nat, data: seq<byte>, at: nat)
    requires off + |data| <= |s|
    requires at + 4 <= |s|
    requires at + 4 <= off || off + |data| <= at
    ensures ReadU32(Overwrite(s, off, data), at) == ReadU32(s, at)
  {
  }
}
