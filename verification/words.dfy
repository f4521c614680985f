/** Fixed-width integers of the C code, as bounded subsets of `int`, and the
    little-endian packing the driver relies on when it casts pointers. */
module Words {
  type u8 = x: int | 0 <= x < 0x100
  type u16 = x: int | 0 <= x < 0x1_0000
  type u32 = x: int | 0 <= x < 0x1_0000_0000
  type u64 = x: int | 0 <= x < 0x1_0000_0000_0000_0000
  type s16 = x: int | -0x8000 <= x < 0x8000
  type s32 = x: int | -0x8000_0000 <= x < 0x8000_0000

  datatype Option<+T> = None | Some(value: T)

  /** Truncation to 32 bits, read back as a signed number. */
  function Signed32(x: int): s32 {
    (x + 0x8000_0000) % 0x1_0000_0000 - 0x8000_0000
  }

  function Signed16(x: int): s16 {
    (x + 0x8000) % 0x1_0000 - 0x8000
  }

  function Unsigned32(x: int): u32 {
    x % 0x1_0000_0000
  }

  /** The 32-bit word stored little-endian at byte offset `off`. */
  function WordAt(bytes: seq<u8>, off: nat): u32
    requires off + 4 <= |bytes|
  {
    var b0: int, b1: int, b2: int, b3: int := bytes[off], bytes[off + 1], bytes[off + 2], bytes[off + 3];
    b0 + 0x100 * b1 + 0x1_0000 * b2 + 0x100_0000 * b3
  }

  function BytesOf(w: u32): (b: seq<u8>)
    ensures |b| == 4 && WordAt(b, 0) == w
  {
    var q1 := w / 0x100;
    var q2 := q1 / 0x100;
    [w % 0x100, q1 % 0x100, q2 % 0x100, q2 / 0x100]
  }

  /** One digit to base 256, and one to base 16, split off a number. */
  lemma SplitByte(low: int, high: int)
    requires 0 <= low < 0x100
    ensures (low + 0x100 * high) % 0x100 == low && (low + 0x100 * high) / 0x100 == high
  {
  }

  lemma SplitNibble(low: int, high: int)
    requires 0 <= low < 16
    ensures (low + 16 * high) % 16 == low && (low + 16 * high) / 16 == high
  {
  }

  lemma SignedHalves(x: s16, y: u16)
    ensures Signed16(x % 0x1_0000) == x && Signed16(y) % 0x1_0000 == y
  {
    assert x % 0x1_0000 == if x >= 0 then x else x + 0x1_0000;
    assert Signed16(y) == if y < 0x8000 then y else y - 0x1_0000;
  }

  lemma SignedWords(x: s32, y: u32)
    ensures Signed32(Unsigned32(x)) == x && Unsigned32(Signed32(y)) == y
  {
    assert Unsigned32(x) == if x >= 0 then x else x + 0x1_0000_0000;
    assert Signed32(y) == if y < 0x8000_0000 then y else y - 0x1_0000_0000;
  }
}
