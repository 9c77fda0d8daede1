/**
 * Byte-level helpers. Bytes and 16-bit words are integers in range; the bit
 * operations the shim applies to them are written out arithmetically, and the
 * way JavaScript numbers land in a Uint8Array or a 32-bit heap word is explicit.
 */
module Bits {

  /** An unsigned 8-bit value (a WebIDL `octet`, a C `uint8_t`). */
  type Byte = x: int | 0 <= x < 256

  /** An unsigned 16-bit value (a WebIDL `unsigned short`, a C `uint16_t`). */
  type Word = x: int | 0 <= x < 65536

  /** Storing an integral number into a Uint8Array keeps it modulo 256 (ToUint8). */
  function ByteOf(n: int): (b: Byte)
    ensures (n - b) % 256 == 0
    ensures 0 <= n < 256 ==> b == n
  {
    n % 256
  }

  /** The little-endian 16-bit word formed by two consecutive descriptor bytes. */
  function WordOf(lo: Byte, hi: Byte): Word {
    lo + 256 * hi
  }

  /** `n & 0xff` stored into a Uint8Array. */
  function JsLow(n: int): Byte {
    ByteOf(n)
  }

  /** `n >> 8` stored into a Uint8Array: the shift acts on the 32-bit value of `n` and keeps its sign. */
  function JsHigh(n: int): Byte {
    ByteOf(Int32(n) / 256)
  }

  /**
   * Writing `n & 0xff` and `n >> 8` into two consecutive bytes stores `n` as a
   * little-endian word, modulo 2^16.
   */
  lemma SplitWord(n: int)
    requires 0 <= n < 0x8000_0000
    ensures WordOf(JsLow(n), JsHigh(n)) == n % 0x1_0000
    ensures n < 0x1_0000 ==> JsLow(n) == n % 256 && JsHigh(n) == n / 256
  {
    var q := n / 256;
    assert n == 256 * q + n % 256;
    assert q == 256 * (q / 256) + q % 256;
    assert n == 0x1_0000 * (q / 256) + (n % 256 + 256 * (q % 256));
  }

  /** `a | b` on non-negative integers, bit by bit. */
  function BitOr(a: nat, b: nat): (r: nat)
    ensures r >= a && r >= b
    decreases a + b
  {
    if a == 0 then b
    else if b == 0 then a
    else 2 * BitOr(a / 2, b / 2) + (if a % 2 == 1 || b % 2 == 1 then 1 else 0)
  }

  /** `2^n`. */
  function Pow2(n: nat): nat
  {
    if n == 0 then 1 else 2 * Pow2(n - 1)
  }

  /** Or-ing a value below `2^n` into a multiple of `2^n` adds it: the bits do not overlap. */
  lemma {:induction false} BitOrDisjoint(m: nat, b: nat, n: nat)
    requires b < Pow2(n)
    ensures BitOr(m * Pow2(n), b) == m * Pow2(n) + b
    decreases n
  {
    var a := m * Pow2(n);
    if a != 0 && b != 0 {
      assert n > 0;
      assert a == 2 * (m * Pow2(n - 1));
      assert a % 2 == 0 && a / 2 == m * Pow2(n - 1);
      BitOrDisjoint(m, b / 2, n - 1);
    }
  }

  /** `(hi << 4) | lo` of two nibbles is `16 * hi + lo`. */
  lemma BitOrNibbles(hi: nat, lo: nat)
    requires lo < 16
    ensures BitOr(hi * 16, lo) == hi * 16 + lo
  {
    assert Pow2(4) == 16;
    BitOrDisjoint(hi, lo, 4);
  }

  /**
   * Writing a JavaScript number with `setValue(ptr, n, "i32")`: the heap word keeps
   * the value modulo 2^32, read back as a signed 32-bit integer.
   */
  function Int32(n: int): (r: int)
    ensures -0x8000_0000 <= r < 0x8000_0000
    ensures (n - r) % 0x1_0000_0000 == 0
    ensures -0x8000_0000 <= n < 0x8000_0000 ==> r == n
  {
    var m := n % 0x1_0000_0000;
    if m >= 0x8000_0000 then m - 0x1_0000_0000 else m
  }
}
