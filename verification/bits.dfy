/** Vocabulary shared by every protocol decoder: machine integers, edges and bits.

    The decoders that shift right keep received bits in fixed-width unsigned
    words (uint8_t, uint16_t, uint32_t). Such a word is modelled as the
    sequence of its bits, least significant first: element i is bit i, so the
    C expression `w >>= 1` drops element 0 and `w |= 0x80` (on a byte) sets
    element 7. The RC5 decoder shifts left and keeps its code as a number;
    MsbValue and MsbBits relate such numbers to the bits in sending order.
 */
module Bits {

  /** A uint8_t value (a counter or a byte-wide field). */
  type u8 = x: int | 0 <= x < 0x100

  /** A uint16_t value (an address field). */
  type u16 = x: int | 0 <= x < 0x1_0000

  /** A uint32_t value: an inter-edge duration or a micros() timestamp. */
  type u32 = x: int | 0 <= x < 0x1_0000_0000

  /** uint8_t increment, which wraps from 255 to 0. */
  function Inc8(x: u8): (r: u8)
    ensures x < 0xFF ==> r == x + 1
    ensures x == 0xFF ==> r == 0
  {
    (x + 1) % 0x100
  }

  /** One edge as the handler sees it: the time since the previous edge and
      the clock reading at this edge, both in µs. */
  datatype Edge = Edge(duration: u32, time: u32)

  /** uint16_t `x <<= 1; x += b;`: the bit enters at bit 0 and bit 15 is lost. */
  function Shl16(x: u16, b: bool): (r: u16)
    ensures r <= 2 * x + 1
    ensures x < 0x8000 ==> r == 2 * x + (if b then 1 else 0)
  {
    (2 * x + (if b then 1 else 0)) % 0x1_0000
  }

  /** uint32_t subtraction, which wraps modulo 2^32 and so survives a clock rollover. */
  function Sub32(a: u32, b: u32): (r: u32)
    ensures b <= a ==> r == a - b
    ensures a < b ==> r == a - b + 0x1_0000_0000
  {
    (a - b) % 0x1_0000_0000
  }

  // ---------------------------------------------------------------------------
  // Words as bit sequences

  function Zeros(n: nat): (r: seq<bool>)
    ensures |r| == n
    ensures forall i :: 0 <= i < n ==> !r[i]
  {
    seq(n, _ => false)
  }

  type Word8 = w: seq<bool> | |w| == 8 witness Zeros(8)
  type Word16 = w: seq<bool> | |w| == 16 witness Zeros(16)
  type Word32 = w: seq<bool> | |w| == 32 witness Zeros(32)

  /** `w >>= 1; if (b) <top bit> = 1;` the newest bit enters at the top, bit 0 is lost. */
  function PushMsb(w: seq<bool>, b: bool): (r: seq<bool>)
    requires |w| >= 1
    ensures |r| == |w|
  {
    w[1..] + [b]
  }

  /** Shifting a bit in at the top of a word made of a low and a high part
      drops the lowest bit of the low part and appends to the high part. */
  lemma PushAbove(low: seq<bool>, high: seq<bool>, b: bool)
    requires |low| >= 1
    ensures PushMsb(low + high, b) == low[1..] + (high + [b])
  {
  }

  /** Shifting the next bit of `b` into a word that holds the first j bits of
      `b` above what is left of `a` gives the first j+1 bits above one bit less of `a`. */
  lemma ShiftIn(a: seq<bool>, b: seq<bool>, j: nat)
    requires j < |a| && j < |b|
    ensures PushMsb(a[j..] + b[..j], b[j]) == a[j + 1..] + b[..j + 1]
  {
    assert a[j..][1..] == a[j + 1..];
    assert (a[j..] + b[..j])[1..] == a[j + 1..] + b[..j];
    assert b[..j + 1] == b[..j] + [b[j]];
  }

  /** `w <<= 1; w += b;` the newest bit enters at bit 0, the top bit is lost. */
  function PushLsb(w: seq<bool>, b: bool): (r: seq<bool>)
    requires |w| >= 1
    ensures |r| == |w|
  {
    [b] + w[..|w| - 1]
  }

  /** Logical right shift `w >> n`. */
  function Shr(w: seq<bool>, n: nat): (r: seq<bool>)
    requires n <= |w|
    ensures |r| == |w|
  {
    w[n..] + Zeros(n)
  }

  /** Byte k of a word in little-endian order (bits 8k .. 8k+7). */
  function Byte(w: seq<bool>, k: nat): (r: Word8)
    requires 8 * k + 8 <= |w|
  {
    w[8 * k .. 8 * k + 8]
  }

  /** Bitwise complement `~w`. */
  function Not(w: seq<bool>): (r: seq<bool>)
    ensures |r| == |w|
    ensures forall i :: 0 <= i < |w| ==> r[i] == !w[i]
  {
    seq(|w|, i requires 0 <= i < |w| => !w[i])
  }

  /** Complementing twice gives the word back. */
  lemma NotNot(w: seq<bool>)
    ensures Not(Not(w)) == w
  {
  }

  /** Bitwise or `a | c` of two words of the same width. */
  function Or(a: seq<bool>, c: seq<bool>): (r: seq<bool>)
    requires |a| == |c|
    ensures |r| == |a|
    ensures forall i :: 0 <= i < |a| ==> r[i] == (a[i] || c[i])
  {
    seq(|a|, i requires 0 <= i < |a| => a[i] || c[i])
  }

  // ---------------------------------------------------------------------------
  // Numeric value of a word

  function Pow2(n: nat): (r: nat)
    ensures r >= 1
  {
    if n == 0 then 1 else 2 * Pow2(n - 1)
  }

  lemma Pow2Widths()
    ensures Pow2(5) == 32 && Pow2(6) == 64 && Pow2(7) == 128 && Pow2(8) == 256
    ensures Pow2(12) == 4096 && Pow2(13) == 0x2000 && Pow2(14) == 0x4000 && Pow2(16) == 0x1_0000
  {
  }

  /** The unsigned number a word denotes, bit 0 first. */
  function Value(w: seq<bool>): (r: nat)
    ensures r < Pow2(|w|)
  {
    if |w| == 0 then 0 else (if w[0] then 1 else 0) + 2 * Value(w[1..])
  }

  /** The n low bits of x, least significant first (what a transmitter sends LSB-first). */
  function LsbBits(x: nat, n: nat): (r: seq<bool>)
    ensures |r| == n
  {
    if n == 0 then [] else [x % 2 == 1] + LsbBits(x / 2, n - 1)
  }

  lemma {:induction false} ValueOfLsbBits(x: nat, n: nat)
    requires x < Pow2(n)
    ensures Value(LsbBits(x, n)) == x
  {
    if n > 0 {
      ValueOfLsbBits(x / 2, n - 1);
      assert LsbBits(x, n)[1..] == LsbBits(x / 2, n - 1);
    }
  }

  lemma {:induction false} LsbBitsOfValue(w: seq<bool>)
    ensures LsbBits(Value(w), |w|) == w
  {
    if |w| > 0 {
      LsbBitsOfValue(w[1..]);
      var v := Value(w);
      assert v % 2 == 1 <==> w[0];
      assert v / 2 == Value(w[1..]);
      assert w == [w[0]] + w[1..];
    }
  }

  /** Two words of the same width with the same value are the same word. */
  lemma ValueInjective(a: seq<bool>, c: seq<bool>)
    requires |a| == |c|
    requires Value(a) == Value(c)
    ensures a == c
  {
    LsbBitsOfValue(a);
    LsbBitsOfValue(c);
  }

  /** Zero bits above a word do not change its value. */
  lemma {:induction false} ValueZeroPad(w: seq<bool>, n: nat)
    ensures Value(w + Zeros(n)) == Value(w)
  {
    if |w| == 0 {
      ValueZeros(n);
      assert w + Zeros(n) == Zeros(n);
    } else {
      ValueZeroPad(w[1..], n);
      assert (w + Zeros(n))[1..] == w[1..] + Zeros(n);
    }
  }

  lemma {:induction false} ValueZeros(n: nat)
    ensures Value(Zeros(n)) == 0
  {
    if n > 0 {
      ValueZeros(n - 1);
      assert Zeros(n)[1..] == Zeros(n - 1);
    }
  }

  /** `(uintN_t)~x` is `2^N - 1 - x`. */
  lemma {:induction false} ValueNot(w: seq<bool>)
    ensures Value(Not(w)) == Pow2(|w|) - 1 - Value(w)
  {
    if |w| > 0 {
      ValueNot(w[1..]);
      assert Not(w)[1..] == Not(w[1..]);
    }
  }

  /** LsbBitsOfValue, for a value and a width already named by the caller. */
  lemma LsbBitsAt(x: nat, w: seq<bool>, n: nat)
    requires x == Value(w) && n == |w|
    ensures LsbBits(x, n) == w
  {
    LsbBitsOfValue(w);
  }

  /** A 32-bit word is its four bytes, low byte first. */
  lemma FourBytes(w: seq<bool>, b0: Word8, b1: Word8, b2: Word8, b3: Word8)
    requires |w| == 32 && Byte(w, 0) == b0 && Byte(w, 1) == b1 && Byte(w, 2) == b2 && Byte(w, 3) == b3
    ensures w == b0 + b1 + b2 + b3
  {
    assert w == w[..8] + w[8..16] + w[16..24] + w[24..];
  }

  /** A word cut at k is the LSB-first encoding of the value of its first k
      bits followed by that of the rest. */
  lemma JoinValues(w: seq<bool>, k: nat, lo: nat, hi: nat)
    requires k <= |w| && lo == Value(w[..k]) && hi == Value(w[k..])
    ensures LsbBits(lo, k) + LsbBits(hi, |w| - k) == w
  {
    LsbBitsAt(lo, w[..k], k);
    LsbBitsAt(hi, w[k..], |w| - k);
    assert w[..k] + w[k..] == w;
  }

  /** The value of a byte-wide word, as a uint8_t. */
  function ByteValue(b: seq<bool>): (r: u8)
    requires |b| <= 8
    ensures r == Value(b)
  {
    Pow2Widths();
    Pow2Monotone(|b|, 8);
    Value(b)
  }

  /** The value of an at most 16-bit wide word, as a uint16_t. */
  function WordValue(w: seq<bool>): (r: u16)
    requires |w| <= 16
    ensures r == Value(w)
  {
    Pow2Widths();
    Pow2Monotone(|w|, 16);
    Value(w)
  }

  lemma {:induction false} Pow2Monotone(i: nat, j: nat)
    requires i <= j
    ensures Pow2(i) <= Pow2(j)
  {
    if i < j {
      Pow2Monotone(i, j - 1);
    }
  }

  // ---------------------------------------------------------------------------
  // Most-significant-bit-first numbers

  /** The number whose binary digits, most significant first, are `bits`. */
  function MsbValue(bits: seq<bool>): (r: nat)
    ensures r < Pow2(|bits|)
    decreases |bits|
  {
    if |bits| == 0 then 0
    else 2 * MsbValue(bits[..|bits| - 1]) + (if bits[|bits| - 1] then 1 else 0)
  }

  /** The n low binary digits of x, most significant first. */
  function MsbBits(x: nat, n: nat): (r: seq<bool>)
    ensures |r| == n
  {
    if n == 0 then [] else MsbBits(x / 2, n - 1) + [x % 2 == 1]
  }

  lemma {:induction false} MsbValueOfBits(x: nat, n: nat)
    requires x < Pow2(n)
    ensures MsbValue(MsbBits(x, n)) == x
  {
    if n > 0 {
      MsbValueOfBits(x / 2, n - 1);
      var bits := MsbBits(x, n);
      assert bits[..n - 1] == MsbBits(x / 2, n - 1);
    }
  }

  lemma {:induction false} MsbBitsOfValue(bits: seq<bool>)
    ensures MsbBits(MsbValue(bits), |bits|) == bits
    decreases |bits|
  {
    if |bits| > 0 {
      var n := |bits|;
      MsbBitsOfValue(bits[..n - 1]);
      var v := MsbValue(bits);
      assert v / 2 == MsbValue(bits[..n - 1]);
      assert v % 2 == 1 <==> bits[n - 1];
      assert bits == bits[..n - 1] + [bits[n - 1]];
    }
  }

  /** The value of at most 16 bits sent most significant first, as a uint16_t. */
  function MsbCode(bits: seq<bool>): (r: u16)
    requires |bits| <= 16
    ensures r == MsbValue(bits)
  {
    Pow2Widths();
    Pow2Monotone(|bits|, 16);
    MsbValue(bits)
  }
}
