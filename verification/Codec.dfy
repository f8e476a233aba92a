/** Big-endian integer codecs (my_util.c). */
module Codec {
  import opened Types

  function Pow256(k: nat): (p: nat)
    ensures p > 0
  {
    if k == 0 then 1 else 256 * Pow256(k - 1)
  }

  /** The `k` low-order bytes of `n`, most significant first. Floor division is C's arithmetic shift. */
  function ToBytes(n: int, k: nat): (s: seq<Byte>)
    ensures |s| == k
    decreases k
  {
    if k == 0 then [] else ToBytes(n / 256, k - 1) + [n % 256]
  }

  function FromBytes(s: seq<Byte>): nat {
    if |s| == 0 then 0 else 256 * FromBytes(s[..|s| - 1]) + s[|s| - 1]
  }

  lemma MulMonotone(a: int, d: int)
    requires a >= 1 && d >= 0
    ensures a * d >= d
  {
  }

  lemma ModUnique(n: int, d: int, q: int, r: int)
    requires 0 <= r < d && n == q * d + r
    ensures n % d == r
  {
    var k := n / d;
    assert (q - k) * d == q * d - k * d;
    assert n == k * d + n % d;
    if q > k { MulMonotone(q - k, d); }
    if q < k { assert (k - q) * d == -((q - k) * d); MulMonotone(k - q, d); }
  }

  lemma LowByteOfMod(n: int, m: int)
    requires m > 0
    ensures n % (256 * m) == 256 * (n / 256 % m) + n % 256
  {
    var q := n / 256;
    var t, r := q / m, q % m;
    assert q == t * m + r;
    assert t * (256 * m) == 256 * (t * m);
    ModUnique(n, 256 * m, t, 256 * r + n % 256);
  }

  /** Decoding what was encoded gives back the number modulo the field's width, at every width. */
  lemma {:induction false} DecodeEncode(n: int, k: nat)
    ensures FromBytes(ToBytes(n, k)) == n % Pow256(k)
    decreases k
  {
    if k > 0 {
      DecodeEncode(n / 256, k - 1);
      assert ToBytes(n, k)[..k - 1] == ToBytes(n / 256, k - 1);
      LowByteOfMod(n, Pow256(k - 1));
    }
  }

  /** Encoding what was decoded is the identity on byte strings of every length. */
  lemma {:induction false} EncodeDecode(s: seq<Byte>)
    ensures ToBytes(FromBytes(s), |s|) == s
  {
    if |s| > 0 {
      var front, b := s[..|s| - 1], s[|s| - 1];
      EncodeDecode(front);
      assert FromBytes(s) / 256 == FromBytes(front) && FromBytes(s) % 256 == b;
      assert s == front + [b];
    }
  }

  predicate Int32(n: int) {
    -0x8000_0000 <= n < 0x8000_0000
  }

  /** Two's-complement reading of a 32-bit pattern. */
  function Signed32(u: nat): int {
    if u < 0x8000_0000 then u else u - 0x1_0000_0000
  }

  method ConvertIntTo4Bytes(n: int, bytes: array<Byte>, at: nat)
    requires Int32(n) && at + 4 <= bytes.Length
    modifies bytes
    ensures bytes[..] == old(bytes[..at]) + ToBytes(n, 4) + old(bytes[at + 4..])
  {
    FourBytes(n);
    PutHalf(bytes, at, n / 0x100_0000 % 256, n / 0x1_0000 % 256, n / 0x100 % 256, n % 256);
  }

  lemma FourBytes(n: int)
    ensures ToBytes(n, 4) == [n / 0x100_0000 % 256, n / 0x1_0000 % 256, n / 0x100 % 256, n % 256]
  {
  }

  method ConvertUllTo8Bytes(n: nat, bytes: array<Byte>, at: nat)
    requires at + 8 <= bytes.Length
    modifies bytes
    ensures bytes[..] == old(bytes[..at]) + ToBytes(n, 8) + old(bytes[at + 8..])
  {
    hide ToBytes;
    ghost var was := bytes[..];
    PutHalf(bytes, at, n / 0x100_0000_0000_0000 % 256, n / 0x1_0000_0000_0000 % 256, n / 0x100_0000_0000 % 256,
            n / 0x1_0000_0000 % 256);
    ghost var high, mid := bytes[at..at + 4], bytes[..];
    PutHalf(bytes, at + 4, n / 0x100_0000 % 256, n / 0x1_0000 % 256, n / 0x100 % 256, n % 256);
    ghost var low := bytes[at + 4..at + 8];
    EightBytes(n);
    assert mid[..at + 4] == was[..at] + high && mid[at + 8..] == was[at + 8..];
    assert bytes[..] == was[..at] + (high + low) + was[at + 8..];
    assert high + low == ToBytes(n, 8);
  }

  method PutHalf(bytes: array<Byte>, at: nat, a: Byte, b: Byte, c: Byte, d: Byte)
    requires at + 4 <= bytes.Length
    modifies bytes
    ensures bytes[..] == old(bytes[..at]) + [a, b, c, d] + old(bytes[at + 4..])
  {
    bytes[at], bytes[at + 1], bytes[at + 2], bytes[at + 3] := a, b, c, d;
  }

  lemma EightBytes(n: int)
    ensures ToBytes(n, 8) ==
            [n / 0x100_0000_0000_0000 % 256, n / 0x1_0000_0000_0000 % 256, n / 0x100_0000_0000 % 256,
             n / 0x1_0000_0000 % 256,
             n / 0x100_0000 % 256, n / 0x1_0000 % 256, n / 0x100 % 256, n % 256]
  {
    var high := n / 0x100 / 0x100 / 0x100 / 0x100;
    assert high == n / 0x1_0000_0000;
    FourBytes(high);
    FourBytes(n);
    SplitBytes(n);
    assert high / 0x100_0000 == n / 0x100_0000_0000_0000;
    assert high / 0x1_0000 == n / 0x1_0000_0000_0000;
    assert high / 0x100 == n / 0x100_0000_0000;
  }

  lemma SplitBytes(n: int)
    ensures ToBytes(n, 8) == ToBytes(n / 0x100 / 0x100 / 0x100 / 0x100, 4) + ToBytes(n, 4)
  {
  }

  // ---- C's left shift and bit-wise or on unsigned values ----

  function Pow2(k: nat): (p: nat)
    ensures p > 0
  {
    if k == 0 then 1 else 2 * Pow2(k - 1)
  }

  function Shl(x: nat, k: nat): nat {
    x * Pow2(k)
  }

  /** Bit by bit, from the lowest. */
  function Or(a: nat, b: nat): nat {
    if a == 0 then b else if b == 0 then a else 2 * Or(a / 2, b / 2) + if a % 2 == 1 || b % 2 == 1 then 1 else 0
  }

  /** Or-ing values that occupy different bits adds them. */
  lemma {:induction false} OrOfDisjointBits(a: nat, b: nat, k: nat)
    requires b < Pow2(k)
    ensures Or(Shl(a, k), b) == Shl(a, k) + b
    decreases k
  {
    if k == 0 {
      assert b == 0;
    } else if Shl(a, k) > 0 && b > 0 {
      ShlHalves(a, k);
      HalfBelow(b, k);
      OrOfDisjointBits(a, b / 2, k - 1);
      OrByHalves(Shl(a, k), b);
    }
  }

  lemma ShlHalves(a: nat, k: nat)
    requires k > 0
    ensures Shl(a, k) / 2 == Shl(a, k - 1) && Shl(a, k) % 2 == 0
  {
    assert Shl(a, k) == 2 * Shl(a, k - 1);
  }

  lemma HalfBelow(b: nat, k: nat)
    requires k > 0 && b < Pow2(k)
    ensures b / 2 < Pow2(k - 1)
  {
  }

  lemma OrByHalves(a: nat, b: nat)
    requires a > 0 && b > 0 && a % 2 == 0
    ensures Or(a, b) == 2 * Or(a / 2, b / 2) + b % 2
  {
  }

  lemma Pow2Byte(k: nat)
    ensures Pow2(k + 8) == 256 * Pow2(k)
  {
    assert Pow2(k + 8) == 2 * Pow2(k + 7) == 4 * Pow2(k + 6) == 8 * Pow2(k + 5) == 16 * Pow2(k + 4);
    assert Pow2(k + 4) == 2 * Pow2(k + 3) == 4 * Pow2(k + 2) == 8 * Pow2(k + 1) == 16 * Pow2(k);
  }

  lemma MulLess(a: nat, b: nat, p: nat)
    requires a < b && p > 0
    ensures a * p < b * p
  {
  }

  lemma ShlByte(x: nat, k: nat)
    ensures Shl(x, k + 8) == Shl(256 * x, k) && Shl(x, 0) == x
  {
    Pow2Byte(k);
  }

  lemma ShlAdds(x: nat, y: nat, k: nat)
    ensures Shl(x, k) + Shl(y, k) == Shl(x + y, k)
  {
  }

  /** Or-ing the next byte below what has been decoded so far appends it. */
  lemma OrAppendsByte(data: seq<Byte>, j: nat, k: nat)
    requires j < |data|
    ensures Or(Shl(FromBytes(data[..j]), k + 8), Shl(data[j], k)) == Shl(FromBytes(data[..j + 1]), k)
  {
    hide Shl, Or;
    var high := FromBytes(data[..j]);
    assert data[..j + 1][..j] == data[..j];
    ByteBelow(data[j], k);
    OrOfDisjointBits(high, Shl(data[j], k), k + 8);
    ShlByte(high, k);
    ShlAdds(256 * high, data[j], k);
  }

  lemma ByteBelow(b: Byte, k: nat)
    ensures Shl(b, k) < Pow2(k + 8)
  {
    Pow2Byte(k);
    MulLess(b, 256, Pow2(k));
  }

  /** The shift into the sign bit is read as two's complement. */
  function Convert4BytesToInt(data: seq<Byte>): int
    requires |data| >= 4
  {
    Signed32(Or(Or(Or(Shl(data[0], 24), Shl(data[1], 16)), Shl(data[2], 8)), data[3]))
  }

  function Convert8BytesToUll(data: seq<Byte>): nat
    requires |data| >= 8
  {
    var res := Or(Or(Or(Shl(data[0], 56), Shl(data[1], 48)), Shl(data[2], 40)), Shl(data[3], 32));
    Or(Or(Or(Or(res, Shl(data[4], 24)), Shl(data[5], 16)), Shl(data[6], 8)), data[7])
  }

  /** The shift-and-or decoders compute the positional value of their field. */
  lemma Decoder4IsPositional(data: seq<Byte>)
    requires |data| >= 4
    ensures Convert4BytesToInt(data) == Signed32(FromBytes(data[..4]))
  {
    hide Shl, Or;
    OneByte(data);
    OrAppendsByte(data, 1, 16);
    OrAppendsByte(data, 2, 8);
    OrAppendsByte(data, 3, 0);
    ShlByte(data[3], 0);
    ShlByte(FromBytes(data[..4]), 0);
  }

  lemma Decoder8IsPositional(data: seq<Byte>)
    requires |data| >= 8
    ensures Convert8BytesToUll(data) == FromBytes(data[..8])
  {
    hide Shl, Or;
    OneByte(data);
    OrAppendsByte(data, 1, 48);
    OrAppendsByte(data, 2, 40);
    OrAppendsByte(data, 3, 32);
    OrAppendsByte(data, 4, 24);
    OrAppendsByte(data, 5, 16);
    OrAppendsByte(data, 6, 8);
    OrAppendsByte(data, 7, 0);
    ShlByte(data[7], 0);
    ShlByte(FromBytes(data[..8]), 0);
  }

  lemma OneByte(data: seq<Byte>)
    requires |data| >= 1
    ensures FromBytes(data[..1]) == data[0]
  {
    assert data[..1][..0] == [];
  }

  lemma FieldWidths()
    ensures Pow256(4) == 0x1_0000_0000
    ensures Pow256(8) == 0x1_0000_0000_0000_0000
  {
  }

  /** The node reads back exactly the period the sink wrote into its reply. */
  lemma PeriodRoundTrip(period: int)
    requires Int32(period)
    ensures Convert4BytesToInt(ToBytes(period, 4)) == period
  {
    hide Convert4BytesToInt;
    FieldWidths();
    Decoder4IsPositional(ToBytes(period, 4));
    assert ToBytes(period, 4)[..4] == ToBytes(period, 4);
    DecodeEncode(period, 4);
    if period < 0 {
      ModUnique(period, 0x1_0000_0000, -1, period + 0x1_0000_0000);
    } else {
      ModUnique(period, 0x1_0000_0000, 0, period);
    }
  }

  /** The node reads back exactly the clock the sink wrote, and every 8-byte field encodes the number it decodes to. */
  lemma ClockRoundTrip(clock: nat, field: seq<Byte>)
    requires clock < 0x1_0000_0000_0000_0000 && |field| == 8
    ensures Convert8BytesToUll(ToBytes(clock, 8)) == clock
    ensures ToBytes(Convert8BytesToUll(field), 8) == field
  {
    hide Convert8BytesToUll;
    FieldWidths();
    assert ToBytes(clock, 8)[..8] == ToBytes(clock, 8) && field[..8] == field;
    Decoder8IsPositional(ToBytes(clock, 8));
    Decoder8IsPositional(field);
    DecodeEncode(clock, 8);
    EncodeDecode(field);
    ModUnique(clock, 0x1_0000_0000_0000_0000, 0, clock);
  }
}
