/** The G.711 codec (src/rtpkit/codec/g711.py): decode tables, and encoding by nearest code. */
module G711 {
  import opened Bytes

  type Sample = x: int | -0x8000 <= x < 0x8000

  /** What each of the 256 codes decodes to. */
  type Table = t: seq<Sample> | |t| == 256 witness seq(256, _ => 0)

  // ---------------------------------------------------------------- decode tables

  function Pow2(n: nat): (p: nat)
    ensures p > 0
  {
    if n == 0 then 1 else 2 * Pow2(n - 1)
  }

  const BIAS := 0x84

  /** The magnitude of a mu-law segment and step. */
  function UlawMagnitude(exponent: nat, mantissa: nat): int {
    (mantissa * 8 + BIAS) * Pow2(exponent) - BIAS
  }

  function UlawDecode(u: byte): int {
    var v := 0xFF - u;
    var magnitude := UlawMagnitude(v / 16 % 8, v % 16);
    if v >= 0x80 then -magnitude else magnitude
  }

  /** `a ^ 0x55`: bits 0, 2, 4 and 6 flipped. */
  function FlipEvenBits(a: byte): byte {
    FlipNibble(a / 16) * 16 + FlipNibble(a % 16)
  }

  /** `n ^ 5` on four bits. */
  function FlipNibble(n: int): (r: int)
    requires 0 <= n < 16
    ensures 0 <= r < 16
  {
    n + (if n % 2 == 0 then 1 else -1) + (if n / 4 % 2 == 0 then 4 else -4)
  }

  function AlawMagnitude(segment: nat, step: nat): int {
    var t := step * 16;
    if segment == 0 then t + 8
    else if segment == 1 then t + 0x108
    else (t + 0x108) * Pow2(segment - 1)
  }

  function AlawDecode(a: byte): int {
    var v := FlipEvenBits(a);
    var t := AlawMagnitude(v / 16 % 8, v % 16);
    if v >= 0x80 then t else -t
  }

  lemma Powers()
    ensures Pow2(0) == 1 && Pow2(1) == 2 && Pow2(2) == 4 && Pow2(3) == 8
    ensures Pow2(4) == 16 && Pow2(5) == 32 && Pow2(6) == 64 && Pow2(7) == 128
  {
    assert Pow2(3) == 2 * Pow2(2);
    assert Pow2(5) == 2 * Pow2(4);
  }

  /** The magnitude of the `level`th quantisation level: 8 segments of 16 steps. */
  function UlawLevel(level: nat): int {
    UlawMagnitude(level / 16, level % 16)
  }

  function AlawLevel(level: nat): int {
    AlawMagnitude(level / 16, level % 16)
  }

  /** The distance from a level to the next: it doubles with every segment, A-law's first two being alike. */
  function UlawStep(level: nat): (d: nat)
    ensures d > 0
  {
    (if level % 16 == 15 then 12 else 8) * Pow2(level / 16)
  }

  function AlawStep(level: nat): (d: nat)
    ensures d > 0
  {
    var segment := level / 16;
    if segment == 0 then 16 else (if level % 16 == 15 then 24 else 16) * Pow2(segment - 1)
  }

  /** Levels start at 0 and at 8, and rise by their steps: so their whole ladders are fixed. */
  lemma LevelSteps(level: nat)
    ensures UlawLevel(0) == 0 && UlawLevel(level + 1) == UlawLevel(level) + UlawStep(level)
    ensures AlawLevel(0) == 8 && AlawLevel(level + 1) == AlawLevel(level) + AlawStep(level)
  {
    var segment, step := level / 16, level % 16;
    if step == 15 {
      assert (level + 1) / 16 == segment + 1 && (level + 1) % 16 == 0;
    } else {
      assert (level + 1) / 16 == segment && (level + 1) % 16 == step + 1;
      Distribute(step * 8 + BIAS, 8, Pow2(segment));
      if segment > 1 { Distribute(step * 16 + 0x108, 16, Pow2(segment - 1)); }
    }
  }

  lemma Distribute(a: int, b: int, p: int)
    ensures (a + b) * p == a * p + b * p
  {
  }

  lemma {:induction false} LevelOrder(low: nat, high: nat)
    requires low < high
    ensures UlawLevel(low) < UlawLevel(high)
    ensures AlawLevel(low) < AlawLevel(high)
    decreases high
  {
    hide UlawLevel, AlawLevel, UlawStep, AlawStep;
    LevelSteps(high - 1);
    if low < high - 1 { LevelOrder(low, high - 1); }
  }

  lemma LevelBounds(level: nat)
    requires level < 128
    ensures 0 <= UlawLevel(level) < 0x8000
    ensures 0 < AlawLevel(level) < 0x8000
    ensures UlawLevel(level) == 0 <==> level == 0
  {
    assert UlawLevel(0) == 0 && AlawLevel(0) == 8;
    assert UlawLevel(127) == 32124 && AlawLevel(127) == 32256 by { Powers(); }
    if level > 0 { LevelOrder(0, level); }
    if level < 127 { LevelOrder(level, 127); }
  }

  /** The low seven bits of a byte are its segment and step. */
  lemma LowBits(v: byte)
    ensures v % 128 / 16 == v / 16 % 8 && v % 128 % 16 == v % 16
  {
    if v >= 128 {
      assert v % 128 == v - 128;
      assert (v - 128) / 16 == v / 16 - 8;
    }
  }

  lemma UlawByLevel(u: byte)
    ensures UlawDecode(u) == if u < 0x80 then -UlawLevel((0xFF - u) % 128) else UlawLevel((0xFF - u) % 128)
  {
    hide UlawMagnitude;
    LowBits(0xFF - u);
  }

  /** Distinct mu-law codes decode to distinct samples, except the two zeros 0x7F and 0xFF. */
  lemma UlawCollisions(u: byte, v: byte)
    ensures -0x8000 <= UlawDecode(u) < 0x8000
    ensures UlawDecode(u) == UlawDecode(v) <==> u == v || {u, v} == {0x7F, 0xFF}
  {
    hide UlawLevel, UlawDecode;
    var a, b := (0xFF - u) % 128, (0xFF - v) % 128;
    UlawByLevel(u);
    UlawByLevel(v);
    LevelBounds(a);
    LevelBounds(b);
    if a < b { LevelOrder(a, b); }
    if b < a { LevelOrder(b, a); }
    assert u == (if u < 0x80 then 127 - a else 255 - a) && v == (if v < 0x80 then 127 - b else 255 - b);
    SameZeros(u, v);
  }

  lemma SameZeros(u: byte, v: byte)
    ensures {u, v} == {0x7F, 0xFF} <==> (u == 0x7F && v == 0xFF) || (u == 0xFF && v == 0x7F)
  {
    if {u, v} == {0x7F, 0xFF} {
      assert u in {0x7F, 0xFF} && v in {0x7F, 0xFF} && 0x7F in {u, v} && 0xFF in {u, v};
    }
  }

  lemma FlipNibbleIsInjective(m: int, n: int)
    requires 0 <= m < 16 && 0 <= n < 16
    ensures FlipNibble(m) == FlipNibble(n) <==> m == n
  {
  }

  lemma FlipIsInjective(a: byte, b: byte)
    ensures FlipEvenBits(a) == FlipEvenBits(b) <==> a == b
  {
    hide FlipNibble;
    FlipNibbleIsInjective(a / 16, b / 16);
    FlipNibbleIsInjective(a % 16, b % 16);
    assert a == a / 16 * 16 + a % 16 && b == b / 16 * 16 + b % 16;
  }

  lemma AlawByLevel(a: byte)
    ensures var v := FlipEvenBits(a);
            AlawDecode(a) == if v >= 0x80 then AlawLevel(v % 128) else -AlawLevel(v % 128)
  {
    hide AlawMagnitude, FlipEvenBits;
    LowBits(FlipEvenBits(a));
  }

  /** Bit `k` of a number. */
  function Bit(n: nat, k: nat): nat {
    n / Pow2(k) % 2
  }

  lemma Half(n: nat, d: nat)
    requires d > 0
    ensures n / (2 * d) == n / 2 / d
  {
    var q, r := n / 2 / d, n / 2 % d;
    assert n == (2 * d) * q + (2 * r + n % 2) by {
      assert n / 2 == d * q + r;
      assert (2 * d) * q == 2 * (d * q);
    }
    Quotient(n, 2 * d, q, 2 * r + n % 2);
  }

  /** The quotient is the one number that leaves a remainder below the divisor. */
  lemma Quotient(n: nat, d: nat, q: nat, r: nat)
    requires n == d * q + r && r < d
    ensures n / d == q
  {
    var other := n / d;
    assert n == d * other + n % d;
    assert d * (other - q) == r - n % d by { assert d * (other - q) == d * other - d * q; }
    SmallMultiple(d, other - q);
  }

  lemma SmallMultiple(d: nat, k: int)
    requires -(d as int) < d * k < d
    ensures k == 0
  {
  }

  /** Bits are counted from the end: bit 0 is the parity, and the others are those of the half. */
  lemma BitStep(n: nat, k: nat)
    ensures Bit(n, 0) == n % 2 && Bit(n, k + 1) == Bit(n / 2, k)
  {
    Half(n, Pow2(k));
  }

  lemma FourBits(n: nat)
    ensures Bit(n, 0) == n % 2 && Bit(n, 1) == n / 2 % 2 && Bit(n, 2) == n / 4 % 2 && Bit(n, 3) == n / 8 % 2
    ensures forall k: nat :: Bit(n, k + 4) == Bit(n / 16, k)
  {
    hide Bit;
    var half, quarter, eighth := n / 2, n / 4, n / 8;
    assert half / 2 == quarter && quarter / 2 == eighth && eighth / 2 == n / 16;
    BitStep(n, 0);
    BitStep(half, 0);
    BitStep(quarter, 0);
    BitStep(eighth, 0);
    BitStep(n, 1);
    BitStep(n, 2);
    BitStep(half, 1);
    forall k: nat ensures Bit(n, k + 4) == Bit(n / 16, k) {
      BitStep(n, k + 3);
      BitStep(half, k + 2);
      BitStep(quarter, k + 1);
      BitStep(eighth, k);
    }
  }

  /** The parities of the low half, and the high half, of a byte put together from its halves. */
  lemma HalvesOf(high: int, low: int)
    requires 0 <= high < 16 && 0 <= low < 16
    ensures var n := high * 16 + low;
            && n / 16 == high && n % 2 == low % 2 && n / 2 % 2 == low / 2 % 2
            && n / 4 % 2 == low / 4 % 2 && n / 8 % 2 == low / 8 % 2
  {
    var n := high * 16 + low;
    assert n / 2 == high * 8 + low / 2 && n / 4 == high * 4 + low / 4 && n / 8 == high * 2 + low / 8;
  }

  /** The bits of a byte are those of its two halves. */
  lemma BitsOfByte(high: int, low: int)
    requires 0 <= high < 16 && 0 <= low < 16
    ensures var n := high * 16 + low;
            && Bit(n, 0) == low % 2 && Bit(n, 1) == low / 2 % 2 && Bit(n, 2) == low / 4 % 2 && Bit(n, 3) == low / 8 % 2
            && Bit(n, 4) == high % 2 && Bit(n, 5) == high / 2 % 2 && Bit(n, 6) == high / 4 % 2
            && Bit(n, 7) == high / 8 % 2
  {
    hide Bit;
    var n := high * 16 + low;
    HalvesOf(high, low);
    FourBits(n);
    FourBits(high);
    assert Bit(n, 4) == Bit(n, 0 + 4) && Bit(n, 5) == Bit(n, 1 + 4);
    assert Bit(n, 6) == Bit(n, 2 + 4) && Bit(n, 7) == Bit(n, 3 + 4);
  }

  /** The sixteen nibbles: their bits, and those with bits 0 and 2 flipped. */
  lemma NibbleBits(n: int)
    requires 0 <= n < 16
    ensures n == n % 2 + 2 * (n / 2 % 2) + 4 * (n / 4 % 2) + 8 * (n / 8 % 2)
    ensures FlipNibble(n) % 2 == 1 - n % 2 && FlipNibble(n) / 2 % 2 == n / 2 % 2
    ensures FlipNibble(n) / 4 % 2 == 1 - n / 4 % 2 && FlipNibble(n) / 8 % 2 == n / 8 % 2
  {
    match n
    case 0 =>
    case 1 =>
    case 2 =>
    case 3 =>
    case 4 =>
    case 5 =>
    case 6 =>
    case 7 =>
    case 8 =>
    case 9 =>
    case 10 =>
    case 11 =>
    case 12 =>
    case 13 =>
    case 14 =>
    case _ => assert n == 15;
  }

  /** Exactly the even bits are flipped, as by an exclusive or with 0x55. */
  lemma EvenBitsAreFlipped(a: byte, k: nat)
    requires k < 8
    ensures Bit(FlipEvenBits(a), k) == if k % 2 == 0 then 1 - Bit(a, k) else Bit(a, k)
  {
    hide Bit, FlipNibble;
    var high, low := a / 16, a % 16;
    assert a == high * 16 + low;
    BitsOfByte(high, low);
    BitsOfByte(FlipNibble(high), FlipNibble(low));
    NibbleBits(high);
    NibbleBits(low);
    assert k == 0 || k == 1 || k == 2 || k == 3 || k == 4 || k == 5 || k == 6 || k == 7;
  }

  /** A byte is told by its bits. */
  lemma BitsTell(v: byte, w: byte)
    requires forall k :: 0 <= k < 8 ==> Bit(v, k) == Bit(w, k)
    ensures v == w
  {
    hide Bit, FlipNibble;
    assert Bit(v, 0) == Bit(w, 0) && Bit(v, 1) == Bit(w, 1) && Bit(v, 2) == Bit(w, 2) && Bit(v, 3) == Bit(w, 3);
    assert Bit(v, 4) == Bit(w, 4) && Bit(v, 5) == Bit(w, 5) && Bit(v, 6) == Bit(w, 6) && Bit(v, 7) == Bit(w, 7);
    BitsOfByte(v / 16, v % 16);
    BitsOfByte(w / 16, w % 16);
    NibbleBits(v / 16);
    NibbleBits(v % 16);
    NibbleBits(w / 16);
    NibbleBits(w % 16);
  }

  /** An A-law code is the sign and the number of its level, with the even bits flipped. */
  lemma AlawByBits(a: byte, v: byte)
    requires forall k :: 0 <= k < 8 ==> Bit(v, k) == if k % 2 == 0 then 1 - Bit(a, k) else Bit(a, k)
    ensures AlawDecode(a) == if v >= 0x80 then AlawLevel(v % 128) else -AlawLevel(v % 128)
  {
    hide Bit, FlipEvenBits, AlawLevel, AlawDecode;
    forall k | 0 <= k < 8 ensures Bit(FlipEvenBits(a), k) == Bit(v, k) {
      EvenBitsAreFlipped(a, k);
    }
    BitsTell(FlipEvenBits(a), v);
    AlawByLevel(a);
  }

  /** Decoded samples: the ends of both ladders, silence, and the first code of each sign. */
  lemma KnownSamples()
    ensures AlawDecode(0xD5) == 8 && AlawDecode(0x55) == -8
    ensures AlawDecode(0xAA) == 32256 && AlawDecode(0x2A) == -32256
    ensures UlawDecode(0x80) == 32124 && UlawDecode(0x00) == -32124
    ensures UlawDecode(0xFF) == 0 && UlawDecode(0x7F) == 0
  {
    Powers();
    hide Pow2;
  }

  /** Distinct A-law codes decode to distinct samples. */
  lemma AlawIsInjective(a: byte, b: byte)
    ensures -0x8000 <= AlawDecode(a) < 0x8000
    ensures AlawDecode(a) == AlawDecode(b) <==> a == b
  {
    hide AlawLevel, AlawDecode, FlipEvenBits;
    var v, w := FlipEvenBits(a), FlipEvenBits(b);
    AlawByLevel(a);
    AlawByLevel(b);
    LevelBounds(v % 128);
    LevelBounds(w % 128);
    if v % 128 < w % 128 { LevelOrder(v % 128, w % 128); }
    if w % 128 < v % 128 { LevelOrder(w % 128, v % 128); }
    FlipIsInjective(a, b);
  }

  function UlawTable(): (t: Table)
    ensures forall u: byte :: t[u] == UlawDecode(u)
  {
    forall u: byte ensures -0x8000 <= UlawDecode(u) < 0x8000 { UlawCollisions(u, u); }
    seq(256, i requires 0 <= i < 256 => UlawDecode(i))
  }

  function AlawTable(): (t: Table)
    ensures forall a: byte :: t[a] == AlawDecode(a)
  {
    forall a: byte ensures -0x8000 <= AlawDecode(a) < 0x8000 { AlawIsInjective(a, a); }
    seq(256, i requires 0 <= i < 256 => AlawDecode(i))
  }
}
