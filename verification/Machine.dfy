/** The i386 data model every other module shares: machine integers, the error
  * codes of status.h, bitwise operators on unsigned words, and little-endian
  * loads and stores on byte memory.
  */
module Machine {
  const TWO_32 := 0x1_0000_0000

  type uint8 = x: int | 0 <= x < 0x100
  type uint16 = x: int | 0 <= x < 0x1_0000
  type uint32 = x: int | 0 <= x < TWO_32
  type int32 = x: int | -0x8000_0000 <= x < 0x8000_0000

  type Bytes = seq<uint8>

  // status.h
  const FREE95_ALL_OK := 0
  const EIO := 1
  const EINVARG := 2
  const ENOMEM := 3

  const NEWLINE: uint8 := 10

  /** isdigit of string.c. */
  predicate IsDigit(c: uint8) {
    48 <= c <= 57
  }

  /** Conversion to `uint32_t`. */
  function U32(x: int): uint32 {
    x % TWO_32
  }

  /** Conversion to `int`, two's complement. */
  function I32(x: int): int32 {
    if x % TWO_32 < 0x8000_0000 then x % TWO_32 else x % TWO_32 - TWO_32
  }

  /** Both conversions keep the value modulo 2^32. */
  lemma ConversionsWrap(x: int)
    ensures (U32(x) - x) % TWO_32 == 0 && (I32(x) - x) % TWO_32 == 0
  {
    var q := x / TWO_32;
    assert x == q * TWO_32 + U32(x);
    assert U32(x) - x == -q * TWO_32;
    assert I32(x) - x == -q * TWO_32 || I32(x) - x == (-q - 1) * TWO_32;
  }

  function Pow2(k: nat): (p: nat)
    ensures p >= 1
  {
    if k == 0 then 1 else 2 * Pow2(k - 1)
  }

  // ----- division by a variable -----

  lemma {:induction false} MulAtLeast(d: int, m: int)
    requires d >= 1 && m > 0
    ensures d * m >= m
    decreases d
  {
    if d > 1 {
      MulAtLeast(d - 1, m);
      assert d * m == (d - 1) * m + m;
    }
  }

  lemma NoMultipleBetween(d: int, m: int)
    requires m > 0 && -m < d * m < m
    ensures d == 0
  {
    if d >= 1 {
      MulAtLeast(d, m);
    } else if d <= -1 {
      MulAtLeast(-d, m);
    }
  }

  /** Quotient and remainder are unique. */
  lemma DivUnique(x: int, m: nat, q: int, r: int)
    requires 0 <= r < m && x == q * m + r
    ensures x / m == q && x % m == r
  {
    var q', r' := x / m, x % m;
    assert x == q' * m + r';
    assert (q - q') * m == r' - r;
    NoMultipleBetween(q - q', m);
  }

  /** x / m and x % m by repeated subtraction: for divisors that are variables,
    * where the solver does better without division. */
  function Quot(x: nat, m: nat): nat
    requires m > 0
  {
    if x < m then 0 else 1 + Quot(x - m, m)
  }

  function Rem(x: nat, m: nat): (r: nat)
    requires m > 0
    ensures r < m
  {
    if x < m then x else Rem(x - m, m)
  }

  lemma {:induction false} QuotRem(x: nat, m: nat)
    requires m > 0
    ensures x == Quot(x, m) * m + Rem(x, m)
  {
    if x >= m {
      QuotRem(x - m, m);
      assert Quot(x, m) * m == Quot(x - m, m) * m + m;
    }
  }

  lemma QuotIsDiv(x: nat, m: nat)
    requires m > 0
    ensures Quot(x, m) == x / m && Rem(x, m) == x % m
  {
    QuotRem(x, m);
    DivUnique(x, m, Quot(x, m), Rem(x, m));
  }

  lemma QuotUnique(x: nat, m: nat, q: nat, r: nat)
    requires r < m && x == q * m + r
    ensures Quot(x, m) == q && Rem(x, m) == r
  {
    DivUnique(x, m, q, r);
    QuotIsDiv(x, m);
  }

  lemma QuotAdd(q: nat, b: nat, m: nat)
    requires m > 0
    ensures q * m >= 0 && Quot(q * m + b, m) == q + Quot(b, m) && Rem(q * m + b, m) == Rem(b, m)
  {
    QuotRem(b, m);
    assert q * m + b == (q + Quot(b, m)) * m + Rem(b, m);
    QuotUnique(q * m + b, m, q + Quot(b, m), Rem(b, m));
  }

  // ----- bits -----

  /** The `|` operator, bit by bit. */
  function BitOr(a: nat, b: nat): nat
    decreases a + b
  {
    if a == 0 && b == 0 then 0
    else (if a % 2 == 1 || b % 2 == 1 then 1 else 0) + 2 * BitOr(a / 2, b / 2)
  }

  /** The `&` operator, bit by bit. */
  function BitAnd(a: nat, b: nat): nat
    decreases a + b
  {
    if a == 0 && b == 0 then 0
    else (if a % 2 == 1 && b % 2 == 1 then 1 else 0) + 2 * BitAnd(a / 2, b / 2)
  }

  /** Bit k of a, counted from the lowest one. */
  predicate Bit(a: nat, k: nat)
    decreases k
  {
    if k == 0 then a % 2 == 1 else Bit(a / 2, k - 1)
  }

  lemma {:induction false} NoBits(k: nat)
    ensures !Bit(0, k)
  {
    if k > 0 {
      NoBits(k - 1);
    }
  }

  /** The bits of `a | b` are those set in a or in b ... */
  lemma {:induction false} BitOrBits(a: nat, b: nat, k: nat)
    ensures Bit(BitOr(a, b), k) <==> Bit(a, k) || Bit(b, k)
    decreases k
  {
    if a == 0 && b == 0 {
      NoBits(k);
    } else if k > 0 {
      BitOrBits(a / 2, b / 2, k - 1);
    }
  }

  /** ... and those of `a & b` the ones set in both. */
  lemma {:induction false} BitAndBits(a: nat, b: nat, k: nat)
    ensures Bit(BitAnd(a, b), k) <==> Bit(a, k) && Bit(b, k)
    decreases k
  {
    if a == 0 && b == 0 {
      NoBits(k);
    } else if k > 0 {
      BitAndBits(a / 2, b / 2, k - 1);
    }
  }

  /** The lowest j bits of a value, and the bits above them. */
  lemma {:induction false} BitSplit(x: nat, b: nat, j: nat, k: nat)
    requires b < Pow2(j)
    ensures x * Pow2(j) >= 0
    ensures Bit(x * Pow2(j) + b, k) <==> if k < j then Bit(b, k) else Bit(x, k - j)
    decreases j
  {
    if j > 0 {
      var half := x * Pow2(j - 1);
      assert x * Pow2(j) == 2 * half;
      assert (2 * half + b) / 2 == half + b / 2 && (2 * half + b) % 2 == b % 2;
      if k > 0 {
        BitSplit(x, b / 2, j - 1, k - 1);
      }
    }
  }

  lemma {:induction false} BitOrZero(a: nat)
    ensures BitOr(a, 0) == a
    decreases a
  {
    if a != 0 {
      BitOrZero(a / 2);
    }
  }

  lemma {:induction false} BitOrZeroLeft(a: nat)
    ensures BitOr(0, a) == a
    decreases a
  {
    if a != 0 {
      BitOrZeroLeft(a / 2);
    }
  }

  /** Or-ing a value below 2^k leaves the bits from k on alone. */
  lemma {:induction false} BitOrLow(q: nat, a: nat, b: nat, k: nat)
    requires a < Pow2(k) && b < Pow2(k)
    ensures q * Pow2(k) >= 0
    ensures BitOr(q * Pow2(k) + a, b) == q * Pow2(k) + BitOr(a, b)
    decreases k
  {
    if k == 0 {
      BitOrZero(q);
    } else {
      var half := q * Pow2(k - 1);
      assert q * Pow2(k) == 2 * half;
      assert (2 * half + a) / 2 == half + a / 2 && (2 * half + a) % 2 == a % 2;
      BitOrLow(q, a / 2, b / 2, k - 1);
    }
  }

  lemma {:induction false} BitOrBound(a: nat, b: nat, k: nat)
    requires a < Pow2(k) && b < Pow2(k)
    ensures BitOr(a, b) < Pow2(k)
    decreases k
  {
    if k > 0 {
      BitOrBound(a / 2, b / 2, k - 1);
    }
  }

  /** And-ing with 2^k - 1 keeps a value that has no higher bits. */
  lemma {:induction false} BitAndOnes(a: nat, k: nat)
    requires a < Pow2(k)
    ensures BitAnd(a, Pow2(k) - 1) == a
    decreases k
  {
    if k == 0 {
      assert a == 0;
    } else {
      assert (Pow2(k) - 1) / 2 == Pow2(k - 1) - 1;
      BitAndOnes(a / 2, k - 1);
    }
  }

  lemma BitAndEven(a: nat, m: nat)
    ensures BitAnd(a, 2 * m) == 2 * BitAnd(a / 2, m)
  {
    if a == 0 && m == 0 {
      assert BitAnd(0, 0) == 0;
    }
  }

  lemma BitAndQuad(a: nat, m: nat)
    ensures BitAnd(a, 4 * m) == 4 * BitAnd(a / 4, m)
  {
    BitAndEven(a, 2 * m);
    BitAndEven(a / 2, m);
    assert a / 2 / 2 == a / 4;
  }

  lemma BitAndNibble(a: nat, m: nat)
    ensures BitAnd(a, 16 * m) == 16 * BitAnd(a / 16, m)
  {
    BitAndQuad(a, 4 * m);
    BitAndQuad(a / 4, m);
    assert a / 4 / 4 == a / 16;
  }

  lemma BitAndAbove12(a: nat, m: nat)
    ensures BitAnd(a, 4096 * m) == 4096 * BitAnd(a / 4096, m)
  {
    var b := a / 16;
    var c := b / 16;
    var n := 16 * m;
    BitAndNibble(c, m);
    BitAndNibble(b, n);
    BitAndNibble(a, 16 * n);
    assert c / 16 == a / 4096;
  }

  lemma Pow2Of8()
    ensures Pow2(8) == 256
  {
    assert Pow2(4) == 16;
  }

  lemma Pow2Of16()
    ensures Pow2(12) == 0x1000 && Pow2(16) == 0x1_0000
  {
    Pow2Of8();
    assert Pow2(12) == 4096;
  }

  lemma Pow2Values()
    ensures Pow2(12) == 4096 && Pow2(20) == 0x10_0000 && Pow2(32) == TWO_32
  {
    assert Pow2(4) == 16;
    assert Pow2(8) == 256;
    assert Pow2(12) == 4096;
    assert Pow2(16) == 0x1_0000;
    assert Pow2(20) == 0x10_0000;
    assert Pow2(24) == 0x100_0000;
    assert Pow2(28) == 0x1000_0000;
  }

  /** `x & 0xfffff000` clears the low 12 bits and nothing else. */
  lemma BitAndPageMask(x: uint32)
    ensures BitAnd(x, 0xffff_f000) == x - x % 4096
  {
    BitAndAbove12(x, 0xf_ffff);
    Pow2Values();
    BitAndOnes(x / 4096, 20);
  }

  function Load16(m: Bytes, a: nat): uint16
    requires a + 2 <= |m|
  {
    m[a] as int + 0x100 * m[a + 1] as int
  }

  function Load32(m: Bytes, a: nat): uint32
    requires a + 4 <= |m|
  {
    m[a] as int + 0x100 * m[a + 1] as int + 0x1_0000 * m[a + 2] as int + 0x100_0000 * m[a + 3] as int
  }

  function Store16(m: Bytes, a: nat, v: uint16): (m': Bytes)
    requires a + 2 <= |m|
    ensures |m'| == |m|
  {
    m[a := v % 0x100][a + 1 := v / 0x100]
  }

  function Store32(m: Bytes, a: nat, v: uint32): (m': Bytes)
    requires a + 4 <= |m|
    ensures |m'| == |m|
  {
    m[a := v % 0x100][a + 1 := v / 0x100 % 0x100][a + 2 := v / 0x1_0000 % 0x100][a + 3 := v / 0x100_0000]
  }

  lemma ByteBits(low: uint8, rest: nat, k: nat)
    ensures Bit(low + 0x100 * rest, k) <==> if k < 8 then Bit(low, k) else Bit(rest, k - 8)
  {
    Pow2Of8();
    BitSplit(rest, low, 8, k);
    assert rest * Pow2(8) == 0x100 * rest;
  }

  /** Words are little-endian: byte i has the bits from 8 * i on. */
  lemma LoadBits16(m: Bytes, a: nat, i: nat, k: nat)
    requires a + 2 <= |m| && i < 2 && k < 8
    ensures Bit(Load16(m, a), 8 * i + k) <==> Bit(m[a + i], k)
  {
    ByteBits(m[a], m[a + 1], 8 * i + k);
  }

  lemma LoadBits32(m: Bytes, a: nat, i: nat, k: nat)
    requires a + 4 <= |m| && i < 4 && k < 8
    ensures Bit(Load32(m, a), 8 * i + k) <==> Bit(m[a + i], k)
  {
    var b0: int, b1: int, b2: int, b3: int := m[a], m[a + 1], m[a + 2], m[a + 3];
    var x := b1 + 0x100 * b2 + 0x1_0000 * b3;
    assert x == b1 + 0x100 * (b2 + 0x100 * b3) && Load32(m, a) == b0 + 0x100 * x;
    ByteBits(b0, x, 8 * i + k);
    if i > 0 {
      ByteBits(b1, b2 + 0x100 * b3, 8 * (i - 1) + k);
    }
    if i > 1 {
      ByteBits(b2, b3, 8 * (i - 2) + k);
    }
  }

  /** A load returns what the last store to its address wrote. */
  lemma LoadStore32(m: Bytes, a: nat, v: uint32)
    requires a + 4 <= |m|
    ensures Load32(Store32(m, a, v), a) == v
  {
    assert v / 0x100 / 0x100 == v / 0x1_0000;
    assert v / 0x1_0000 / 0x100 == v / 0x100_0000;
  }

  /** A store leaves loads from elsewhere alone. */
  lemma LoadFrame32(m: Bytes, a: nat, v: uint32, b: nat)
    requires a + 4 <= |m| && b + 4 <= |m| && (a + 4 <= b || b + 4 <= a)
    ensures Load32(Store32(m, a, v), b) == Load32(m, b)
  {
  }

  /** In-place store of a 32-bit word. */
  method Write32(mem: array<uint8>, a: nat, v: uint32)
    requires a + 4 <= mem.Length
    modifies mem
    ensures mem[..] == Store32(old(mem[..]), a, v)
  {
    mem[a] := v % 0x100;
    mem[a + 1] := v / 0x100 % 0x100;
    mem[a + 2] := v / 0x1_0000 % 0x100;
    mem[a + 3] := v / 0x100_0000;
  }

  method Write16(mem: array<uint8>, a: nat, v: uint16)
    requires a + 2 <= mem.Length
    modifies mem
    ensures mem[..] == Store16(old(mem[..]), a, v)
  {
    mem[a] := v % 0x100;
    mem[a + 1] := v / 0x100;
  }

  method Read32(mem: array<uint8>, a: nat) returns (v: uint32)
    requires a + 4 <= mem.Length
    ensures v == Load32(mem[..], a)
  {
    v := mem[a] as int + 0x100 * mem[a + 1] as int + 0x1_0000 * mem[a + 2] as int + 0x100_0000 * mem[a + 3] as int;
  }

  method Read16(mem: array<uint8>, a: nat) returns (v: uint16)
    requires a + 2 <= mem.Length
    ensures v == Load16(mem[..], a)
  {
    v := mem[a] as int + 0x100 * mem[a + 1] as int;
  }

  // ----- fields of any width -----

  /** 256^w */
  function Top(w: nat): (t: nat)
    ensures t > 0
  {
    if w == 0 then 1 else 0x100 * Top(w - 1)
  }

  /** The little-endian value of w bytes. */
  function Get(m: Bytes, a: nat, w: nat): (v: nat)
    requires a + w <= |m|
    ensures v < Top(w)
    decreases w
  {
    if w == 0 then 0 else m[a] as int + 0x100 * Get(m, a + 1, w - 1)
  }

  /** m with w bytes replaced by a value's. */
  function Put(m: Bytes, a: nat, w: nat, v: nat): (m': Bytes)
    requires a + w <= |m|
    ensures |m'| == |m|
    decreases w
  {
    if w == 0 then m else Put(m[a := v % 0x100], a + 1, w - 1, v / 0x100)
  }

  lemma Tops()
    ensures Top(2) == 0x1_0000 && Top(4) == TWO_32
  {
    assert Top(1) == 0x100 && Top(3) == 0x100_0000;
  }

  lemma GetIsLoad(m: Bytes, a: nat)
    ensures a + 2 <= |m| ==> Get(m, a, 2) == Load16(m, a)
    ensures a + 4 <= |m| ==> Get(m, a, 4) == Load32(m, a)
  {
    if a + 2 <= |m| {
      assert Get(m, a + 1, 1) == m[a + 1];
    }
    if a + 4 <= |m| {
      assert Get(m, a + 3, 1) == m[a + 3];
      assert Get(m, a + 2, 2) == m[a + 2] as int + 0x100 * m[a + 3] as int;
      assert Get(m, a + 1, 3) == m[a + 1] as int + 0x100 * m[a + 2] as int + 0x1_0000 * m[a + 3] as int;
    }
  }

  lemma PutIsStore16(m: Bytes, a: nat, v: uint16)
    requires a + 2 <= |m|
    ensures Put(m, a, 2, v) == Store16(m, a, v)
  {
    assert Put(m[a := v % 0x100], a + 1, 1, v / 0x100) == m[a := v % 0x100][a + 1 := v / 0x100];
  }

  lemma PutIsStore32(m: Bytes, a: nat, v: uint32)
    requires a + 4 <= |m|
    ensures Put(m, a, 4, v) == Store32(m, a, v)
  {
    var m1 := m[a := v % 0x100];
    var m2 := m1[a + 1 := v / 0x100 % 0x100];
    var m3 := m2[a + 2 := v / 0x1_0000 % 0x100];
    assert v / 0x100 / 0x100 == v / 0x1_0000 && v / 0x1_0000 / 0x100 == v / 0x100_0000;
    assert Put(m3, a + 3, 1, v / 0x100_0000) == m3[a + 3 := v / 0x100_0000];
    assert Put(m2, a + 2, 2, v / 0x1_0000) == Put(m3, a + 3, 1, v / 0x100_0000);
    assert Put(m1, a + 1, 3, v / 0x100) == Put(m2, a + 2, 2, v / 0x1_0000);
  }

  lemma {:induction false} PutFrame(m: Bytes, a: nat, w: nat, v: nat, j: nat)
    requires a + w <= |m| && j < |m| && !(a <= j < a + w)
    ensures Put(m, a, w, v)[j] == m[j]
    decreases w
  {
    if w > 0 {
      PutFrame(m[a := v % 0x100], a + 1, w - 1, v / 0x100, j);
    }
  }

  /** Reading back what was written. */
  lemma {:induction false} GetPut(m: Bytes, a: nat, w: nat, v: nat)
    requires a + w <= |m| && v < Top(w)
    ensures Get(Put(m, a, w, v), a, w) == v
    decreases w
  {
    if w > 0 {
      GetPut(m[a := v % 0x100], a + 1, w - 1, v / 0x100);
      PutFrame(m[a := v % 0x100], a + 1, w - 1, v / 0x100, a);
    }
  }

  lemma {:induction false} GetAgrees(m: Bytes, m': Bytes, a: nat, w: nat)
    requires a + w <= |m| && a + w <= |m'| && forall j :: a <= j < a + w ==> m[j] == m'[j]
    ensures Get(m, a, w) == Get(m', a, w)
    decreases w
  {
    if w > 0 {
      GetAgrees(m, m', a + 1, w - 1);
    }
  }

  lemma LowDigit(x: uint8, h: int, y: uint8, h': int)
    requires x + 0x100 * h == y + 0x100 * h'
    ensures x == y && h == h'
  {
  }

  /** A field's value determines its bytes. */
  lemma {:induction false} BytesOfField(m: Bytes, m': Bytes, a: nat, w: nat, j: nat)
    requires a + w <= |m| && a + w <= |m'| && Get(m, a, w) == Get(m', a, w) && a <= j < a + w
    ensures m[j] == m'[j]
    decreases w
  {
    LowDigit(m[a], Get(m, a + 1, w - 1), m'[a], Get(m', a + 1, w - 1));
    if j > a {
      BytesOfField(m, m', a + 1, w - 1, j);
    }
  }
}
