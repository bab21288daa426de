/** The portable shifts on two 64-bit halves (include/isolario/u128_t.h). */
module U128Shift {
  import opened U128

  // ---- Products and quotients --------------------------------------------

  lemma Distr(a: int, b: int, c: int)
    ensures (a + b) * c == a * c + b * c
  {
  }

  lemma Swap(a: int, b: int, c: int)
    ensures (a * b) * c == (a * c) * b
  {
  }

  lemma Mono(a: int, b: int, c: nat)
    requires a <= b
    ensures a * c <= b * c
  {
  }

  lemma DivUnique(x: nat, d: nat, q: nat, r: nat)
    requires r < d && x == q * d + r
    ensures x / d == q && x % d == r
  {
    var k := x / d;
    assert x == k * d + x % d;
    if k < q {
      Mono(k + 1, q, d);
      Distr(k, 1, d);
    } else if q < k {
      Mono(q + 1, k, d);
      Distr(q, 1, d);
    }
  }

  /** x * p, cut where p * q cuts it. */
  lemma Recombine(x: nat, p: nat, q: nat, w: nat)
    requires p > 0 && q > 0 && p * q == w
    ensures x * p == (x / q) * w + (x % q) * p && (x % q) * p < w
  {
    var k, r := x / q, x % q;
    assert x == k * q + r;
    Distr(k * q, r, p);
    Swap(k, q, p);
    assert (k * p) * q == k * (p * q);
    Mono(r + 1, q, p);
    Distr(r, 1, p);
  }

  /** A factor of the modulus goes through division and remainder. */
  lemma ScaledDiv(x: nat, p: nat, q: nat, w: nat)
    requires p > 0 && q > 0 && p * q == w > 0
    ensures (x * p) / w == x / q && (x * p) % w == (x % q) * p
  {
    Recombine(x, p, q, w);
    DivUnique(x * p, w, x / q, (x % q) * p);
  }

  // ---- 64-bit words ------------------------------------------------------

  /** x << bits in 64 bits. */
  function Left(x: U64, bits: nat): U64
    requires bits < 64
  {
    x * Pow2(bits) % TWO_64
  }

  /** x >> bits */
  function Right(x: U64, bits: nat): (r: U64)
    requires bits < 64
  {
    RightFits(x, Pow2(bits));
    x / Pow2(bits)
  }

  lemma RightFits(x: nat, p: nat)
    requires p > 0
    ensures 0 <= x / p <= x
  {
    var k := x / p;
    assert x == k * p + x % p;
    Mono(1, p, k);
  }

  /** x | y, where y has bits only below `bits` and x only from there on. */
  function Or(x: U64, y: U64, bits: nat): U64
    requires bits < 64 && x % Pow2(bits) == 0 && y < Pow2(bits)
  {
    OrFits(x, y, bits);
    x + y
  }

  lemma Pow2Of64()
    ensures Pow2(64) == TWO_64
  {
    hide Pow2;
    Pow2Of8();
    Pow2Add(8, 8);
    Pow2Add(16, 16);
    Pow2Add(32, 32);
  }

  /** 2^64 falls into the two shift distances. */
  lemma Halves(bits: nat)
    requires bits <= 64
    ensures Pow2(bits) * Pow2(64 - bits) == TWO_64
  {
    Pow2Of64();
    Pow2Add(bits, 64 - bits);
  }

  lemma OrFits(x: nat, y: nat, bits: nat)
    requires bits < 64 && x < TWO_64 && x % Pow2(bits) == 0 && y < Pow2(bits)
    ensures x + y < TWO_64
  {
    Halves(bits);
    MultipleBelow(x, Pow2(bits), Pow2(64 - bits), TWO_64);
  }

  lemma MultipleBelow(x: nat, p: nat, q: nat, w: nat)
    requires p > 0 && p * q == w && x < w && x % p == 0
    ensures x + p <= w
  {
    var k := x / p;
    assert x == k * p;
    if k >= q {
      Mono(q, k, p);
    } else {
      Mono(k + 1, q, p);
      Distr(k, 1, p);
    }
  }

  lemma LeftIs(x: U64, bits: nat)
    requires 0 < bits < 64
    ensures Left(x, bits) == (x % Pow2(64 - bits)) * Pow2(bits)
    ensures Left(x, bits) % Pow2(bits) == 0
  {
    var p, q := Pow2(bits), Pow2(64 - bits);
    Halves(bits);
    ScaledDiv(x, p, q, TWO_64);
    DivUnique((x % q) * p, p, x % q, 0);
  }

  lemma RightIsSmall(x: U64, bits: nat)
    requires 0 < bits < 64
    ensures Right(x, 64 - bits) < Pow2(bits)
  {
    Halves(bits);
    QuotientBelow(x, Pow2(bits), Pow2(64 - bits), TWO_64);
  }

  lemma QuotientBelow(x: nat, p: nat, q: nat, w: nat)
    requires q > 0 && p * q == w && x < w
    ensures x / q < p
  {
    var k := x / q;
    assert x == k * q + x % q;
    if k >= p {
      Mono(p, k, q);
    }
  }

  // ---- The shifts --------------------------------------------------------

  /** u128shl, portable. A distance of 0 would shift one half by 64, which C
      leaves undefined. */
  function PortableShl(u: U128, bits: int): U128
    requires bits != 0
  {
    if bits < 0 || bits >= 128 then U128(0, 0)
    else if bits < 64 then
      LeftIs(u.upper, bits);
      RightIsSmall(u.lower, bits);
      U128(Or(Left(u.upper, bits), Right(u.lower, 64 - bits), bits), Left(u.lower, bits))
    else U128(Left(u.lower, bits - 64), 0)
  }

  /** u128shr, portable. */
  function PortableShr(u: U128, bits: int): U128
    requires bits != 0
  {
    if bits < 0 || bits >= 128 then U128(0, 0)
    else if bits < 64 then
      LeftIs(u.upper, 64 - bits);
      RightIsSmall(u.lower, 64 - bits);
      U128(Right(u.upper, bits), Or(Left(u.upper, 64 - bits), Right(u.lower, bits), 64 - bits))
    else U128(0, Right(u.upper, bits - 64))
  }

  /** The product of two halves and a power of two, half by half. */
  lemma ShortProduct(upper: nat, lower: nat, p: nat, q: nat, w: nat)
    requires p > 0 && q > 0 && p * q == w
    ensures (upper * w + lower) * p == (upper / q) * (w * w) + ((upper % q) * p + lower / q) * w + (lower % q) * p
  {
    Recombine(upper, p, q, w);
    Recombine(lower, p, q, w);
    Distr(upper * w, lower, p);
    Swap(upper, w, p);
    Distr((upper / q) * w, (upper % q) * p, w);
    assert ((upper / q) * w) * w == (upper / q) * (w * w);
    Distr((upper % q) * p, lower / q, w);
  }

  lemma ShortRemainder(upper: nat, lower: nat, p: nat, q: nat, w: nat, d: nat, v: nat)
    requires p > 0 && q > 0 && p * q == w && d == w * w
    requires v == ((upper % q) * p + lower / q) * w + (lower % q) * p < d
    ensures (upper * w + lower) * p % d == v
  {
    ShortProduct(upper, lower, p, q, w);
    DivUnique((upper * w + lower) * p, d, upper / q, v);
  }

  lemma ShortShl(u: U128, bits: nat)
    requires 0 < bits < 64
    ensures u.Val() * Pow2(bits) % TWO_128 == PortableShl(u, bits).Val()
  {
    var p, q := Pow2(bits), Pow2(64 - bits);
    Halves(bits);
    LeftIs(u.upper, bits);
    LeftIs(u.lower, bits);
    RightIsSmall(u.lower, bits);
    ShortRemainder(u.upper, u.lower, p, q, TWO_64, TWO_128, PortableShl(u, bits).Val());
  }

  lemma LongProduct(upper: nat, lower: nat, p: nat, w: nat)
    requires w > 0
    ensures (upper * w + lower) * (w * p) == (upper * p + (lower * p) / w) * (w * w) + ((lower * p) % w) * w
  {
    var k, r := (lower * p) / w, (lower * p) % w;
    assert lower * p == k * w + r;
    Distr(upper * w, lower, w * p);
    assert (upper * w) * (w * p) == (upper * p) * (w * w);
    assert lower * (w * p) == (lower * p) * w;
    Distr(k * w, r, w);
    assert (k * w) * w == k * (w * w);
    Distr(upper * p, k, w * w);
  }

  lemma LongShl(u: U128, bits: nat)
    requires 64 <= bits < 128
    ensures u.Val() * Pow2(bits) % TWO_128 == PortableShl(u, bits).Val()
  {
    var p := Pow2(bits - 64);
    Pow2Of64();
    Pow2Add(64, bits - 64);
    var lower: nat := u.lower;
    LongProduct(u.upper, lower, p, TWO_64);
    DivUnique(u.Val() * Pow2(bits), TWO_128, u.upper * p + (lower * p) / TWO_64, ((lower * p) % TWO_64) * TWO_64);
  }

  /** The portable left shift multiplies modulo 2^128. */
  lemma ShlIsModular(u: U128, bits: nat)
    requires 0 < bits < 128
    ensures PortableShl(u, bits) == Shl(u, bits)
  {
    if bits < 64 {
      ShortShl(u, bits);
    } else {
      LongShl(u, bits);
    }
    SameVal(PortableShl(u, bits), Shl(u, bits));
  }

  lemma ShortQuotient(upper: nat, lower: nat, p: nat, q: nat, w: nat)
    requires p > 0 && p * q == w
    ensures upper * w + lower == ((upper / p) * w + ((upper % p) * q + lower / p)) * p + lower % p
  {
    var k, r := upper / p, upper % p;
    assert upper == k * p + r;
    Distr(k * p, r, w);
    Swap(k, p, w);
    assert (r * q) * p == r * w;
    Distr(k * w, r * q + lower / p, p);
    Distr(r * q, lower / p, p);
  }

  lemma ShortShr(u: U128, bits: nat)
    requires 0 < bits < 64
    ensures PortableShr(u, bits).Val() == u.Val() / Pow2(bits)
  {
    var p, q := Pow2(bits), Pow2(64 - bits);
    Halves(bits);
    LeftIs(u.upper, 64 - bits);
    RightIsSmall(u.lower, 64 - bits);
    ShortQuotient(u.upper, u.lower, p, q, TWO_64);
    DivUnique(u.Val(), p, PortableShr(u, bits).Val(), u.lower % p);
  }

  lemma LongQuotient(upper: nat, lower: nat, p: nat, w: nat)
    requires p > 0 && lower < w
    ensures upper * w + lower == (upper / p) * (w * p) + ((upper % p) * w + lower)
    ensures (upper % p) * w + lower < w * p
  {
    var k, r := upper / p, upper % p;
    assert upper == k * p + r;
    Distr(k * p, r, w);
    assert (k * p) * w == k * (w * p);
    Mono(r + 1, p, w);
    Distr(r, 1, w);
  }

  /** Dividing two halves by w * p drops the lower half. */
  lemma HighQuotient(upper: nat, lower: nat, p: nat, w: nat, d: nat)
    requires p > 0 && lower < w && d == w * p > 0
    ensures (upper * w + lower) / d == upper / p
  {
    LongQuotient(upper, lower, p, w);
    DivUnique(upper * w + lower, d, upper / p, (upper % p) * w + lower);
  }

  lemma LongShr(u: U128, bits: nat)
    requires 64 <= bits < 128
    ensures PortableShr(u, bits).Val() == u.Val() / Pow2(bits)
  {
    Pow2Of64();
    Pow2Add(64, bits - 64);
    HighQuotient(u.upper, u.lower, Pow2(bits - 64), TWO_64, Pow2(bits));
  }

  /** The portable right shift divides, rounding down. */
  lemma ShrIsDivision(u: U128, bits: nat)
    requires 0 < bits < 128
    ensures PortableShr(u, bits).Val() == u.Val() / Pow2(bits)
  {
    if bits < 64 {
      ShortShr(u, bits);
    } else {
      LongShr(u, bits);
    }
  }

  /** Shifting up and down again keeps the bits that stayed in. */
  lemma ShlThenShr(u: U128, bits: nat)
    requires 0 < bits < 128
    ensures PortableShr(PortableShl(u, bits), bits).Val() == u.Val() % Pow2(128 - bits)
  {
    ShlIsModular(u, bits);
    ShrIsDivision(PortableShl(u, bits), bits);
    Pow2Of128();
    Pow2Add(bits, 128 - bits);
    var p, q := Pow2(bits), Pow2(128 - bits);
    ScaledDiv(u.Val(), p, q, TWO_128);
    DivUnique((u.Val() % q) * p, p, u.Val() % q, 0);
  }
}
