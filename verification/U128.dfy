/** 128-bit unsigned integers (include/isolario/u128_t.h, src/u128_t.c): the
    portable form on two 64-bit halves, against arithmetic modulo 2^128. */
module U128 {

  const TWO_32: nat := 0x1_0000_0000
  const TWO_64: nat := 0x1_0000_0000_0000_0000
  const TWO_128: nat := 0x1_0000_0000_0000_0000_0000_0000_0000_0000

  type U64 = x: int | 0 <= x < TWO_64

  datatype U128 = U128(upper: U64, lower: U64) {
    /** The number represented. */
    function Val(): (v: nat)
      ensures v < TWO_128
    {
      upper * TWO_64 + lower
    }
  }

  /** Every number below 2^128 has one representation. */
  function FromVal(v: nat): (u: U128)
    requires v < TWO_128
    ensures u.Val() == v
  {
    U128(v / TWO_64, v % TWO_64)
  }

  lemma SameVal(a: U128, b: U128)
    requires a.Val() == b.Val()
    ensures a == b
  {
  }

  /** u128add, portable: the carry shows as a wrapped low half. */
  function Add(a: U128, b: U128): U128 {
    var t: U64 := (a.lower + b.lower) % TWO_64;
    U128((a.upper + (b.upper + (if t < a.lower then 1 else 0)) % TWO_64) % TWO_64, t)
  }

  lemma AddIsModular(a: U128, b: U128)
    ensures Add(a, b).Val() == (a.Val() + b.Val()) % TWO_128
  {
    var sum := a.lower + b.lower;
    var c := if sum < TWO_64 then 0 else 1;
    var up := a.upper + b.upper + c;
    assert sum % TWO_64 == sum - c * TWO_64;
    assert Add(a, b).lower == sum - c * TWO_64 && (Add(a, b).lower < a.lower <==> c == 1);
    var d := if up < TWO_64 then 0 else 1;
    assert Add(a, b).upper == up - d * TWO_64;
    assert a.Val() + b.Val() == Add(a, b).Val() + d * TWO_128;
  }

  /** u128neg, as the compiler supplied type computes it. */
  function Neg(u: U128): U128 {
    var up := if u.lower == 0 then 0 else 1;
    U128((TWO_64 - u.upper - up) % TWO_64, (TWO_64 - u.lower) % TWO_64)
  }

  lemma NegHalves(u: U128)
    ensures u.Val() == 0 ==> Neg(u).Val() == 0
    ensures u.Val() != 0 ==> Neg(u).Val() == TWO_128 - u.Val()
  {
    if u.lower == 0 {
      assert (TWO_64 - u.lower) % TWO_64 == 0;
      assert u.upper != 0 ==> (TWO_64 - u.upper) % TWO_64 == TWO_64 - u.upper;
    } else {
      assert (TWO_64 - u.lower) % TWO_64 == TWO_64 - u.lower;
      assert (TWO_64 - u.upper - 1) % TWO_64 == TWO_64 - u.upper - 1;
    }
  }

  lemma NegIsModular(u: U128)
    ensures Neg(u).Val() == (TWO_128 - u.Val()) % TWO_128
    ensures Add(u, Neg(u)) == U128(0, 0)
  {
    hide Add, Neg;
    NegHalves(u);
    AddIsModular(u, Neg(u));
    SameVal(Add(u, Neg(u)), U128(0, 0));
  }

  // ---- Shifts -------------------------------------------------------------------

  function Pow2(n: nat): (p: nat)
    ensures p > 0
  {
    if n == 0 then 1 else 2 * Pow2(n - 1)
  }

  lemma Pow2Of8()
    ensures Pow2(8) == 0x100
  {
  }

  lemma Pow2Of128()
    ensures Pow2(128) == TWO_128
  {
    hide Pow2;
    Pow2Of8();
    Pow2Add(8, 8);
    Pow2Add(16, 16);
    Pow2Add(32, 32);
    Pow2Add(64, 64);
  }

  lemma {:induction false} Pow2Add(m: nat, n: nat)
    ensures Pow2(m + n) == Pow2(m) * Pow2(n)
  {
    if n > 0 {
      Pow2Add(m, n - 1);
    }
  }

  /** u128shl, as the compiler supplied type computes it. */
  function Shl(u: U128, bits: nat): (r: U128)
    requires bits < 128
    ensures r.Val() == u.Val() * Pow2(bits) % TWO_128
  {
    FromVal(u.Val() * Pow2(bits) % TWO_128)
  }

  /** u128cmp, portable. */
  function Cmp(a: U128, b: U128): int {
    if a.upper != b.upper then
      (if a.upper > b.upper then 1 else 0) - (if a.upper < b.upper then 1 else 0)
    else
      (if a.lower > b.lower then 1 else 0) - (if a.lower < b.lower then 1 else 0)
  }

  lemma CmpIsOrder(a: U128, b: U128)
    ensures Cmp(a, b) > 0 <==> a.Val() > b.Val()
    ensures Cmp(a, b) < 0 <==> a.Val() < b.Val()
    ensures Cmp(a, b) == 0 <==> a == b
  {
    if a.upper < b.upper { assert (a.upper + 1) * TWO_64 <= b.upper * TWO_64; }
    if b.upper < a.upper { assert (b.upper + 1) * TWO_64 <= a.upper * TWO_64; }
  }

  // ---- Multiplication ---------------------------------------------------------

  function Lo(p: nat): (r: nat)
    ensures r < TWO_32
  {
    p % TWO_32
  }

  function Hi(p: nat): nat {
    p / TWO_32
  }

  type Digit = x: int | 0 <= x < TWO_32

  /** Four 32-bit digits, most significant first. */
  function Split(u: U128): (s: seq<Digit>)
    ensures |s| == 4
    ensures u.Val() == FromDigits(s[3], s[2], s[1], s[0])
  {
    [u.upper / TWO_32, u.upper % TWO_32, u.lower / TWO_32, u.lower % TWO_32]
  }

  /** The number with the given 32-bit digits, least significant first. */
  ghost function FromDigits(d0: int, d1: int, d2: int, d3: int): int {
    d0 + d1 * TWO_32 + d2 * TWO_64 + d3 * (TWO_64 * TWO_32)
  }

  function DigitMul(x: Digit, y: Digit): U64 {
    DigitMulBound(x, y);
    x * y
  }

  lemma DigitMulBound(x: Digit, y: Digit)
    ensures 0 <= x * y < TWO_64
  {
    MulMonotone(x, y, TWO_32 - 1);
    assert x * (TWO_32 - 1) <= (TWO_32 - 1) * (TWO_32 - 1);
  }

  lemma MulMonotone(x: nat, y: nat, z: nat)
    requires y <= z
    ensures 0 <= x * y <= x * z
  {
  }

  /** The part of the product that fits, from the digit products p[i][j] of
      a's digit i and b's digit j, counting from the least significant. */
  ghost function LowSum(p00: int, p01: int, p10: int, p02: int, p11: int, p20: int,
                        p03: int, p12: int, p21: int, p30: int): int {
    FromDigits(p00, p01 + p10, p02 + p11 + p20, p03 + p12 + p21 + p30)
  }

  /** Adding up low and high halves in the accumulators loses only multiples of 2^128. */
  lemma Accumulated(p00: nat, p01: nat, p10: nat, p02: nat, p11: nat, p20: nat,
                    p03: nat, p12: nat, p21: nat, p30: nat)
    ensures var fourth := Lo(p00);
            var third := Lo(p01) + Hi(p00) + Lo(p10);
            var second := Lo(p02) + Hi(p01) + Lo(p11) + Hi(p10) + Lo(p20);
            var first := Lo(p03) + Hi(p02) + Lo(p12) + Hi(p11) + Lo(p21) + Hi(p20) + Lo(p30);
            LowSum(p00, p01, p10, p02, p11, p20, p03, p12, p21, p30)
              == FromDigits(fourth, third, second, first)
                 + TWO_128 * (Hi(p03) + Hi(p12) + Hi(p21) + Hi(p30))
  {
    assert p00 == Lo(p00) + TWO_32 * Hi(p00) && p01 == Lo(p01) + TWO_32 * Hi(p01);
    assert p10 == Lo(p10) + TWO_32 * Hi(p10) && p02 == Lo(p02) + TWO_32 * Hi(p02);
    assert p11 == Lo(p11) + TWO_32 * Hi(p11) && p20 == Lo(p20) + TWO_32 * Hi(p20);
    assert p03 == Lo(p03) + TWO_32 * Hi(p03) && p12 == Lo(p12) + TWO_32 * Hi(p12);
    assert p21 == Lo(p21) + TWO_32 * Hi(p21) && p30 == Lo(p30) + TWO_32 * Hi(p30);
  }

  /** Lines 143-169: the rows added with carries, then the four accumulators. */
  method Accumulate(products: array2<U64>) returns (r: U128)
    requires products.Length0 == products.Length1 == 4
    ensures r.Val() == LowSum(products[0, 3], products[0, 2], products[1, 3],
                              products[0, 1], products[1, 2], products[2, 3],
                              products[0, 0], products[1, 1], products[2, 2], products[3, 3]) % TWO_128
  {
    var fourth32: U64 := Lo(products[0, 3]);
    var third32: U64 := Lo(products[0, 2]) + Hi(products[0, 3]);
    var second32: U64 := Lo(products[0, 1]) + Hi(products[0, 2]);
    var first32: U64 := Lo(products[0, 0]) + Hi(products[0, 1]);

    third32 := third32 + Lo(products[1, 3]);
    second32 := second32 + Lo(products[1, 2]) + Hi(products[1, 3]);
    first32 := first32 + Lo(products[1, 1]) + Hi(products[1, 2]);

    second32 := second32 + Lo(products[2, 3]);
    first32 := first32 + Lo(products[2, 2]) + Hi(products[2, 3]);

    first32 := first32 + Lo(products[3, 3]);

    Accumulated(products[0, 3], products[0, 2], products[1, 3], products[0, 1], products[1, 2],
                products[2, 3], products[0, 0], products[1, 1], products[2, 2], products[3, 3]);
    r := Combine(first32, second32, third32, fourth32);
    ModMultiple(FromDigits(fourth32, third32, second32, first32),
                Hi(products[0, 0]) + Hi(products[1, 1]) + Hi(products[2, 2]) + Hi(products[3, 3]));
  }

  lemma ModMultiple(x: int, k: int)
    ensures (x + TWO_128 * k) % TWO_128 == x % TWO_128
  {
    var q := x / TWO_128;
    assert x + TWO_128 * k == (q + k) * TWO_128 + x % TWO_128;
    ModUnique(x + TWO_128 * k, q + k, x % TWO_128);
  }

  lemma ModUnique(x: int, q: int, r: nat)
    requires x == q * TWO_128 + r && r < TWO_128
    ensures x % TWO_128 == r
  {
  }

  lemma ModAdd(a: int, b: int)
    ensures (a % TWO_128 + b) % TWO_128 == (a + b) % TWO_128
  {
    ModMultiple(a % TWO_128 + b, a / TWO_128);
  }

  /** u128from(first32 << 32, 0) */
  lemma HighShift(f: U64)
    ensures U128(f * TWO_32 % TWO_64, 0).Val() == f * (TWO_64 * TWO_32) % TWO_128
  {
    var q := f * TWO_32 / TWO_64;
    ModUnique(f * (TWO_64 * TWO_32), q, (f * TWO_32 % TWO_64) * TWO_64);
  }

  /** u128from(third32 >> 32, third32 << 32) */
  lemma MiddleShift(t: U64)
    ensures U128(t / TWO_32, t * TWO_32 % TWO_64).Val() == t * TWO_32
  {
    var h, l := t / TWO_32, t % TWO_32;
    assert t == h * TWO_32 + l;
    ModUnique64(t * TWO_32, h, l * TWO_32);
  }

  lemma ModUnique64(x: int, q: int, r: nat)
    requires x == q * TWO_64 + r && r < TWO_64
    ensures x % TWO_64 == r
  {
  }

  /** The accumulators, shifted to their places and added. */
  method Combine(first32: U64, second32: U64, third32: U64, fourth32: U64) returns (r: U128)
    ensures r.Val() == FromDigits(fourth32, third32, second32, first32) % TWO_128
  {
    var x := U128(first32 * TWO_32 % TWO_64, 0);
    var y := U128(third32 / TWO_32, third32 * TWO_32 % TWO_64);
    var z := U128(second32, 0);
    var w := U128(0, fourth32);
    HighShift(first32);
    MiddleShift(third32);
    var xy := Add(x, y);
    var xyz := Add(xy, z);
    r := Add(xyz, w);
    AddIsModular(x, y);
    AddIsModular(xy, z);
    AddIsModular(xyz, w);
    FourTerms(first32 * (TWO_64 * TWO_32), third32 * TWO_32, z.Val(), w.Val(), xy.Val(), xyz.Val(), r.Val());
  }

  lemma FourTerms(f: nat, t: nat, z: nat, w: nat, xy: nat, xyz: nat, r: nat)
    requires xy == (f % TWO_128 + t) % TWO_128 && xyz == (xy + z) % TWO_128 && r == (xyz + w) % TWO_128
    ensures r == (f + t + z + w) % TWO_128
  {
    ModAdd(f, t);
    ModAdd(f + t, z);
    ModAdd(f + t + z, w);
  }

  /** The sixteen digit products, rows by digits of a, columns by digits of b. */
  method DigitProducts(top: seq<Digit>, bottom: seq<Digit>) returns (products: array2<U64>)
    requires |top| == |bottom| == 4
    ensures products.Length0 == products.Length1 == 4
    ensures forall i, j :: 0 <= i < 4 && 0 <= j < 4 ==> products[i, j] == DigitMul(top[3 - i], bottom[j])
  {
    products := new U64[4, 4];
    var y := 3;
    while y > -1
      invariant -1 <= y <= 3
      invariant forall i, j :: 0 <= i < 4 && y < j < 4 ==> products[i, j] == DigitMul(top[3 - i], bottom[j])
    {
      var x := 3;
      while x > -1
        invariant -1 <= x <= 3
        invariant forall i, j :: 0 <= i < 4 && y < j < 4 ==> products[i, j] == DigitMul(top[3 - i], bottom[j])
        invariant forall i :: 0 <= i < 3 - x ==> products[i, y] == DigitMul(top[3 - i], bottom[y])
      {
        products[3 - x, y] := DigitMul(top[x], bottom[y]);
        x := x - 1;
      }
      y := y - 1;
    }
  }

  lemma Distribute(x: int, b0: int, b1: int, b2: int, b3: int)
    ensures x * FromDigits(b0, b1, b2, b3) == FromDigits(x * b0, x * b1, x * b2, x * b3)
  {
    var m1, m2, m3 := b1 * TWO_32, b2 * TWO_64, b3 * (TWO_64 * TWO_32);
    assert x * (b0 + m1 + m2 + m3) == x * b0 + x * m1 + x * m2 + x * m3;
    assert x * m1 == (x * b1) * TWO_32;
    assert x * m2 == (x * b2) * TWO_64;
    assert x * m3 == (x * b3) * (TWO_64 * TWO_32);
  }

  /** Schoolbook: all digit products at their places; those from 2^128 on drop out. */
  lemma Schoolbook(a0: int, a1: int, a2: int, a3: int, b0: int, b1: int, b2: int, b3: int)
    ensures FromDigits(a0, a1, a2, a3) * FromDigits(b0, b1, b2, b3)
            == LowSum(a0 * b0, a0 * b1, a1 * b0, a0 * b2, a1 * b1, a2 * b0,
                      a0 * b3, a1 * b2, a2 * b1, a3 * b0)
               + TWO_128 * (FromDigits(a1 * b3 + a2 * b2 + a3 * b1, a2 * b3 + a3 * b2, a3 * b3, 0))
  {
    var b := FromDigits(b0, b1, b2, b3);
    Distribute(b, a0, a1, a2, a3);
    Distribute(a0, b0, b1, b2, b3);
    Distribute(a1, b0, b1, b2, b3);
    Distribute(a2, b0, b1, b2, b3);
    Distribute(a3, b0, b1, b2, b3);
  }

  lemma ProductOfDigits(x: int, y: int, s: seq<Digit>, t: seq<Digit>)
    requires |s| == |t| == 4
    requires x == FromDigits(s[3], s[2], s[1], s[0]) && y == FromDigits(t[3], t[2], t[1], t[0])
    ensures (x * y) % TWO_128 ==
            LowSum(DigitMul(s[3], t[3]), DigitMul(s[3], t[2]), DigitMul(s[2], t[3]),
                   DigitMul(s[3], t[1]), DigitMul(s[2], t[2]), DigitMul(s[1], t[3]),
                   DigitMul(s[3], t[0]), DigitMul(s[2], t[1]), DigitMul(s[1], t[2]), DigitMul(s[0], t[3])) % TWO_128
  {
    var a0: int, a1: int, a2: int, a3: int := s[3], s[2], s[1], s[0];
    var b0: int, b1: int, b2: int, b3: int := t[3], t[2], t[1], t[0];
    Schoolbook(a0, a1, a2, a3, b0, b1, b2, b3);
    ModMultiple(LowSum(a0 * b0, a0 * b1, a1 * b0, a0 * b2, a1 * b1, a2 * b0,
                       a0 * b3, a1 * b2, a2 * b1, a3 * b0),
                FromDigits(a1 * b3 + a2 * b2 + a3 * b1, a2 * b3 + a3 * b2, a3 * b3, 0));
  }

  /** u128mul, portable: schoolbook on 32-bit digits with 64-bit accumulators. */
  method Mul(a: U128, b: U128) returns (r: U128)
    ensures r.Val() == (a.Val() * b.Val()) % TWO_128
  {
    var top, bottom := Split(a), Split(b);
    var products := DigitProducts(top, bottom);
    r := Accumulate(products);
    ProductOfDigits(a.Val(), b.Val(), top, bottom);
  }

  /** u128muladdu */
  method MulAddU(a: U128, b: U64, c: U64) returns (r: U128)
    ensures r.Val() == (a.Val() * b + c) % TWO_128
  {
    var product := Mul(a, U128(0, b));
    r := Add(product, U128(0, c));
    AddIsModular(product, U128(0, c));
    ModAdd(a.Val() * b, c);
  }
}
