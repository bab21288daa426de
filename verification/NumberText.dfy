/** Numbers as text: stou128 and u128tos (src/u128_t.c). */
module NumberText {
  import opened U128

  const DIGS: string := "0123456789abcdefghijklmnopqrstuvwxyz"
  const NUL: char := '\0'
  const BITS_OF_U128: nat := 128

  /** digval */
  function DigVal(ch: char): int {
    if '0' <= ch <= '9' then ch as int - '0' as int
    else if 'A' <= ch <= 'Z' then ch as int - 'A' as int + 10
    else if 'a' <= ch <= 'z' then ch as int - 'a' as int + 10
    else -1
  }

  /** digs[d] */
  function DigitChar(d: nat): (ch: char)
    requires d < 36
    ensures DigVal(ch) == d && (ch == '0' <==> d == 0)
    ensures !IsSpace(ch) && ch != '-' && ch != '+' && ch != NUL
  {
    if d < 10 then '0' + d as char else 'a' + (d - 10) as char
  }

  lemma DigitCharIsTable(d: nat)
    requires d < 36
    ensures DigitChar(d) == DIGS[d]
  {
  }

  predicate IsSpace(ch: char) {
    ch == ' ' || '\t' <= ch <= '\r'
  }

  /** Character i of a NUL terminated string. */
  function CharAt(s: string, i: nat): char {
    if i < |s| then s[i] else NUL
  }

  // ---- Reading ---------------------------------------------------------------

  predicate HexMark(s: string, i: nat) {
    CharAt(s, i) == '0' && (CharAt(s, i + 1) == 'x' || CharAt(s, i + 1) == 'X')
  }

  predicate DigitAt(s: string, i: nat, base: int) {
    0 <= DigVal(CharAt(s, i)) < base
  }

  /** Horner's rule as stou128 applies it: the flag tells whether a step made the
      number smaller, which the source takes for overflow. */
  ghost function Accumulated(digits: seq<nat>, base: int): (acc: (nat, bool))
    ensures acc.0 < TWO_128
  {
    if digits == [] then (0, false)
    else HornerStep(Accumulated(digits[..|digits| - 1], base), base, digits[|digits| - 1])
  }

  ghost function HornerStep(acc: (nat, bool), base: int, digit: nat): (r: (nat, bool))
    ensures r.0 < TWO_128
  {
    var v := (acc.0 * base + digit) % TWO_128;
    if acc.0 > v then (TWO_128 - 1, true) else (v, acc.1)
  }

  ghost function DigitsIn(s: string, lo: nat, hi: nat): (d: seq<nat>)
    requires lo <= hi <= |s|
    ensures |d| == hi - lo && forall i :: 0 <= i < |d| ==> d[i] == DigitOf(s[lo + i])
    decreases hi
  {
    if lo == hi then [] else DigitsIn(s, lo, hi - 1) + [DigitOf(s[hi - 1])]
  }

  function DigitOf(ch: char): nat {
    if DigVal(ch) < 0 then 0 else DigVal(ch)
  }

  /** The C type int. */
  type Int = i: int | -0x8000_0000 <= i < 0x8000_0000

  /** Where the digits start, the sign and the base in effect. */
  datatype Header = Header(pos: nat, minus: bool, base: int)

  function SkipSpace(s: string, i: nat): (j: nat)
    requires i <= |s|
    ensures i <= j <= |s|
    decreases |s| - i
  {
    if i < |s| && IsSpace(s[i]) then SkipSpace(s, i + 1) else i
  }

  function ReadHeader(s: string, base: Int): (h: Header)
    ensures h.pos <= |s| && -0x8000_0000 <= h.base < 0x8000_0000
  {
    var i := SkipSpace(s, 0);
    var signed := CharAt(s, i) == '-' || CharAt(s, i) == '+';
    var minus := CharAt(s, i) == '-';
    var i := if signed then i + 1 else i;
    if base == 0 then
      if HexMark(s, i) then Header(i + 2, minus, 16)
      else if CharAt(s, i) == '0' then Header(i + 1, minus, 8)
      else Header(i, minus, 10)
    else if base == 16 && HexMark(s, i) then Header(i + 2, minus, 16)
    else Header(i, minus, base)
  }

  /** The number written by the digits, however large. */
  ghost function Value(digits: seq<nat>, base: nat): nat {
    if digits == [] then 0 else Value(digits[..|digits| - 1], base) * base + digits[|digits| - 1]
  }

  lemma MulGrows(u: nat, base: nat)
    requires base >= 1
    ensures u <= u * base
  {
  }

  lemma HornerExact(u: nat, base: nat, digit: nat)
    requires base >= 1 && u * base + digit < TWO_128
    ensures HornerStep((u, false), base, digit) == (u * base + digit, false)
  {
    MulGrows(u, base);
  }

  /** A number is read exactly if and only if it fits, and is then in range. */
  lemma {:induction false} InRangeIsExact(digits: seq<nat>, base: nat)
    requires base >= 1
    ensures Accumulated(digits, base) == (Value(digits, base), false) <==> Value(digits, base) < TWO_128
  {
    if digits != [] && Value(digits, base) < TWO_128 {
      var u := Value(digits[..|digits| - 1], base);
      MulGrows(u, base);
      HornerExact(u, base, digits[|digits| - 1]);
      InRangeIsExact(digits[..|digits| - 1], base);
    }
  }

  /** 6 followed by 38 zeros does not fit, and the source does not notice: the
      wrapped number is still larger than the one before the last digit. */
  lemma OverflowMissed()
    ensures var digits := [6] + seq(38, i => 0);
            && Value(digits, 10) == 6_00000000_00000000_00000000_00000000_000000 >= TWO_128
            && Accumulated(digits, 10) == (Value(digits, 10) - TWO_128, false)
  {
    var digits := [6] + seq(38, i => 0);
    SixAndZeros(37);
    SixAndZeros(38);
    assert Pow10(10) == 1_00000_00000;
    assert Pow10(20) == 1_00000_00000_00000_00000;
    assert Pow10(30) == 1_00000_00000_00000_00000_00000_00000;
    assert Pow10(37) == 1_00000_00000_00000_00000_00000_00000_0000000;
    assert digits[..38] == [6] + seq(37, i => 0);
    InRangeIsExact(digits[..38], 10);
  }

  lemma {:induction false} SixAndZeros(k: nat)
    ensures Value([6] + seq(k, i => 0), 10) == 6 * Pow10(k)
  {
    var d := [6] + seq(k, i => 0);
    if k > 0 {
      SixAndZeros(k - 1);
      assert d[..k] == [6] + seq(k - 1, i => 0);
    } else {
      assert d[..0] == [];
    }
  }

  ghost function Pow10(k: nat): nat {
    if k == 0 then 1 else 10 * Pow10(k - 1)
  }

  /** The number modulo 2^128 after the first i digits is smaller than before the
      last of them. */
  ghost predicate DropsAt(digits: seq<nat>, base: nat, i: nat) {
    0 < i <= |digits| && Value(digits[..i], base) % TWO_128 < Value(digits[..i - 1], base) % TWO_128
  }

  lemma ModStep(u: nat, base: nat, digit: nat)
    ensures (u * base + digit) % TWO_128 == (u % TWO_128 * base + digit) % TWO_128
  {
    var k := u / TWO_128;
    assert u == k * TWO_128 + u % TWO_128;
    Distribute2(k * TWO_128, u % TWO_128, base);
    assert (k * TWO_128) * base == k * base * TWO_128;
    ModMultiple(u % TWO_128 * base + digit, k * base);
  }

  lemma Distribute2(x: nat, y: nat, z: nat)
    ensures (x + y) * z == x * z + y * z
  {
  }

  /** The largest number stays the largest. */
  lemma StaysSaturated(base: nat, digit: nat)
    requires 1 <= base < 0x8000_0000 && digit < base
    ensures HornerStep((TWO_128 - 1, true), base, digit) == (TWO_128 - 1, true)
  {
    ModMultiple(TWO_128 - base + digit, base - 1);
  }

  ghost predicate Drops(digits: seq<nat>, base: nat) {
    exists i: nat :: DropsAt(digits, base, i)
  }

  lemma DropsNext(digits: seq<nat>, base: nat)
    requires digits != []
    ensures Drops(digits, base) <==> Drops(digits[..|digits| - 1], base) || DropsAt(digits, base, |digits|)
  {
    var init := digits[..|digits| - 1];
    forall i: nat | i < |digits|
      ensures DropsAt(digits, base, i) <==> DropsAt(init, base, i)
    {
      assert init[..i] == digits[..i];
      assert i > 0 ==> init[..i - 1] == digits[..i - 1];
    }
  }

  lemma NoDigitsNoDrops(base: nat)
    ensures !Drops([], base)
  {
  }

  lemma LastDrops(digits: seq<nat>, base: nat)
    requires digits != []
    ensures var u, d := Value(digits[..|digits| - 1], base), digits[|digits| - 1];
            DropsAt(digits, base, |digits|) <==> (u * base + d) % TWO_128 < u % TWO_128
  {
    assert digits[..|digits|] == digits;
  }

  /** One step, from any number below 2^128 that is u modulo 2^128. */
  lemma StepOutcome(u: nat, base: nat, digit: nat)
    ensures var x, y := u % TWO_128, (u * base + digit) % TWO_128;
            HornerStep((x, false), base, digit) == if y < x then (TWO_128 - 1, true) else (y, false)
  {
    ModStep(u, base, digit);
  }

  /** What any digits at all are read as: overflow is reported if and only if
      some step makes the number modulo 2^128 smaller; otherwise that number is
      the result, whether it is the one written or not. */
  lemma {:induction false} ExactOutcome(digits: seq<nat>, base: nat)
    requires 1 <= base < 0x8000_0000 && forall i :: 0 <= i < |digits| ==> digits[i] < base
    ensures Accumulated(digits, base) ==
            if Drops(digits, base) then (TWO_128 - 1, true) else (Value(digits, base) % TWO_128, false)
  {
    hide Drops, HornerStep;
    if digits == [] {
      NoDigitsNoDrops(base);
    } else {
      var init, d := digits[..|digits| - 1], digits[|digits| - 1];
      ExactOutcome(init, base);
      DropsNext(digits, base);
      LastDrops(digits, base);
      StepOutcome(Value(init, base), base, d);
      StaysSaturated(base, d);
    }
  }

  lemma OneMoreDigit(s: string, lo: nat, hi: nat, base: int)
    requires lo <= hi < |s| && DigVal(s[hi]) >= 0
    ensures Accumulated(DigitsIn(s, lo, hi + 1), base) ==
            HornerStep(Accumulated(DigitsIn(s, lo, hi), base), base, DigVal(s[hi]))
  {
    var d := DigitsIn(s, lo, hi + 1);
    assert d[..|d| - 1] == DigitsIn(s, lo, hi);
  }

  lemma SaturatedStep(u: U128, v: U128, range: bool, base: int, digit: nat)
    requires v.Val() == (u.Val() * base + digit) % TWO_128
    ensures HornerStep((u.Val(), range), base, digit) ==
            if Cmp(u, v) > 0 then (U128(TWO_64 - 1, TWO_64 - 1).Val(), true) else (v.Val(), range)
  {
    CmpIsOrder(u, v);
  }

  lemma NothingRead(s: string, pos: nat, base: int)
    requires pos <= |s|
    ensures Accumulated(DigitsIn(s, pos, pos), base) == (0, false)
  {
  }

  /** The digit loop of stou128. */
  method ReadDigits(s: string, pos: nat, base: Int) returns (u: U128, range: bool, end: nat)
    requires pos <= |s| && NUL !in s
    ensures pos <= end <= |s| && !DigitAt(s, end, base)
    ensures forall k :: pos <= k < end ==> DigitAt(s, k, base)
    ensures Accumulated(DigitsIn(s, pos, end), base) == (u.Val(), range)
  {
    hide Accumulated, HornerStep, DigitsIn;
    NothingRead(s, pos, base);
    end, u, range := pos, U128(0, 0), false;
    while DigitAt(s, end, base)
      invariant pos <= end <= |s|
      invariant forall k :: pos <= k < end ==> DigitAt(s, k, base)
      invariant Accumulated(DigitsIn(s, pos, end), base) == (u.Val(), range)
      decreases |s| - end
    {
      var dig := DigVal(CharAt(s, end));
      var v := MulAddU(u, base, dig);
      SaturatedStep(u, v, range, base, dig);
      if Cmp(u, v) > 0 {
        range := true;
        v := U128(TWO_64 - 1, TWO_64 - 1);
      }
      OneMoreDigit(s, pos, end, base);
      u := v;
      end := end + 1;
    }
  }

  /** stou128. `range` is errno == ERANGE, `end` is *eptr. */
  method StoU128(s: string, base: Int) returns (r: U128, range: bool, end: nat)
    requires NUL !in s
    ensures var h := ReadHeader(s, base);
            && h.pos <= end <= |s| && !DigitAt(s, end, h.base)
            && (forall i :: h.pos <= i < end ==> DigitAt(s, i, h.base))
            && var (u, over) := Accumulated(DigitsIn(s, h.pos, end), h.base);
               range == over && r.Val() == if h.minus then (TWO_128 - u) % TWO_128 else u
  {
    var h := ReadHeader(s, base);
    r, range, end := ReadDigits(s, h.pos, h.base);
    if h.minus {
      NegIsModular(r);
      r := Neg(r);
    }
  }

  // ---- Writing ---------------------------------------------------------------

  ghost function Digits(v: nat, base: nat): string
    requires 2 <= base <= 36
  {
    if v == 0 then "" else Digits(Quot(v, base), base) + [DigitChar(Rem(v, base))]
  }

  /** What u128tos writes in front of the digits. */
  ghost function Prefix(v: nat, base: nat): string {
    if base == 16 then "0x" else if base == 8 && v != 0 then "0" else ""
  }

  ghost function Text(v: nat, base: nat): string
    requires 2 <= base <= 36
  {
    Prefix(v, base) + Numeral(v, base)
  }

  function Quot(v: nat, b: nat): (q: nat)
    requires 2 <= b
    ensures q <= v / 2
  {
    DivFacts(v, b);
    v / b
  }

  function Rem(v: nat, b: nat): (r: nat)
    requires 2 <= b
    ensures r < b && r <= v
  {
    DivFacts(v, b);
    v % b
  }

  lemma QuotRem(v: nat, b: nat)
    requires 2 <= b
    ensures v == Quot(v, b) * b + Rem(v, b)
  {
    DivFacts(v, b);
  }

  lemma DivFacts(v: nat, b: nat)
    requires 2 <= b
    ensures v == (v / b) * b + v % b && v / b <= v / 2 && v % b <= v
  {
    assert (v / b) * 2 <= (v / b) * b;
  }

  /** u128divqru, exact as in the default build. */
  function DivQr(a: U128, b: nat): (qr: (U128, U128))
    requires 2 <= b
    ensures qr.0.Val() == Quot(a.Val(), b) && qr.1.Val() == Rem(a.Val(), b)
  {
    (FromVal(Quot(a.Val(), b)), FromVal(Rem(a.Val(), b)))
  }

  ghost function Numeral(v: nat, base: nat): string
    requires 2 <= base <= 36
  {
    if v == 0 then "0" else Digits(v, base)
  }

  /** `tail` is the end of the numeral of v, `rest` what is left to print. */
  ghost predicate NumeralSoFar(v: nat, base: nat, rest: nat, tail: string)
    requires 2 <= base <= 36
  {
    Numeral(v, base) == Digits(rest, base) + tail
  }

  /** The state of the digit loop: what is left always fits before ptr. */
  ghost predicate Printing(v: nat, base: nat, rest: nat, ptr: nat, tail: string)
    requires 2 <= base <= 36
  {
    && 2 <= ptr <= 130 && rest < Pow2(ptr - 2)
    && if ptr == 130 then rest == v && tail == "" else NumeralSoFar(v, base, rest, tail)
  }

  lemma NextDigit(v: nat, base: nat, rest: nat, tail: string, ptr: nat)
    requires 2 <= base <= 36 && Printing(v, base, rest, ptr, tail) && (ptr == 130 || rest != 0)
    ensures ptr > 2
    ensures Printing(v, base, Quot(rest, base), ptr - 1, [DigitChar(Rem(rest, base))] + tail)
  {
    if rest > 0 {
      var q, d := Digits(Quot(rest, base), base), [DigitChar(Rem(rest, base))];
      assert (q + d) + tail == q + (d + tail);
    }
  }

  /** u128cmp against zero, the condition of that loop. */
  predicate IsNonzero(u: U128)
    ensures IsNonzero(u) <==> u.Val() != 0
  {
    CmpIsOrder(u, U128(0, 0));
    Cmp(u, U128(0, 0)) != 0
  }

  lemma LowHalf(u: U128)
    requires u.Val() < 36
    ensures u.lower == u.Val()
  {
  }

  lemma RemBelow(v: nat, b: nat)
    requires 2 <= b <= 36
    ensures Rem(v, b) < 36
  {
  }

  /** One pass of the loop that prints the digits. */
  method WriteDigit(ghost v: nat, base: nat, quot: U128, buf: array<char>, ptr: nat) returns (rest: U128)
    requires 2 <= base <= 36 && buf.Length == 2 + BITS_OF_U128 + 1 && ptr <= 130
    requires Printing(v, base, quot.Val(), ptr, buf[ptr..130]) && (ptr == 130 || quot.Val() != 0)
    modifies buf
    ensures ptr > 2 && Printing(v, base, rest.Val(), ptr - 1, buf[ptr - 1..130])
  {
    var qr := DivQr(quot, base);
    ghost var tail := buf[ptr..130];
    NextDigit(v, base, quot.Val(), tail, ptr);
    rest := qr.0;
    RemBelow(quot.Val(), base);
    LowHalf(qr.1);
    DigitCharIsTable(qr.1.lower);
    buf[ptr - 1] := DIGS[qr.1.lower];
    assert buf[ptr - 1..130] == [buf[ptr - 1]] + tail;
  }

  /** The digit loop of u128tos: from the end of the buffer backwards. */
  method WriteDigits(u: U128, base: nat, buf: array<char>) returns (ptr: nat)
    requires 2 <= base <= 36 && buf.Length == 2 + BITS_OF_U128 + 1
    modifies buf
    ensures 2 <= ptr <= 130 && buf[ptr..130] == Numeral(u.Val(), base)
  {
    ptr := buf.Length - 1;
    buf[ptr] := NUL;
    var quot := u;
    Pow2Of128();
    var again := true;
    while again
      invariant 2 <= ptr <= 130 && (again <==> ptr == 130 || quot.Val() != 0)
      invariant Printing(u.Val(), base, quot.Val(), ptr, buf[ptr..130])
      decreases ptr
    {
      quot := WriteDigit(u.Val(), base, quot, buf, ptr);
      ptr := ptr - 1;
      again := IsNonzero(quot);
    }
  }

  /** *--ptr = ch */
  method PutBefore(buf: array<char>, at: nat, ch: char) returns (ptr: nat)
    requires 0 < at <= 130 < buf.Length
    modifies buf
    ensures ptr == at - 1 && buf[ptr..130] == [ch] + old(buf[at..130])
  {
    ptr := at - 1;
    buf[ptr] := ch;
  }

  /** u128tos, in a buffer of 131 characters, the prefix last. */
  method U128ToS(u: U128, base: int) returns (text: string)
    ensures text == Text(u.Val(), if base < 2 || base > 36 then 10 else base)
  {
    hide Numeral;
    var base := if base < 2 || base > 36 then 10 else base;
    var buf := new char[2 + BITS_OF_U128 + 1];
    var ptr := WriteDigits(u, base, buf);
    ghost var digits := buf[ptr..130];
    if base == 16 {
      ptr := PutBefore(buf, ptr, 'x');
      ptr := PutBefore(buf, ptr, '0');
      assert buf[ptr..130] == "0x" + digits;
    }
    if base == 8 && IsNonzero(u) {
      ptr := PutBefore(buf, ptr, '0');
    }
    text := buf[ptr..130];
  }

  // ---- Round trip --------------------------------------------------------------

  ghost function DigitSeq(v: nat, base: nat): (d: seq<nat>)
    requires 2 <= base <= 36
    ensures |d| == |Digits(v, base)|
    ensures forall i :: 0 <= i < |d| ==> d[i] < base && Digits(v, base)[i] == DigitChar(d[i])
  {
    if v == 0 then [] else DigitSeq(Quot(v, base), base) + [Rem(v, base)]
  }

  /** Reading back the digits of a number gives the number, and no false overflow. */
  lemma {:induction false} HornerOfDigits(v: nat, base: nat)
    requires 2 <= base <= 36 && v < TWO_128
    ensures Accumulated(DigitSeq(v, base), base) == (v, false)
    decreases v
  {
    if v > 0 {
      var q := Quot(v, base);
      HornerOfDigits(q, base);
      QuotRem(v, base);
      HornerExact(q, base, Rem(v, base));
      var d := DigitSeq(v, base);
      assert d[..|d| - 1] == DigitSeq(q, base);
    }
  }

  lemma {:induction false} LeadingZero(d: seq<nat>, base: nat)
    ensures Accumulated([0] + d, base) == Accumulated(d, base)
  {
    var e := [0] + d;
    if d == [] {
      assert e[..|e| - 1] == [];
    } else {
      LeadingZero(d[..|d| - 1], base);
      assert e[..|e| - 1] == [0] + d[..|d| - 1];
    }
  }

  ghost function NumeralSeq(v: nat, base: nat): (d: seq<nat>)
    requires 2 <= base <= 36
    ensures |d| == |Numeral(v, base)| > 0
    ensures forall i :: 0 <= i < |d| ==> d[i] < base && Numeral(v, base)[i] == DigitChar(d[i])
  {
    if v == 0 then [0] else DigitSeq(v, base)
  }

  lemma HornerOfNumeral(v: nat, base: nat)
    requires 2 <= base <= 36 && v < TWO_128
    ensures Accumulated(NumeralSeq(v, base), base) == (v, false)
  {
    if v == 0 {
      LeadingZero([], base);
    } else {
      HornerOfDigits(v, base);
    }
  }

  /** The leading digit of a numeral other than that of zero is not zero. */
  lemma {:induction false} NoLeadingZero(v: nat, base: nat)
    requires 2 <= base <= 36 && v > 0
    ensures Digits(v, base) != "" && Digits(v, base)[0] != '0'
    decreases v
  {
    if Quot(v, base) > 0 {
      NoLeadingZero(Quot(v, base), base);
    } else {
      QuotRem(v, base);
    }
  }

  /** Whatever prefix it follows, a numeral reads as its number. */
  lemma NumeralAfter(p: string, v: nat, base: nat)
    requires 2 <= base <= 36 && v < TWO_128
    ensures var t := p + Numeral(v, base);
            && (forall i :: |p| <= i < |t| ==> DigitAt(t, i, base) && t[i] != NUL && !IsSpace(t[i]))
            && Accumulated(DigitsIn(t, |p|, |t|), base) == (v, false)
            && CharAt(t, |p|) != '-' && CharAt(t, |p|) != '+'
            && (CharAt(t, |p|) == '0' <==> v == 0)
  {
    var t, d := p + Numeral(v, base), NumeralSeq(v, base);
    HornerOfNumeral(v, base);
    if v > 0 { NoLeadingZero(v, base); }
    forall i | |p| <= i < |t|
      ensures t[i] == DigitChar(d[i - |p|]) && DigVal(t[i]) == d[i - |p|]
      ensures DigitAt(t, i, base) && t[i] != NUL && !IsSpace(t[i])
    {
      assert t[i] == Numeral(v, base)[i - |p|];
    }
    assert t[|p|] == Numeral(v, base)[0];
    assert DigitsIn(t, |p|, |t|) == d;
  }

  /** t is all header and digits, and its digits stand for v. */
  ghost predicate ReadsAs(t: string, readBase: Int, v: nat) {
    var h := ReadHeader(t, readBase);
    && !h.minus && h.base <= 36 && NUL !in t
    && (forall i :: h.pos <= i < |t| ==> DigitAt(t, i, h.base))
    && Accumulated(DigitsIn(t, h.pos, |t|), h.base) == (v, false)
  }

  lemma HexReadsBack(v: nat, readBase: nat)
    requires v < TWO_128 && readBase in {0, 16}
    ensures ReadsAs("0x" + Numeral(v, 16), readBase, v)
  {
    NumeralAfter("0x", v, 16);
    var t := "0x" + Numeral(v, 16);
    assert t[0] == '0' && t[1] == 'x';
    assert ReadHeader(t, readBase) == Header(2, false, 16);
  }

  lemma ZeroBeforeDigits(t: string, base: nat)
    requires t != "" && t[0] == '0'
    ensures Accumulated(DigitsIn(t, 0, |t|), base) == Accumulated(DigitsIn(t, 1, |t|), base)
  {
    var d := DigitsIn(t, 1, |t|);
    assert DigitsIn(t, 0, |t|) == [0] + d;
    LeadingZero(d, base);
  }

  lemma OctalReadsBack(v: nat, readBase: nat)
    requires 0 < v < TWO_128 && readBase in {0, 8}
    ensures ReadsAs("0" + Numeral(v, 8), readBase, v)
  {
    hide Accumulated, DigitsIn;
    NumeralAfter("0", v, 8);
    var t := "0" + Numeral(v, 8);
    assert t[0] == '0' && DigitAt(t, 1, 8) && !HexMark(t, 0);
    if readBase == 0 {
      assert ReadHeader(t, 0) == Header(1, false, 8);
    } else {
      assert ReadHeader(t, 8) == Header(0, false, 8);
      ZeroBeforeDigits(t, 8);
    }
  }

  lemma PlainReadsBack(v: nat, base: nat, readBase: nat)
    requires 2 <= base <= 36 && base != 16 && v < TWO_128
    requires readBase == base || (readBase == 0 && (v == 0 || base == 10))
    ensures ReadsAs(Numeral(v, base), readBase, v)
  {
    NumeralAfter("", v, base);
    var t := Numeral(v, base);
    assert "" + t == t;
    if readBase == 0 && v == 0 {
      assert t == "0" && ReadHeader(t, 0) == Header(1, false, 8);
    } else {
      assert ReadHeader(t, readBase) == Header(0, false, base);
    }
  }

  /** The text of every number reads back as the number; `readBase` 0 leaves the
      base to the prefix. */
  lemma TextReadsBack(v: nat, base: nat, readBase: nat)
    requires 2 <= base <= 36 && v < TWO_128
    requires readBase == base || (readBase == 0 && base in {8, 10, 16})
    ensures ReadsAs(Text(v, base), readBase, v)
  {
    if base == 16 {
      HexReadsBack(v, readBase);
    } else if base == 8 && v != 0 {
      OctalReadsBack(v, readBase);
    } else {
      PlainReadsBack(v, base, readBase);
      assert Text(v, base) == Numeral(v, base);
    }
  }

  lemma ReadToTheEnd(t: string, readBase: Int, v: nat, end: nat)
    requires ReadsAs(t, readBase, v)
    requires ReadHeader(t, readBase).pos <= end <= |t| && !DigitAt(t, end, ReadHeader(t, readBase).base)
    ensures end == |t|
  {
  }

  /** stou128(u128tos(u, base), readBase) is u, read to the end and in range. */
  method RoundTrip(u: U128, base: nat, readBase: nat) returns (r: U128, range: bool, end: nat, text: string)
    requires 2 <= base <= 36
    requires readBase == base || (readBase == 0 && base in {8, 10, 16})
    ensures r == u && !range && end == |text|
  {
    text := U128ToS(u, base);
    TextReadsBack(u.Val(), base, readBase);
    r, range, end := StoU128(text, readBase);
    ReadToTheEnd(text, readBase, u.Val(), end);
    SameVal(r, u);
  }
}
