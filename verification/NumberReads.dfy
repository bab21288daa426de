/** stou128 by the text it is given (src/u128_t.c): spaces, a sign, a mark of the
    base, digits, and whatever follows, each read for what it is. */
module NumberReads {
  import opened U128
  import opened NumberText

  // ---- What is read ------------------------------------------------------

  /** Where the digits from i on end. */
  function DigitsTo(s: string, i: nat, base: int): (j: nat)
    requires i <= |s| && NUL !in s
    ensures i <= j <= |s| && !DigitAt(s, j, base) && forall k :: i <= k < j ==> DigitAt(s, k, base)
    decreases |s| - i
  {
    if i < |s| && DigitAt(s, i, base) then DigitsTo(s, i + 1, base) else i
  }

  /** The number read, whether overflow is reported, and where reading ends. */
  datatype Outcome = Outcome(value: nat, range: bool, end: nat)

  /** The digits from i on, in this base. */
  ghost function Plain(s: string, i: nat, base: int): (o: Outcome)
    requires i <= |s| && NUL !in s
    ensures o.value < TWO_128 && i <= o.end <= |s|
  {
    var end := DigitsTo(s, i, base);
    var (u, over) := NumberText.Accumulated(DigitsIn(s, i, end), base);
    Outcome(u, over, end)
  }

  function Negated(o: Outcome): Outcome
    requires o.value < TWO_128
  {
    o.(value := (TWO_128 - o.value) % TWO_128)
  }

  function Moved(o: Outcome, n: nat): Outcome {
    o.(end := o.end + n)
  }

  ghost function Reading(s: string, base: Int): (o: Outcome)
    requires NUL !in s
    ensures o.value < TWO_128
  {
    var h := ReadHeader(s, base);
    var o := Plain(s, h.pos, h.base);
    if h.minus then Negated(o) else o
  }

  /** stou128 gives that outcome. */
  method Read(s: string, base: Int) returns (r: U128, range: bool, end: nat)
    requires NUL !in s
    ensures Outcome(r.Val(), range, end) == Reading(s, base)
  {
    r, range, end := StoU128(s, base);
    OneEnd(s, ReadHeader(s, base).pos, end, ReadHeader(s, base).base);
  }

  lemma OneEnd(s: string, i: nat, j: nat, base: int)
    requires NUL !in s && i <= j <= |s| && !DigitAt(s, j, base) && forall k :: i <= k < j ==> DigitAt(s, k, base)
    ensures j == DigitsTo(s, i, base)
  {
  }

  // ---- Behind something --------------------------------------------------

  lemma CharBehind(x: string, t: string, i: nat)
    ensures CharAt(x + t, |x| + i) == CharAt(t, i)
  {
  }

  lemma {:induction false} DigitsBehind(x: string, t: string, lo: nat, hi: nat)
    requires lo <= hi <= |t|
    ensures DigitsIn(x + t, |x| + lo, |x| + hi) == DigitsIn(t, lo, hi)
    decreases hi
  {
    if lo < hi {
      DigitsBehind(x, t, lo, hi - 1);
      assert (x + t)[|x| + hi - 1] == t[hi - 1];
    }
  }

  /** Digits are read alike wherever they stand. */
  lemma PlainBehind(x: string, t: string, i: nat, base: int)
    requires i <= |t| && NUL !in x && NUL !in t
    ensures Plain(x + t, |x| + i, base) == Moved(Plain(t, i, base), |x|)
  {
    hide NumberText.Accumulated, DigitsIn;
    var j := DigitsTo(t, i, base);
    forall k | i <= k <= j ensures DigitAt(x + t, |x| + k, base) == DigitAt(t, k, base) {
      CharBehind(x, t, k);
    }
    forall k | |x| + i <= k < |x| + j ensures DigitAt(x + t, k, base) {
      CharBehind(x, t, k - |x|);
      assert DigitAt(t, k - |x|, base);
    }
    OneEnd(x + t, |x| + i, |x| + j, base);
    DigitsBehind(x, t, i, j);
  }

  /** The six characters of isspace in the C locale. */
  ghost predicate Spaces(sp: string) {
    forall i :: 0 <= i < |sp| ==> sp[i] as int in {9, 10, 11, 12, 13, 32}
  }

  lemma {:induction false} SkipSpaces(sp: string, t: string, i: nat)
    requires Spaces(sp) && i <= |sp|
    ensures SkipSpace(sp + t, i) == |sp| + SkipSpace(t, 0)
    decreases |sp| - i
  {
    if i < |sp| {
      assert (sp + t)[i] == sp[i];
      SkipSpaces(sp, t, i + 1);
    } else {
      SkipBehind(sp, t, 0);
    }
  }

  lemma {:induction false} SkipBehind(x: string, t: string, i: nat)
    requires i <= |t|
    ensures SkipSpace(x + t, |x| + i) == |x| + SkipSpace(t, i)
    decreases |t| - i
  {
    if i < |t| {
      assert (x + t)[|x| + i] == t[i];
      SkipBehind(x, t, i + 1);
    }
  }

  /** Spaces in front of any text are passed over. */
  lemma SpacesInFront(sp: string, t: string, base: Int)
    requires Spaces(sp) && NUL !in sp && NUL !in t
    ensures Reading(sp + t, base) == Moved(Reading(t, base), |sp|)
  {
    hide Plain, SkipSpace;
    SkipSpaces(sp, t, 0);
    var i := SkipSpace(t, 0);
    CharBehind(sp, t, i);
    CharBehind(sp, t, i + 1);
    CharBehind(sp, t, i + 2);
    PlainBehind(sp, t, ReadHeader(t, base).pos, ReadHeader(t, base).base);
  }

  // ---- Signs -------------------------------------------------------------

  /** Neither a space nor a sign comes first. */
  predicate Unsigned(t: string) {
    t != "" ==> t[0] != '+' && t[0] != '-' && t[0] as int !in {9, 10, 11, 12, 13, 32}
  }

  /** A sign in front of such a text: plus changes nothing, minus negates. */
  lemma SignInFront(t: string, base: Int)
    requires Unsigned(t) && NUL !in t
    ensures Reading("+" + t, base) == Moved(Reading(t, base), 1)
    ensures Reading("-" + t, base) == Negated(Moved(Reading(t, base), 1))
  {
    OneSign("+", t, base);
    OneSign("-", t, base);
  }

  lemma OneSign(sign: string, t: string, base: Int)
    requires Unsigned(t) && NUL !in t && sign in {"+", "-"}
    ensures var o := Moved(Reading(t, base), 1);
            Reading(sign + t, base) == if sign == "-" then Negated(o) else o
  {
    hide Plain;
    var s := sign + t;
    assert s[0] == sign[0] && "-"[0] == '-' && "+"[0] == '+';
    CharBehind(sign, t, 0);
    CharBehind(sign, t, 1);
    var h := ReadHeader(t, base);
    assert h.minus == false;
    assert ReadHeader(s, base) == Header(h.pos + 1, sign == "-", h.base);
    PlainBehind(sign, t, h.pos, h.base);
  }

  /** Spaces, then a sign or none, then a text that has neither in front. */
  lemma SpacesAndSign(sp: string, t: string, base: Int)
    requires Spaces(sp) && NUL !in sp && Unsigned(t) && NUL !in t
    ensures Reading(sp + t, base) == Moved(Reading(t, base), |sp|)
    ensures Reading(sp + "+" + t, base) == Moved(Reading(t, base), |sp| + 1)
    ensures Reading(sp + "-" + t, base) == Negated(Moved(Reading(t, base), |sp| + 1))
  {
    hide Reading;
    SpacesInFront(sp, t, base);
    SpacesInFront(sp, "+" + t, base);
    SpacesInFront(sp, "-" + t, base);
    SignInFront(t, base);
    assert sp + "+" + t == sp + ("+" + t) && sp + "-" + t == sp + ("-" + t);
  }

  // ---- The base ----------------------------------------------------------

  /** 0x and 0X are passed over in bases 0 and 16, and make base 0 base 16; a 0
      makes it base 8; it is 10 otherwise. Any other base is taken as given. */
  lemma BaseMarks(t: string, base: Int)
    requires NUL !in t
    ensures base in {0, 16} ==> Reading("0x" + t, base) == Moved(Plain(t, 0, 16), 2)
    ensures base in {0, 16} ==> Reading("0X" + t, base) == Moved(Plain(t, 0, 16), 2)
    ensures !(t != "" && t[0] in {'x', 'X'}) ==> Reading("0" + t, 0) == Moved(Plain(t, 0, 8), 1)
    ensures Unsigned(t) && !(t != "" && t[0] == '0') ==> Reading(t, 0) == Plain(t, 0, 10)
    ensures Unsigned(t) && !("0x" <= t) && !("0X" <= t) ==> Reading(t, 16) == Plain(t, 0, 16)
    ensures Unsigned(t) && base !in {0, 16} ==> Reading(t, base) == Plain(t, 0, base)
  {
    hide Plain;
    HexMarked("0x", t, base);
    HexMarked("0X", t, base);
    OctalMarked(t);
    Unmarked(t, base);
    Unmarked(t, 0);
    Unmarked(t, 16);
  }

  lemma HexMarked(x: string, t: string, base: Int)
    requires NUL !in t && x in {"0x", "0X"}
    ensures base in {0, 16} ==> Reading(x + t, base) == Moved(Plain(t, 0, 16), 2)
  {
    hide Plain;
    var s := x + t;
    assert s[0] == x[0] == '0' && s[1] == x[1] && ("0x"[1] == 'x' && "0X"[1] == 'X');
    if base in {0, 16} {
      assert ReadHeader(s, base) == Header(2, false, 16);
      PlainBehind(x, t, 0, 16);
    }
  }

  lemma OctalMarked(t: string)
    requires NUL !in t
    ensures !(t != "" && t[0] in {'x', 'X'}) ==> Reading("0" + t, 0) == Moved(Plain(t, 0, 8), 1)
  {
    hide Plain;
    var s := "0" + t;
    assert s[0] == "0"[0] == '0';
    CharBehind("0", t, 0);
    if !(t != "" && t[0] in {'x', 'X'}) {
      assert ReadHeader(s, 0) == Header(1, false, 8);
      PlainBehind("0", t, 0, 8);
    }
  }

  lemma Unmarked(t: string, base: Int)
    requires NUL !in t
    ensures Unsigned(t) && base == 0 && !(t != "" && t[0] == '0') ==> Reading(t, 0) == Plain(t, 0, 10)
    ensures Unsigned(t) && base != 0 && (base == 16 ==> !("0x" <= t) && !("0X" <= t)) ==>
              Reading(t, base) == Plain(t, 0, base)
  {
    hide Plain;
    if |t| >= 2 && t[0] == '0' {
      assert t[1] == 'x' ==> t[..2] == "0x";
      assert t[1] == 'X' ==> t[..2] == "0X";
    }
  }

  // ---- Digits ------------------------------------------------------------

  /** 0 to 9, and the letters from 10 on, small or capital. */
  lemma DigitValues(ch: char)
    ensures var c := ch as int;
            DigVal(ch) == if 48 <= c <= 57 then c - 48
                          else if 65 <= c <= 90 then c - 55
                          else if 97 <= c <= 122 then c - 87
                          else -1
  {
  }

  /** A run of digits, up to something that is none: the number they write modulo
      2^128, or the largest one and the flag if a step makes it smaller. */
  lemma DigitsAreTheNumber(d: string, rest: string, base: Int)
    requires NUL !in d && NUL !in rest && base >= 1
    requires forall i :: 0 <= i < |d| ==> 0 <= DigVal(d[i]) < base
    requires rest != "" ==> !(0 <= DigVal(rest[0]) < base)
    ensures var ns := DigitsIn(d, 0, |d|);
            Plain(d + rest, 0, base) ==
            if Drops(ns, base) then Outcome(TWO_128 - 1, true, |d|) else Outcome(Value(ns, base) % TWO_128, false, |d|)
  {
    var s := d + rest;
    OneEnd(s, 0, |d|, base);
    DigitsFromFront(d, rest, |d|);
    var ns := DigitsIn(d, 0, |d|);
    ExactOutcome(ns, base);
  }

  lemma {:induction false} DigitsFromFront(d: string, rest: string, hi: nat)
    requires hi <= |d|
    ensures DigitsIn(d + rest, 0, hi) == DigitsIn(d, 0, hi)
    decreases hi
  {
    if hi > 0 {
      DigitsFromFront(d, rest, hi - 1);
      assert (d + rest)[hi - 1] == d[hi - 1];
    }
  }

  // ---- What is printed ---------------------------------------------------

  /** The mark of the base, and then the numeral in small letters, without zeros
      in front; the digits of the numeral are those of the number. */
  lemma PrintedForm(v: nat, base: nat)
    requires 2 <= base <= 36
    ensures Text(v, base) == (if base == 16 then "0x" else if base == 8 && v != 0 then "0" else "") + Numeral(v, base)
    ensures v == 0 ==> Numeral(v, base) == "0"
    ensures v > 0 ==> Numeral(v, base) != "" && Numeral(v, base)[0] != '0'
    ensures var n := NumeralSeq(v, base);
            && |n| == |Numeral(v, base)| && Value(n, base) == v
            && forall i :: 0 <= i < |n| ==>
                 n[i] < base && Numeral(v, base)[i] == "0123456789abcdefghijklmnopqrstuvwxyz"[n[i]]
  {
    if v > 0 {
      NoLeadingZero(v, base);
    }
    ValueOfNumeral(v, base);
    var n := NumeralSeq(v, base);
    forall i | 0 <= i < |n| ensures Numeral(v, base)[i] == "0123456789abcdefghijklmnopqrstuvwxyz"[n[i]] {
      DigitCharIsTable(n[i]);
    }
  }

  lemma {:induction false} ValueOfNumeral(v: nat, base: nat)
    requires 2 <= base <= 36
    ensures Value(NumeralSeq(v, base), base) == v
  {
    if v == 0 {
      assert [0][..0] == [];
    } else {
      ValueOfDigits(v, base);
    }
  }

  lemma {:induction false} ValueOfDigits(v: nat, base: nat)
    requires 2 <= base <= 36
    ensures Value(DigitSeq(v, base), base) == v
    decreases v
  {
    if v > 0 {
      DivFacts(v, base);
      ValueOfDigits(Quot(v, base), base);
      var d := DigitSeq(v, base);
      assert d[..|d| - 1] == DigitSeq(Quot(v, base), base);
    }
  }
}
