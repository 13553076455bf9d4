/** Number texts: lib/strto.c read back what the %x conversions print. A C string is the
    sequence of its characters; reading at its end yields the terminating NUL. */
module Strto {
  import opened Division

  const NUL := '\0'

  function At(s: string, i: nat): char
  {
    if i < |s| then s[i] else NUL
  }

  /** The value of a hexadecimal digit of either case, 16 for any other character. */
  function DigitValue(c: char): nat
  {
    if '0' <= c <= '9' then c as int - '0' as int
    else if 'a' <= c <= 'f' then c as int - 'a' as int + 10
    else if 'A' <= c <= 'F' then c as int - 'A' as int + 10
    else 16
  }

  predicate AllDigits(s: string, base: nat)
  {
    forall i :: 0 <= i < |s| ==> DigitValue(s[i]) < base
  }

  /** How many leading characters of `s` are digits of the base. */
  function Leading(s: string, base: nat): (n: nat)
    ensures n <= |s| && AllDigits(s[..n], base) && (n < |s| ==> DigitValue(s[n]) >= base)
  {
    if s == [] || DigitValue(s[0]) >= base then 0 else 1 + Leading(s[1..], base)
  }

  /** The number a run of digits stands for. */
  function Number(digits: string, base: nat): nat
  {
    if digits == [] then 0
    else Number(digits[..|digits| - 1], base) * base + DigitValue(digits[|digits| - 1])
  }

  datatype Radix = Radix(skip: nat, base: nat)

  function FixupRadix(s: string, base: nat): (r: Radix)
    requires base == 0 || 2 <= base <= 16
    ensures r.skip <= |s| && 2 <= r.base <= 16
  {
    var x := At(s, 1) == 'x' || At(s, 1) == 'X';
    var b := if base != 0 then base
             else if At(s, 0) == '0' then (if x && DigitValue(At(s, 2)) < 16 then 16 else 8)
             else 10;
    Radix(if b == 16 && At(s, 0) == '0' && x then 2 else 0, b)
  }

  /** Where reading a number at the start of `s` stops, and what it yields. */
  function Advance(s: string, base: nat): (n: nat)
    requires base == 0 || 2 <= base <= 16
    ensures n <= |s|
  {
    var r := FixupRadix(s, base);
    r.skip + Leading(s[r.skip..], r.base)
  }

  function Reading(s: string, base: nat): nat
    requires base == 0 || 2 <= base <= 16
  {
    var r := FixupRadix(s, base);
    Number(s[r.skip..Advance(s, base)], r.base)
  }

  lemma {:induction false} LeadingIs(s: string, n: nat, base: nat)
    requires n <= |s| && AllDigits(s[..n], base)
    requires n < |s| ==> DigitValue(s[n]) >= base
    ensures Leading(s, base) == n
  {
    if n == 0 {
    } else {
      assert DigitValue(s[..n][0]) < base;
      assert s[1..][..n - 1] == s[..n][1..];
      LeadingIs(s[1..], n - 1, base);
    }
  }

  lemma Residue(a: nat, q: nat, r: nat, base: nat, d: nat, m: nat)
    requires m > 0 && a == q * m + r
    ensures (r * base + d) % m == (a * base + d) % m
  {
    Distribute(q, m, r, base);
    var x, k := r * base + d, q * base;
    assert a * base + d == x + k * m;
    ModAdd(x, m, k);
  }

  lemma Distribute(q: nat, m: nat, r: nat, base: nat)
    ensures (q * m + r) * base == r * base + (q * base) * m
  {}

  lemma NumberNone(base: nat)
    ensures Number([], base) == 0
  {}

  /** One more digit taken into a result of limited width. */
  function Accumulate(value: nat, base: nat, digit: nat, modulus: nat): nat
    requires modulus > 0
  {
    (value * base + digit) % modulus
  }

  lemma NumberNext(t: string, n: nat, base: nat, modulus: nat)
    requires n < |t| && modulus > 0
    ensures Number(t[..n + 1], base) % modulus == Accumulate(Number(t[..n], base) % modulus, base, DigitValue(t[n]), modulus)
  {
    hide DigitValue;
    assert t[..n + 1][..n] == t[..n];
    var a, d := Number(t[..n], base), DigitValue(t[n]);
    assert Number(t[..n + 1], base) == a * base + d;
    hide Number;
    Residue(a, a / modulus, a % modulus, base, d, modulus);
  }

  /** simple_strtoul and simple_strtoull: `modulus` is 2 to the width of the result. */
  method SimpleStrtoul(s: string, base: nat, modulus: nat) returns (value: nat, next: nat)
    requires base == 0 || 2 <= base <= 16
    requires modulus > 0
    ensures next == Advance(s, base)
    ensures value == Reading(s, base) % modulus
  {
    hide Number, DigitValue, Leading, FixupRadix, Accumulate;
    var r := FixupRadix(s, base);
    NumberNone(r.base);
    var i := r.skip;
    value := 0;
    var t := s[r.skip..];
    assert t[..0] == [];
    while i < |s| && DigitValue(s[i]) < r.base
      invariant r.skip <= i <= |s|
      invariant AllDigits(t[..i - r.skip], r.base)
      invariant value == Number(t[..i - r.skip], r.base) % modulus
    {
      NumberNext(t, i - r.skip, r.base, modulus);
      value := Accumulate(value, r.base, DigitValue(s[i]), modulus);
      i := i + 1;
    }
    LeadingIs(t, i - r.skip, r.base);
    assert s[r.skip..i] == t[..i - r.skip];
    next := i;
  }

  /** The factor a size suffix stands for. */
  function Unit(c: char): nat
  {
    match c
    case 'G' => 1024 * 1024 * 1024
    case 'M' => 1024 * 1024
    case 'K' => 1024
    case 'k' => 1024
    case _ => 1
  }

  lemma ScaleStep(a: nat, modulus: nat)
    requires modulus > 0
    ensures Accumulate(a % modulus, 1024, 0, modulus) == (a * 1024) % modulus
  {
    Residue(a, a / modulus, a % modulus, 1024, 0, modulus);
  }

  /** Where reading a number with its suffix stops: i and B after a suffix are taken too,
      the suffix alone is not. */
  function SuffixEnd(s: string, next: nat): nat
  {
    if Unit(At(s, next)) == 1 || At(s, next + 1) != 'i' then next
    else if At(s, next + 2) == 'B' then next + 3
    else next + 2
  }

  /** ustrtoull in base 0. */
  method Ustrtoull(s: string, modulus: nat) returns (value: nat, end: nat)
    requires modulus > 0
    ensures value == (Reading(s, 0) * Unit(At(s, Advance(s, 0)))) % modulus
    ensures end == SuffixEnd(s, Advance(s, 0))
  {
    hide Reading, Advance, Accumulate;
    var next;
    value, next := SimpleStrtoul(s, 0, modulus);
    var c := At(s, next);
    end := next;
    ghost var r := Reading(s, 0);
    if c == 'G' {
      ScaleStep(r, modulus);
      value := Accumulate(value, 1024, 0, modulus);
      r := r * 1024;
    }
    if c == 'G' || c == 'M' {
      ScaleStep(r, modulus);
      value := Accumulate(value, 1024, 0, modulus);
      r := r * 1024;
    }
    if c == 'G' || c == 'M' || c == 'K' || c == 'k' {
      ScaleStep(r, modulus);
      value := Accumulate(value, 1024, 0, modulus);
      r := r * 1024;
      if At(s, next + 1) == 'i' {
        if At(s, next + 2) == 'B' {
          end := next + 3;
        } else {
          end := next + 2;
        }
      }
    }
  }

  function HexDigit(n: nat): (c: char)
    requires n < 16
    ensures DigitValue(c) == n && c != ' ' && c != NUL
  {
    if n < 10 then (n + '0' as int) as char else (n - 10 + 'a' as int) as char
  }

  lemma Divide(n: nat, base: nat)
    requires base > 0
    ensures n == n / base * base + n % base && n % base < base
  {}

  lemma DigitAppended(t: string, n: nat, base: nat)
    requires 2 <= base <= 16 && AllDigits(t, base) && Number(t, base) == n / base
    ensures n % base < base
    ensures var s := t + [HexDigit(n % base)]; AllDigits(s, base) && Number(s, base) == n
  {
    hide DigitValue, HexDigit;
    var s := t + [HexDigit(n % base)];
    assert s[..|s| - 1] == t;
    Divide(n, base);
    assert Number(s, base) == Number(t, base) * base + n % base;
  }

  /** The text of a number in some base, without leading zeros. */
  function Written(n: nat, base: nat): (s: string)
    requires 2 <= base <= 16
    ensures s != [] && AllDigits(s, base) && Number(s, base) == n && (n > 0 ==> s[0] != '0')
  {
    if n < base then [HexDigit(n)]
    else
      Smaller(n, base);
      DigitAppended(Written(n / base, base), n, base);
      Written(n / base, base) + [HexDigit(n % base)]
  }

  lemma Smaller(n: nat, base: nat)
    requires 2 <= base <= n
    ensures 0 < n / base < n
  {
    Divide(n, base);
    assert 0 * base == 0;
    MulOrder(2, base, n / base);
  }

  /** What %x prints. */
  function Hex(n: nat): (s: string)
    ensures s != [] && AllDigits(s, 16) && Number(s, 16) == n
  {
    Written(n, 16)
  }

  function Sixteens(width: nat): (p: nat)
    ensures p > 0
  {
    if width == 0 then 1 else 16 * Sixteens(width - 1)
  }

  /** What %0<width>x prints for a number that fits the width. */
  function Fixed(n: nat, width: nat): (s: string)
    requires n < Sixteens(width)
    ensures |s| == width && AllDigits(s, 16) && Number(s, 16) == n
    ensures forall i :: 0 <= i < |s| ==> s[i] != ' '
  {
    if width == 0 then []
    else
      var t := Fixed(n / 16, width - 1);
      DigitAppended(t, n, 16);
      t + [HexDigit(n % 16)]
  }

  /** Digits after 0x are read back whole when no further digit follows them. */
  lemma ReadsPrefixed(s: string, digits: string)
    requires digits != [] && AllDigits(digits, 16)
    requires |s| >= 2 && s[..2] == "0x" && digits <= s[2..]
    requires |s| > 2 + |digits| ==> DigitValue(s[2 + |digits|]) >= 16
    ensures Advance(s, 0) == 2 + |digits| && Reading(s, 0) == Number(digits, 16)
  {
    hide Number, Leading;
    assert s[0] == s[..2][0] && s[1] == s[..2][1] && s[2] == digits[0];
    LeadingIs(s[2..], |digits|, 16);
    assert s[2..2 + |digits|] == digits;
  }

  /** Two or more digits are read back whole in base 16. */
  lemma ReadsPlain(s: string, digits: string)
    requires |digits| >= 2 && AllDigits(digits, 16)
    requires digits <= s
    requires |s| > |digits| ==> DigitValue(s[|digits|]) >= 16
    ensures Advance(s, 16) == |digits| && Reading(s, 16) == Number(digits, 16)
  {
    hide Number, Leading;
    assert s[1] == digits[1] && s[0..] == s;
    LeadingIs(s, |digits|, 16);
    assert s[0..|digits|] == digits;
  }

  // ---- numbers as people write them --------------------------------------------------------

  /** Digits of either case count the same, and nothing else is a digit. */
  lemma DigitsAre(i: nat, c: char)
    ensures i < 10 ==> DigitValue(('0' as int + i) as char) == i
    ensures i < 6 ==> DigitValue(('a' as int + i) as char) == 10 + i && DigitValue(('A' as int + i) as char) == 10 + i
    ensures DigitValue(c) >= 16 <==> !('0' <= c <= '9' || 'a' <= c <= 'f' || 'A' <= c <= 'F')
  {}

  datatype Form = Decimal | Octal | Hexadecimal

  function BaseOf(form: Form): (b: nat)
    ensures 2 <= b <= 16
  {
    match form case Decimal => 10 case Octal => 8 case Hexadecimal => 16
  }

  function PrefixOf(form: Form): string
  {
    match form case Decimal => "" case Octal => "0" case Hexadecimal => "0x"
  }

  /** A number as C writes it: plain, after 0, or after 0x. */
  function Text(form: Form, n: nat): string
  {
    PrefixOf(form) + Written(n, BaseOf(form))
  }

  /** The characters at `at` end a number written in that form: nothing, or no digit of its
      base; 0x does not count as the number 0. */
  predicate EndsThere(s: string, at: nat, form: Form, n: nat)
  {
    && DigitValue(At(s, at)) >= BaseOf(form)
    && (form.Decimal? && n == 0 ==> At(s, at) != 'x' && At(s, at) != 'X')
  }

  /** In base 0 every number is read back in whichever form it is written. */
  lemma ReadsText(s: string, form: Form, n: nat)
    requires Text(form, n) <= s && EndsThere(s, |Text(form, n)|, form, n)
    ensures Advance(s, 0) == |Text(form, n)| && Reading(s, 0) == n
  {
    hide Written, Number, DigitValue, Advance, Reading;
    match form
    case Hexadecimal => HexadecimalText(s, n);
    case Octal => OctalText(s, n);
    case Decimal =>
      assert "" + Written(n, 10) == Written(n, 10);
      DecimalText(s, n);
  }

  lemma HexadecimalText(s: string, n: nat)
    requires var t := "0x" + Written(n, 16); t <= s && DigitValue(At(s, |t|)) >= 16
    ensures Advance(s, 0) == 2 + |Written(n, 16)| && Reading(s, 0) == n
  {
    hide Written, Number, DigitValue, Advance, Reading;
    var t, d := "0x" + Written(n, 16), Written(n, 16);
    assert s[..|t|] == t && t[..2] == "0x" && t[2..] == d;
    assert s[..2] == s[..|t|][..2] && s[2..][..|d|] == s[..|t|][2..];
    ReadsPrefixed(s, d);
  }

  lemma OctalText(s: string, n: nat)
    requires var t := "0" + Written(n, 8); t <= s && DigitValue(At(s, |t|)) >= 8
    ensures Advance(s, 0) == 1 + |Written(n, 8)| && Reading(s, 0) == n
  {
    hide Written, Number, DigitValue, Advance, Reading;
    var t, d := "0" + Written(n, 8), Written(n, 8);
    assert s[..|t|] == t && s[0] == t[0] && t[1..] == d;
    assert s[1..1 + |d|] == s[..|t|][1..];
    ReadsOctal(s, d);
  }

  lemma DecimalText(s: string, n: nat)
    requires Written(n, 10) <= s && EndsThere(s, |Written(n, 10)|, Decimal, n)
    ensures Advance(s, 0) == |Written(n, 10)| && Reading(s, 0) == n
  {
    assert n == 0 ==> Written(n, 10) == "0";
    hide Written, Number, DigitValue, Advance, Reading;
    ReadsDecimal(s, Written(n, 10), n);
  }

  lemma ReadsOctal(s: string, digits: string)
    requires |s| > |digits| && s[0] == '0' && digits != [] && AllDigits(digits, 8) && s[1..1 + |digits|] == digits
    requires DigitValue(At(s, 1 + |digits|)) >= 8
    ensures Advance(s, 0) == 1 + |digits| && Reading(s, 0) == Number(digits, 8)
  {
    hide Number, Leading, AllDigits, FixupRadix;
    var all := s[..1 + |digits|];
    assert all == ['0'] + digits && s[0..] == s && s[0..|all|] == all;
    ZeroFirst(digits, 8);
    LeadingIs(s, 1 + |digits|, 8);
    LeadingZero(digits, 8);
    assert s[1] == digits[0];
    OctalRadix(s, digits);
  }

  lemma OctalRadix(s: string, digits: string)
    requires |s| > 1 && s[0] == '0' && digits != [] && AllDigits(digits, 8) && s[1] == digits[0]
    ensures FixupRadix(s, 0) == Radix(0, 8)
  {}

  lemma ZeroFirst(digits: string, base: nat)
    requires base > 0 && AllDigits(digits, base)
    ensures AllDigits(['0'] + digits, base)
  {
  }

  lemma {:induction false} LeadingZero(digits: string, base: nat)
    ensures Number(['0'] + digits, base) == Number(digits, base)
    decreases |digits|
  {
    var all := ['0'] + digits;
    if digits == [] {
      assert all[..0] == [];
    } else {
      var n := |digits| - 1;
      assert all[..|all| - 1] == ['0'] + digits[..n] && all[|all| - 1] == digits[n];
      LeadingZero(digits[..n], base);
    }
  }

  lemma ReadsDecimal(s: string, digits: string, n: nat)
    requires digits != [] && AllDigits(digits, 10) && digits <= s && Number(digits, 10) == n
    requires n > 0 ==> digits[0] != '0'
    requires n == 0 ==> digits == "0"
    requires EndsThere(s, |digits|, Decimal, n)
    ensures Advance(s, 0) == |digits| && Reading(s, 0) == n
  {
    hide Number, Leading;
    assert s[0] == digits[0] && s[0..] == s && s[0..|digits|] == digits;
    if n > 0 {
      LeadingIs(s, |digits|, 10);
    } else {
      LeadingIs(s, 1, 8);
      NumberNone(8);
      assert Number("0", 8) == 0 by {
        LeadingZero([], 8);
        assert ['0'] + [] == "0";
      }
    }
  }

  /** 0x without a hexadecimal digit after it is the number 0, and the x is not taken. */
  lemma ReadsBareX(s: string)
    requires |s| >= 2 && s[0] == '0' && (s[1] == 'x' || s[1] == 'X') && DigitValue(At(s, 2)) >= 16
    ensures Advance(s, 0) == 1 && Reading(s, 0) == 0
  {
    hide Number, Leading;
    assert s[0..] == s && s[..1] == "0" && s[0..1] == "0";
    LeadingIs(s, 1, 8);
    LeadingZero([], 8);
    assert ['0'] + [] == "0";
    NumberNone(8);
  }

  /** 0X counts as 0x does. */
  lemma ReadsUpperX(s: string)
    requires |s| >= 2 && s[0] == '0' && s[1] == 'X' && DigitValue(At(s, 2)) < 16
    ensures Advance(s, 0) == Advance(s[1 := 'x'], 0) && Reading(s, 0) == Reading(s[1 := 'x'], 0)
  {
    hide Number, Leading;
    var t := s[1 := 'x'];
    assert t[2..] == s[2..] && forall n :: 2 <= n <= |s| ==> t[2..n] == s[2..n];
  }
}
