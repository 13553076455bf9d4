/** The prime numbers below 312. */
module Primes {
  import opened Division

  predicate Prime(n: nat)
  {
    n >= 2 && forall d :: 2 <= d < n ==> n % d != 0
  }

  /** The primes below `n` in ascending order. */
  function PrimesBelow(n: nat): seq<nat>
  {
    if n == 0 then [] else PrimesBelow(n - 1) + (if Prime(n - 1) then [n - 1] else [])
  }

  function Table(i: nat): nat
    requires i < 64
  {
    if i < 16 then [2, 3, 5, 7, 11, 13, 17, 19, 23, 29, 31, 37, 41, 43, 47, 53][i]
    else if i < 32 then [59, 61, 67, 71, 73, 79, 83, 89, 97, 101, 103, 107, 109, 113, 127, 131][i - 16]
    else if i < 48 then
      [137, 139, 149, 151, 157, 163, 167, 173, 179, 181, 191, 193, 197, 199, 211, 223][i - 32]
    else
      [227, 229, 233, 239, 241, 251, 257, 263, 269, 271, 277, 281, 283, 293, 307, 311][i - 48]
  }

  lemma Divided(n: nat, d: nat)
    requires 2 <= d < n && n % d == 0
    ensures n == d * (n / d) && 2 <= n / d
  {
    var e := n / d;
    assert n == d * e;
    assert d * 0 == 0 && d * 1 == d;
  }

  lemma Smaller(n: nat, d: nat, e: nat)
    requires n == d * e && n < 361 && d >= 19
    ensures e < 19
  {
    MulOrder(19, d, e);
  }

  lemma Multiple(n: nat, d: nat, e: nat)
    requires n == d * e && e > 0
    ensures n % e == 0
  {
    ModUnique(n, e, d, 0);
  }

  predicate Trial(n: nat)
  {
    n % 2 != 0 && n % 3 != 0 && n % 5 != 0 && n % 7 != 0 && n % 11 != 0 && n % 13 != 0 && n % 17 != 0
  }

  lemma SmallDivisor(n: nat, d: nat)
    requires 2 <= d < 19 && n % d == 0
    ensures !Trial(n)
  {
    if d == 2 || d == 4 || d == 8 || d == 16 || d == 6 || d == 10 || d == 12 || d == 14 || d == 18 {
      assert n % 2 == 0;
    } else if d == 3 || d == 9 || d == 15 {
      assert n % 3 == 0;
    }
  }

  /** Below 19^2 trial division by the primes up to 17 decides. */
  lemma TrialDecides(n: nat)
    requires 17 < n < 361
    ensures Prime(n) <==> Trial(n)
  {
    if !Prime(n) {
      var d :| 2 <= d < n && n % d == 0;
      Divided(n, d);
      var e := n / d;
      if d < 19 {
        SmallDivisor(n, d);
      } else {
        Smaller(n, d, e);
        Multiple(n, d, e);
        SmallDivisor(n, e);
      }
    }
  }

  lemma {:induction false} NoneBetween(p: nat, q: nat)
    requires p < q && Prime(p) && forall n :: p < n < q ==> !Prime(n)
    ensures PrimesBelow(q) == PrimesBelow(p) + [p]
    decreases q
  {
    hide Prime;
    if q == p + 1 {
    } else {
      assert !Prime(q - 1);
      NoneBetween(p, q - 1);
    }
  }

  /** Every number above `n` and below `q` fails the trial. */
  predicate AllFail(n: nat, q: nat)
    decreases q - n
  {
    n + 1 < q ==> !Trial(n + 1) && AllFail(n + 1, q)
  }

  lemma {:induction false} FailsAt(n: nat, q: nat, m: nat)
    requires AllFail(n, q) && n < m < q
    ensures !Trial(m)
    decreases m - n
  {
    hide Trial;
    if n + 1 == m {
    } else {
      FailsAt(n + 1, q, m);
    }
  }

  /** From one prime to the next. */
  lemma Next(p: nat, q: nat)
    requires 17 < p < q < 361 && Trial(p) && AllFail(p, q)
    ensures PrimesBelow(q) == PrimesBelow(p) + [p]
  {
    hide Prime, Trial, AllFail;
    TrialDecides(p);
    forall n | p < n < q
      ensures !Prime(n)
    {
      FailsAt(p, q, n);
      TrialDecides(n);
    }
    NoneBetween(p, q);
  }

  lemma SmallPrimes()
    ensures Prime(2) && Prime(3) && Prime(5) && Prime(7) && Prime(11) && Prime(13) && Prime(17)
  {}

  lemma NotPrime(n: nat, d: nat)
    requires 2 <= d < n && n % d == 0
    ensures !Prime(n)
  {}

  lemma UpTo19()
    ensures PrimesBelow(19) == [2, 3, 5, 7, 11, 13, 17]
  {
    SmallPrimes();
    assert PrimesBelow(2) == [] by {
      assert !Prime(0) && !Prime(1);
    }
    hide Prime, PrimesBelow;
    NotPrime(4, 2);
    NotPrime(6, 2);
    NotPrime(8, 2);
    NotPrime(9, 3);
    NotPrime(10, 2);
    NotPrime(12, 2);
    NotPrime(14, 2);
    NotPrime(15, 3);
    NotPrime(16, 2);
    NotPrime(18, 2);
    NoneBetween(2, 3);
    NoneBetween(3, 5);
    NoneBetween(5, 7);
    NoneBetween(7, 11);
    NoneBetween(11, 13);
    NoneBetween(13, 17);
    NoneBetween(17, 19);
  }

  lemma From19()
    ensures PrimesBelow(59) == PrimesBelow(19) + [19, 23, 29, 31, 37, 41, 43, 47, 53]
  {
    hide PrimesBelow;
    Next(19, 23);
    Next(23, 29);
    Next(29, 31);
    Next(31, 37);
    Next(37, 41);
    Next(41, 43);
    Next(43, 47);
    Next(47, 53);
    Next(53, 59);
  }

  lemma From59()
    ensures PrimesBelow(97) == PrimesBelow(59) + [59, 61, 67, 71, 73, 79, 83, 89]
  {
    hide PrimesBelow;
    Next(59, 61);
    Next(61, 67);
    Next(67, 71);
    Next(71, 73);
    Next(73, 79);
    Next(79, 83);
    Next(83, 89);
    Next(89, 97);
  }

  lemma From97()
    ensures PrimesBelow(137) == PrimesBelow(97) + [97, 101, 103, 107, 109, 113, 127, 131]
  {
    hide PrimesBelow;
    Next(97, 101);
    Next(101, 103);
    Next(103, 107);
    Next(107, 109);
    Next(109, 113);
    Next(113, 127);
    Next(127, 131);
    Next(131, 137);
  }

  lemma From137()
    ensures PrimesBelow(179) == PrimesBelow(137) + [137, 139, 149, 151, 157, 163, 167, 173]
  {
    hide PrimesBelow;
    Next(137, 139);
    Next(139, 149);
    Next(149, 151);
    Next(151, 157);
    Next(157, 163);
    Next(163, 167);
    Next(167, 173);
    Next(173, 179);
  }

  lemma From179()
    ensures PrimesBelow(227) == PrimesBelow(179) + [179, 181, 191, 193, 197, 199, 211, 223]
  {
    hide PrimesBelow;
    Next(179, 181);
    Next(181, 191);
    Next(191, 193);
    Next(193, 197);
    Next(197, 199);
    Next(199, 211);
    Next(211, 223);
    Next(223, 227);
  }

  lemma From227()
    ensures PrimesBelow(269) == PrimesBelow(227) + [227, 229, 233, 239, 241, 251, 257, 263]
  {
    hide PrimesBelow;
    Next(227, 229);
    Next(229, 233);
    Next(233, 239);
    Next(239, 241);
    Next(241, 251);
    Next(251, 257);
    Next(257, 263);
    Next(263, 269);
  }

  lemma From269()
    ensures PrimesBelow(312) == PrimesBelow(269) + [269, 271, 277, 281, 283, 293, 307, 311]
  {
    hide PrimesBelow;
    Next(269, 271);
    Next(271, 277);
    Next(277, 281);
    Next(281, 283);
    Next(283, 293);
    Next(293, 307);
    Next(307, 311);
    Next(311, 312);
  }

  /** The table holds the first 64 primes. */
  lemma TableIsPrimes()
    ensures |PrimesBelow(312)| == 64 && forall t: nat :: t < 64 ==> PrimesBelow(312)[t] == Table(t)
  {
    hide PrimesBelow;
    UpTo19();
    From19();
    From59();
    From97();
    From137();
    From179();
    From227();
    From269();
  }
}

/** Where the constants of SHA-256 come from: sections 4.2.2 and 5.3.3 of FIPS 180-4. */
module HashConstants {
  import opened Words
  import opened Primes
  import opened Fips180

  function Square(x: nat): nat { x * x }
  function Cube(x: nat): nat { x * x * x }

  /** `k` is the first 32 bits of the fractional part of the cube root of `p`. */
  ghost predicate CubeRootBits(k: Word, p: nat)
  {
    exists c: nat :: Cube(c * MODULUS + k) <= p * Cube(MODULUS) < Cube(c * MODULUS + k + 1)
  }

  /** `k` is the first 32 bits of the fractional part of the square root of `p`. */
  ghost predicate SquareRootBits(k: Word, p: nat)
  {
    exists c: nat :: Square(c * MODULUS + k) <= p * Square(MODULUS) < Square(c * MODULUS + k + 1)
  }

  lemma CubeRootIs(c: nat, k: Word, p: nat)
    requires Cube(c * MODULUS + k) <= p * Cube(MODULUS) < Cube(c * MODULUS + k + 1)
    ensures CubeRootBits(k, p)
  {}

  lemma SquareRootIs(c: nat, k: Word, p: nat)
    requires Square(c * MODULUS + k) <= p * Square(MODULUS) < Square(c * MODULUS + k + 1)
    ensures SquareRootBits(k, p)
  {}

  lemma Constants0()
    ensures forall t: nat :: 0 <= t < 8 ==> CubeRootBits(K(t), Table(t))
  {
    hide CubeRootBits;
    CubeRootIs(1, 0x428a2f98, 2);
    CubeRootIs(1, 0x71374491, 3);
    CubeRootIs(1, 0xb5c0fbcf, 5);
    CubeRootIs(1, 0xe9b5dba5, 7);
    CubeRootIs(2, 0x3956c25b, 11);
    CubeRootIs(2, 0x59f111f1, 13);
    CubeRootIs(2, 0x923f82a4, 17);
    CubeRootIs(2, 0xab1c5ed5, 19);
  }

  lemma Constants8()
    ensures forall t: nat :: 8 <= t < 16 ==> CubeRootBits(K(t), Table(t))
  {
    hide CubeRootBits;
    CubeRootIs(2, 0xd807aa98, 23);
    CubeRootIs(3, 0x12835b01, 29);
    CubeRootIs(3, 0x243185be, 31);
    CubeRootIs(3, 0x550c7dc3, 37);
    CubeRootIs(3, 0x72be5d74, 41);
    CubeRootIs(3, 0x80deb1fe, 43);
    CubeRootIs(3, 0x9bdc06a7, 47);
    CubeRootIs(3, 0xc19bf174, 53);
  }

  lemma Constants16()
    ensures forall t: nat :: 16 <= t < 24 ==> CubeRootBits(K(t), Table(t))
  {
    hide CubeRootBits;
    CubeRootIs(3, 0xe49b69c1, 59);
    CubeRootIs(3, 0xefbe4786, 61);
    CubeRootIs(4, 0x0fc19dc6, 67);
    CubeRootIs(4, 0x240ca1cc, 71);
    CubeRootIs(4, 0x2de92c6f, 73);
    CubeRootIs(4, 0x4a7484aa, 79);
    CubeRootIs(4, 0x5cb0a9dc, 83);
    CubeRootIs(4, 0x76f988da, 89);
  }

  lemma Constants24()
    ensures forall t: nat :: 24 <= t < 32 ==> CubeRootBits(K(t), Table(t))
  {
    hide CubeRootBits;
    CubeRootIs(4, 0x983e5152, 97);
    CubeRootIs(4, 0xa831c66d, 101);
    CubeRootIs(4, 0xb00327c8, 103);
    CubeRootIs(4, 0xbf597fc7, 107);
    CubeRootIs(4, 0xc6e00bf3, 109);
    CubeRootIs(4, 0xd5a79147, 113);
    CubeRootIs(5, 0x06ca6351, 127);
    CubeRootIs(5, 0x14292967, 131);
  }

  lemma Constants32()
    ensures forall t: nat :: 32 <= t < 40 ==> CubeRootBits(K(t), Table(t))
  {
    hide CubeRootBits;
    CubeRootIs(5, 0x27b70a85, 137);
    CubeRootIs(5, 0x2e1b2138, 139);
    CubeRootIs(5, 0x4d2c6dfc, 149);
    CubeRootIs(5, 0x53380d13, 151);
    CubeRootIs(5, 0x650a7354, 157);
    CubeRootIs(5, 0x766a0abb, 163);
    CubeRootIs(5, 0x81c2c92e, 167);
    CubeRootIs(5, 0x92722c85, 173);
  }

  lemma Constants40()
    ensures forall t: nat :: 40 <= t < 48 ==> CubeRootBits(K(t), Table(t))
  {
    hide CubeRootBits;
    CubeRootIs(5, 0xa2bfe8a1, 179);
    CubeRootIs(5, 0xa81a664b, 181);
    CubeRootIs(5, 0xc24b8b70, 191);
    CubeRootIs(5, 0xc76c51a3, 193);
    CubeRootIs(5, 0xd192e819, 197);
    CubeRootIs(5, 0xd6990624, 199);
    CubeRootIs(5, 0xf40e3585, 211);
    CubeRootIs(6, 0x106aa070, 223);
  }

  lemma Constants48()
    ensures forall t: nat :: 48 <= t < 56 ==> CubeRootBits(K(t), Table(t))
  {
    hide CubeRootBits;
    CubeRootIs(6, 0x19a4c116, 227);
    CubeRootIs(6, 0x1e376c08, 229);
    CubeRootIs(6, 0x2748774c, 233);
    CubeRootIs(6, 0x34b0bcb5, 239);
    CubeRootIs(6, 0x391c0cb3, 241);
    CubeRootIs(6, 0x4ed8aa4a, 251);
    CubeRootIs(6, 0x5b9cca4f, 257);
    CubeRootIs(6, 0x682e6ff3, 263);
  }

  lemma Constants56()
    ensures forall t: nat :: 56 <= t < 64 ==> CubeRootBits(K(t), Table(t))
  {
    hide CubeRootBits;
    CubeRootIs(6, 0x748f82ee, 269);
    CubeRootIs(6, 0x78a5636f, 271);
    CubeRootIs(6, 0x84c87814, 277);
    CubeRootIs(6, 0x8cc70208, 281);
    CubeRootIs(6, 0x90befffa, 283);
    CubeRootIs(6, 0xa4506ceb, 293);
    CubeRootIs(6, 0xbef9a3f7, 307);
    CubeRootIs(6, 0xc67178f2, 311);
  }

  /** Every round constant is what the standard says: the first 32 bits of the fractional
      part of the cube root of the prime with the same number. */
  lemma RoundConstants(t: nat)
    requires t < 64
    ensures |PrimesBelow(312)| == 64 && CubeRootBits(K(t), PrimesBelow(312)[t])
  {
    hide CubeRootBits, PrimesBelow, K, Table;
    TableIsPrimes();
    Constants0();
    Constants8();
    Constants16();
    Constants24();
    Constants32();
    Constants40();
    Constants48();
    Constants56();
  }

  /** The initial hash value, from the square roots of the first eight primes. */
  lemma InitialValue()
    ensures var p := PrimesBelow(312);
            && |p| == 64
            && SquareRootBits(IV.a, p[0]) && SquareRootBits(IV.b, p[1]) && SquareRootBits(IV.c, p[2])
            && SquareRootBits(IV.d, p[3]) && SquareRootBits(IV.e, p[4]) && SquareRootBits(IV.f, p[5])
            && SquareRootBits(IV.g, p[6]) && SquareRootBits(IV.h, p[7])
  {
    hide PrimesBelow, SquareRootBits;
    TableIsPrimes();
    SquareRootIs(1, 0x6A09E667, 2);
    SquareRootIs(1, 0xBB67AE85, 3);
    SquareRootIs(2, 0x3C6EF372, 5);
    SquareRootIs(2, 0xA54FF53A, 7);
    SquareRootIs(3, 0x510E527F, 11);
    SquareRootIs(3, 0x9B05688C, 13);
    SquareRootIs(4, 0x1F83D9AB, 17);
    SquareRootIs(4, 0x5BE0CD19, 19);
  }

  lemma CubeGrows(x: nat, y: nat)
    requires x <= y
    ensures Cube(x) <= Cube(y)
  {
    assert x * x <= y * y;
    assert x * x * x <= y * y * x <= y * y * y;
  }

  lemma SquareGrows(x: nat, y: nat)
    requires x <= y
    ensures Square(x) <= Square(y)
  {
    assert x * x <= x * y <= y * y;
  }

  lemma SamePlace(c: nat, k: Word, d: nat, l: Word)
    requires c * MODULUS + k == d * MODULUS + l
    ensures k == l
  {}

  /** Those conditions leave no choice. */
  lemma BitsUnique(k: Word, l: Word, p: nat)
    ensures CubeRootBits(k, p) && CubeRootBits(l, p) ==> k == l
    ensures SquareRootBits(k, p) && SquareRootBits(l, p) ==> k == l
  {
    hide Cube, Square;
    if CubeRootBits(k, p) && CubeRootBits(l, p) {
      var c: nat :| Cube(c * MODULUS + k) <= p * Cube(MODULUS) < Cube(c * MODULUS + k + 1);
      var d: nat :| Cube(d * MODULUS + l) <= p * Cube(MODULUS) < Cube(d * MODULUS + l + 1);
      var x, y := c * MODULUS + k, d * MODULUS + l;
      if x < y {
        CubeGrows(x + 1, y);
      } else if y < x {
        CubeGrows(y + 1, x);
      }
      SamePlace(c, k, d, l);
    }
    if SquareRootBits(k, p) && SquareRootBits(l, p) {
      var c: nat :| Square(c * MODULUS + k) <= p * Square(MODULUS) < Square(c * MODULUS + k + 1);
      var d: nat :| Square(d * MODULUS + l) <= p * Square(MODULUS) < Square(d * MODULUS + l + 1);
      var x, y := c * MODULUS + k, d * MODULUS + l;
      if x < y {
        SquareGrows(x + 1, y);
      } else if y < x {
        SquareGrows(y + 1, x);
      }
      SamePlace(c, k, d, l);
    }
  }
}
