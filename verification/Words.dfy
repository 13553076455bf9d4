module Bytes {
  type Byte = b: int | 0 <= b < 256

  function Sum(s: seq<Byte>): nat
  {
    if s == [] then 0 else Sum(s[..|s| - 1]) + s[|s| - 1]
  }

  lemma DivideTwice(u: nat)
    ensures u / 256 / 256 == u / 0x1_0000
    ensures u / 256 / 0x1_0000 == u / 0x100_0000
  {}
}

/** 32-bit words: addition on the integers modulo 2^32, bit operations on `bv32`. */
module Words {
  const MODULUS := 0x1_0000_0000
  type Word = w: int | 0 <= w < MODULUS

  function Bits(w: Word): bv32 { w as bv32 }
  function Value(b: bv32): Word { b as int }

  function Add(x: Word, y: Word): Word { (x + y) % MODULUS }

  lemma AddAssoc(x: Word, y: Word, z: Word)
    ensures Add(Add(x, y), z) == Add(x, Add(y, z))
  {
    if x + y < MODULUS { assert Add(x, y) == x + y; } else { assert Add(x, y) == x + y - MODULUS; }
    if y + z < MODULUS { assert Add(y, z) == y + z; } else { assert Add(y, z) == y + z - MODULUS; }
  }

  lemma AddComm(x: Word, y: Word)
    ensures Add(x, y) == Add(y, x)
  {}

  lemma AddThree(x: Word, y: Word, z: Word)
    ensures Add(Add(x, y), z) == (x + y + z) % MODULUS
  {
    if x + y < MODULUS { assert Add(x, y) == x + y; } else { assert Add(x, y) == x + y - MODULUS; }
  }

  lemma AddFour(x: Word, y: Word, z: Word, u: Word)
    ensures Add(Add(Add(x, y), z), u) == (x + y + z + u) % MODULUS
  {
    AddThree(x, y, z);
    ModPlus(x + y + z, u);
  }

  lemma ModPlus(x: nat, y: nat)
    ensures (x % MODULUS + y) % MODULUS == (x + y) % MODULUS
  {}

  lemma SameBits(b: bv32)
    ensures Bits(Value(b)) == b
  {}
}

/** Division with remainder by a variable divisor. */
module Division {

  lemma MulOrder(a: nat, b: nat, d: nat)
    ensures a <= b ==> a * d <= b * d
  {}

  lemma ModUnique(x: nat, d: nat, q: nat, r: nat)
    requires d > 0 && r < d && x == q * d + r
    ensures x % d == r
  {
    var k := x / d;
    assert x == k * d + x % d;
    MulOrder(k + 1, q, d);
    MulOrder(q + 1, k, d);
    assert (k + 1) * d == k * d + d && (q + 1) * d == q * d + d;
    assert k == q;
  }

  lemma ModAdd(x: nat, d: nat, k: nat)
    requires d > 0
    ensures (x + k * d) % d == x % d
  {
    var q := x / d;
    assert x + k * d == (q + k) * d + x % d;
    ModUnique(x + k * d, d, q + k, x % d);
  }
}

module Options {
  datatype Option<T> = None | Some(value: T)
}

module Sequences {

  lemma TakeDrop<T>(a: seq<T>, b: seq<T>, k: nat)
    requires k <= |a|
    ensures (a + b)[..k] == a[..k]
    ensures (a + b)[k..] == a[k..] + b
  {}
}

/** Numbers as bytes, in either order. */
module Endian {
  import opened Bytes

  /** `n` as `k` bytes, most significant first; higher digits are dropped. */
  function BigEndian(n: nat, k: nat): (s: seq<Byte>)
    ensures |s| == k
  {
    if k == 0 then [] else BigEndian(n / 256, k - 1) + [n % 256]
  }

  /** `n` as `k` bytes, least significant first; higher digits are dropped. */
  function LittleEndian(n: nat, k: nat): (s: seq<Byte>)
    ensures |s| == k
  {
    if k == 0 then [] else [n % 256] + LittleEndian(n / 256, k - 1)
  }

  function Power256(k: nat): (p: nat)
    ensures p > 0
  {
    if k == 0 then 1 else 256 * Power256(k - 1)
  }

  lemma DropDigit(n: nat, q: nat, p: nat)
    ensures (n + q * (256 * p)) % 256 == n % 256
    ensures (n + q * (256 * p)) / 256 == n / 256 + q * p
  {
    assert n + q * (256 * p) == n + 256 * (q * p);
  }

  /** Only the low `k` digits of a number are written. */
  lemma {:induction false} EndianTruncates(n: nat, q: nat, k: nat)
    ensures BigEndian(n + q * Power256(k), k) == BigEndian(n, k)
    ensures LittleEndian(n + q * Power256(k), k) == LittleEndian(n, k)
  {
    if k == 0 {
    } else {
      DropDigit(n, q, Power256(k - 1));
      EndianTruncates(n / 256, q, k - 1);
    }
  }

  /** Two numbers written one after the other are one number written. */
  lemma JoinHalves(hi: nat, lo: nat)
    requires lo < 0x1_0000_0000
    ensures BigEndian(hi * 0x1_0000_0000 + lo, 8) == BigEndian(hi, 4) + BigEndian(lo, 4)
    ensures LittleEndian(hi * 0x1_0000_0000 + lo, 8) == LittleEndian(lo, 4) + LittleEndian(hi, 4)
  {
    hide BigEndian, LittleEndian;
    assert Power256(4) == 0x1_0000_0000;
    JoinBig(hi, lo, 4);
    JoinLittle(hi, lo, 4);
  }

  lemma {:induction false} JoinBig(hi: nat, lo: nat, k: nat)
    requires lo < Power256(k)
    ensures BigEndian(hi * Power256(k) + lo, 4 + k) == BigEndian(hi, 4) + BigEndian(lo, k)
  {
    if k == 0 {
      assert hi * Power256(0) + lo == hi;
      assert BigEndian(hi, 4) + [] == BigEndian(hi, 4);
    } else {
      var p := Power256(k - 1);
      DropDigit(lo, hi, p);
      assert hi * Power256(k) + lo == lo + hi * (256 * p);
      JoinBig(hi, lo / 256, k - 1);
    }
  }

  lemma LittleNext(n: nat, k: nat)
    requires k > 0
    ensures LittleEndian(n, k) == [n % 256] + LittleEndian(n / 256, k - 1)
  {}

  lemma JoinStep(hi: nat, lo: nat, p: nat)
    requires lo < 256 * p
    ensures lo / 256 < p
    ensures (hi * (256 * p) + lo) % 256 == lo % 256
    ensures (hi * (256 * p) + lo) / 256 == hi * p + lo / 256
  {
    DropDigit(lo, hi, p);
  }

  lemma {:induction false} JoinLittle(hi: nat, lo: nat, k: nat)
    requires lo < Power256(k)
    ensures LittleEndian(hi * Power256(k) + lo, k + 4) == LittleEndian(lo, k) + LittleEndian(hi, 4)
    decreases k, 1
  {
    if k == 0 {
      assert hi * Power256(0) + lo == hi;
      assert [] + LittleEndian(hi, 4) == LittleEndian(hi, 4);
    } else {
      LittleStep(hi, lo, k);
    }
  }

  lemma {:induction false} LittleStep(hi: nat, lo: nat, k: nat)
    requires k > 0 && lo < Power256(k)
    ensures LittleEndian(hi * Power256(k) + lo, k + 4) == LittleEndian(lo, k) + LittleEndian(hi, 4)
    decreases k, 0
  {
    hide LittleEndian;
    var p := Power256(k - 1);
    JoinStep(hi, lo, p);
    JoinLittle(hi, lo / 256, k - 1);
    LittleNext(hi * Power256(k) + lo, k + 4);
    LittleNext(lo, k);
    assert [lo % 256] + (LittleEndian(lo / 256, k - 1) + LittleEndian(hi, 4)) == LittleEndian(lo, k) + LittleEndian(hi, 4);
  }

  /** The four digits of a word. */
  lemma FourDigits(u: nat)
    ensures BigEndian(u, 4) == [u / 0x100_0000 % 256, u / 0x1_0000 % 256, u / 0x100 % 256, u % 256]
  {
    DivideTwice(u);
    DivideTwice(u / 256);
    assert BigEndian(u, 4) == BigEndian(u / 256, 3) + [u % 256];
    assert BigEndian(u / 256, 3) == BigEndian(u / 256 / 256, 2) + [u / 256 % 256];
    assert BigEndian(u / 256 / 256, 2) == BigEndian(u / 256 / 256 / 256, 1) + [u / 256 / 256 % 256];
    assert BigEndian(u / 256 / 256 / 256, 1) == [u / 256 / 256 / 256 % 256];
  }
}
