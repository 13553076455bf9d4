/** The auxiliary functions of MD5, as section 3.4 of RFC 1321 writes them and as the
    macros of openwrt/scripts/mkhash.c compute them. */
module Md5Words {
  import opened Words

  /** The macro named in a STEP line. */
  datatype Mix = F | G | H | H2 | I

  function Macro(f: Mix, x: Word, y: Word, z: Word): Word
  {
    var x, y, z := Bits(x), Bits(y), Bits(z);
    match f
    case F => Value(z ^ (x & (y ^ z)))
    case G => Value(y ^ (z & (x ^ y)))
    case H => Value((x ^ y) ^ z)
    case H2 => Value(x ^ (y ^ z))
    case I => Value(y ^ (x | !z))
  }

  /** The function of each of the four rounds. */
  function Auxiliary(round: nat, x: Word, y: Word, z: Word): Word
  {
    var x, y, z := Bits(x), Bits(y), Bits(z);
    if round == 0 then Value((x & y) | (!x & z))
    else if round == 1 then Value((x & z) | (y & !z))
    else if round == 2 then Value(x ^ y ^ z)
    else Value(y ^ (x | !z))
  }

  predicate Implements(f: Mix, round: nat)
  {
    match f
    case F => round == 0
    case G => round == 1
    case H => round == 2
    case H2 => round == 2
    case I => round == 3
  }

  lemma FBits(x: bv32, y: bv32, z: bv32)
    ensures z ^ (x & (y ^ z)) == (x & y) | (!x & z)
  {}

  lemma GBits(x: bv32, y: bv32, z: bv32)
    ensures y ^ (z & (x ^ y)) == (x & z) | (y & !z)
  {}

  lemma HBits(x: bv32, y: bv32, z: bv32)
    ensures x ^ (y ^ z) == x ^ y ^ z
  {}

  lemma MacroForms(f: Mix, round: nat, x: Word, y: Word, z: Word)
    requires Implements(f, round)
    ensures Macro(f, x, y, z) == Auxiliary(round, x, y, z)
  {
    hide Bits, Value;
    match f
    case F => FBits(Bits(x), Bits(y), Bits(z));
    case G => GBits(Bits(x), Bits(y), Bits(z));
    case H =>
    case H2 => HBits(Bits(x), Bits(y), Bits(z));
    case I =>
  }

  /** The rotation inside STEP, and the circular shift it stands for. */
  function RotateMacro(a: bv32, s: nat): bv32
    requires 0 < s < 32
  {
    (a << s) | ((a & 0xffffffff) >> (32 - s))
  }

  function CircularShift(a: bv32, s: nat): bv32
    requires 0 < s < 32
  {
    a.RotateLeft(s)
  }

  /** The per-operation shift amounts of section 3.4, four to a round. */
  function Shift(i: nat): (s: nat)
    requires i < 64
    ensures 0 < s < 32
  {
    if i < 16 then [7, 12, 17, 22][i % 4]
    else if i < 32 then [5, 9, 14, 20][i % 4]
    else if i < 48 then [4, 11, 16, 23][i % 4]
    else [6, 10, 15, 21][i % 4]
  }

  lemma RotateBits(a: bv32)
    ensures RotateMacro(a, 7) == CircularShift(a, 7)
    ensures RotateMacro(a, 12) == CircularShift(a, 12)
    ensures RotateMacro(a, 17) == CircularShift(a, 17)
    ensures RotateMacro(a, 22) == CircularShift(a, 22)
    ensures RotateMacro(a, 5) == CircularShift(a, 5)
    ensures RotateMacro(a, 9) == CircularShift(a, 9)
    ensures RotateMacro(a, 14) == CircularShift(a, 14)
    ensures RotateMacro(a, 20) == CircularShift(a, 20)
    ensures RotateMacro(a, 4) == CircularShift(a, 4)
    ensures RotateMacro(a, 11) == CircularShift(a, 11)
    ensures RotateMacro(a, 16) == CircularShift(a, 16)
    ensures RotateMacro(a, 23) == CircularShift(a, 23)
    ensures RotateMacro(a, 6) == CircularShift(a, 6)
    ensures RotateMacro(a, 10) == CircularShift(a, 10)
    ensures RotateMacro(a, 15) == CircularShift(a, 15)
    ensures RotateMacro(a, 21) == CircularShift(a, 21)
  {}

  lemma RotateForms(a: bv32, i: nat)
    requires i < 64
    ensures RotateMacro(a, Shift(i)) == CircularShift(a, Shift(i))
  {
    hide RotateMacro, CircularShift;
    RotateBits(a);
  }
}

/** The standard: MD5 as section 3 of RFC 1321 defines it. */
module Rfc1321 {
  import opened Bytes
  import opened BlockHash
  import opened Endian
  import opened Words
  import opened Md5Words

  datatype State = State(a: Word, b: Word, c: Word, d: Word)

  // Section 3.3.
  const IV: State := State(0x67452301, 0xefcdab89, 0x98badcfe, 0x10325476)

  // Section 3.4: the table T, entry i + 1 of the standard at index i.
  function T(i: nat): Word
    requires i < 64
  {
    if i < 16 then
    [0xd76aa478, 0xe8c7b756, 0x242070db, 0xc1bdceee, 0xf57c0faf, 0x4787c62a, 0xa8304613, 0xfd469501,
     0x698098d8, 0x8b44f7af, 0xffff5bb1, 0x895cd7be, 0x6b901122, 0xfd987193, 0xa679438e, 0x49b40821][i]
    else if i < 32 then
    [0xf61e2562, 0xc040b340, 0x265e5a51, 0xe9b6c7aa, 0xd62f105d, 0x02441453, 0xd8a1e681, 0xe7d3fbc8,
     0x21e1cde6, 0xc33707d6, 0xf4d50d87, 0x455a14ed, 0xa9e3e905, 0xfcefa3f8, 0x676f02d9, 0x8d2a4c8a][i - 16]
    else if i < 48 then
    [0xfffa3942, 0x8771f681, 0x6d9d6122, 0xfde5380c, 0xa4beea44, 0x4bdecfa9, 0xf6bb4b60, 0xbebfbc70,
     0x289b7ec6, 0xeaa127fa, 0xd4ef3085, 0x04881d05, 0xd9d4d039, 0xe6db99e5, 0x1fa27cf8, 0xc4ac5665][i - 32]
    else
    [0xf4292244, 0x432aff97, 0xab9423a7, 0xfc93a039, 0x655b59c3, 0x8f0ccc92, 0xffeff47d, 0x85845dd1,
     0x6fa87e4f, 0xfe2ce6e0, 0xa3014314, 0x4e0811a1, 0xf7537e82, 0xbd3af235, 0x2ad7d2bb, 0xeb86d391][i - 48]
  }

  /** Which message word operation `i` uses. */
  function WordIndex(i: nat): (k: nat)
    requires i < 64
    ensures k < 16
  {
    if i < 16 then i else if i < 32 then (5 * i + 1) % 16 else if i < 48 then (3 * i + 5) % 16 else (7 * i) % 16
  }

  /** Section 2: the k-th word of a block, first byte least significant. */
  function WordAt(b: Block, k: nat): Word
    requires k < 16
  {
    b[4 * k] + b[4 * k + 1] as int * 0x100 + b[4 * k + 2] as int * 0x1_0000 + b[4 * k + 3] as int * 0x100_0000
  }

  /** Section 3.4: a = b + ((a + f(b,c,d) + X[k] + T[i]) <<< s), then the registers rotate. */
  function Operation(v: State, b: Block, i: nat): State
    requires i < 64
  {
    var sum := Add(Add(Add(v.a, Auxiliary(i / 16, v.b, v.c, v.d)), WordAt(b, WordIndex(i))), T(i));
    State(v.d, Add(v.b, Value(CircularShift(Bits(sum), Shift(i)))), v.b, v.c)
  }

  function Steps(v: State, b: Block, n: nat): State
    requires n <= 64
  {
    if n == 0 then v else Operation(Steps(v, b, n - 1), b, n - 1)
  }

  function AddRegs(x: State, y: State): State
  {
    State(Add(x.a, y.a), Add(x.b, y.b), Add(x.c, y.c), Add(x.d, y.d))
  }

  function Compress(v: State, b: Block): State
  {
    AddRegs(v, Steps(v, b, 64))
  }

  function Digest(v: State): (s: seq<Byte>)
    ensures |s| == 16
  {
    LittleEndian(v.a, 4) + LittleEndian(v.b, 4) + LittleEndian(v.c, 4) + LittleEndian(v.d, 4)
  }

  /** MD5 of a whole message; section 3.2 keeps the low 64 bits of the bit count. */
  function Hash(m: seq<Byte>): (d: seq<Byte>)
    ensures |d| == 16
  {
    Digest(Fold(Compress, IV, Padded(m, LittleEndian(8 * |m|, 8))))
  }
}

/** MD5_body of openwrt/scripts/mkhash.c. */
module Md5Body {
  import opened Bytes
  import opened BlockHash
  import opened Words
  import opened Md5Words
  import opened Rfc1321

  /** SET and GET: a message word, read in little-endian byte order. */
  function Get(x: Block, n: nat): Word
    requires n < 16
  {
    ((x[4 * n + 3] as int * 256 + x[4 * n + 2]) * 256 + x[4 * n + 1]) * 256 + x[4 * n]
  }

  lemma AddOrder(a: Word, f: Word, x: Word, t: Word)
    ensures Add(a, Add(Add(f, x), t)) == Add(Add(Add(a, f), x), t)
  {
    hide Add;
    AddAssoc(a, Add(f, x), t);
    AddAssoc(a, f, x);
  }

  /** One STEP line, with the registers named as the line names them. */
  method Step(f: Mix, a: Word, b: Word, c: Word, d: Word, k: nat, t: Word, s: nat, ghost i: nat, ghost v: State, x: Block)
    returns (r: Word)
    requires i < 64 && Implements(f, i / 16) && k == WordIndex(i) && t == T(i) && s == Shift(i)
    requires Steps(v, x, i) == State(a, b, c, d)
    ensures Steps(v, x, i + 1) == State(d, r, b, c)
  {
    hide Macro, Auxiliary, RotateMacro, CircularShift, Bits, Value, WordIndex, Shift, Add;
    MacroForms(f, i / 16, b, c, d);
    AddOrder(a, Macro(f, b, c, d), Get(x, k), t);
    r := Add(a, Add(Add(Macro(f, b, c, d), Get(x, k)), t));
    RotateForms(Bits(r), i);
    AddComm(b, Value(RotateMacro(Bits(r), s)));
    r := Value(RotateMacro(Bits(r), s));
    r := Add(r, b);
  }

  method Round1(a0: Word, b0: Word, c0: Word, d0: Word, x: Block, ghost v: State) returns (a: Word, b: Word, c: Word, d: Word)
    requires Steps(v, x, 0) == State(a0, b0, c0, d0)
    ensures Steps(v, x, 16) == State(a, b, c, d)
  {
    hide Steps;
    a, b, c, d := a0, b0, c0, d0;
    a := Step(F, a, b, c, d, 0, 0xd76aa478, 7, 0, v, x);
    d := Step(F, d, a, b, c, 1, 0xe8c7b756, 12, 1, v, x);
    c := Step(F, c, d, a, b, 2, 0x242070db, 17, 2, v, x);
    b := Step(F, b, c, d, a, 3, 0xc1bdceee, 22, 3, v, x);
    a := Step(F, a, b, c, d, 4, 0xf57c0faf, 7, 4, v, x);
    d := Step(F, d, a, b, c, 5, 0x4787c62a, 12, 5, v, x);
    c := Step(F, c, d, a, b, 6, 0xa8304613, 17, 6, v, x);
    b := Step(F, b, c, d, a, 7, 0xfd469501, 22, 7, v, x);
    a := Step(F, a, b, c, d, 8, 0x698098d8, 7, 8, v, x);
    d := Step(F, d, a, b, c, 9, 0x8b44f7af, 12, 9, v, x);
    c := Step(F, c, d, a, b, 10, 0xffff5bb1, 17, 10, v, x);
    b := Step(F, b, c, d, a, 11, 0x895cd7be, 22, 11, v, x);
    a := Step(F, a, b, c, d, 12, 0x6b901122, 7, 12, v, x);
    d := Step(F, d, a, b, c, 13, 0xfd987193, 12, 13, v, x);
    c := Step(F, c, d, a, b, 14, 0xa679438e, 17, 14, v, x);
    b := Step(F, b, c, d, a, 15, 0x49b40821, 22, 15, v, x);
  }

  method Round2(a0: Word, b0: Word, c0: Word, d0: Word, x: Block, ghost v: State) returns (a: Word, b: Word, c: Word, d: Word)
    requires Steps(v, x, 16) == State(a0, b0, c0, d0)
    ensures Steps(v, x, 32) == State(a, b, c, d)
  {
    hide Steps;
    a, b, c, d := a0, b0, c0, d0;
    a := Step(G, a, b, c, d, 1, 0xf61e2562, 5, 16, v, x);
    d := Step(G, d, a, b, c, 6, 0xc040b340, 9, 17, v, x);
    c := Step(G, c, d, a, b, 11, 0x265e5a51, 14, 18, v, x);
    b := Step(G, b, c, d, a, 0, 0xe9b6c7aa, 20, 19, v, x);
    a := Step(G, a, b, c, d, 5, 0xd62f105d, 5, 20, v, x);
    d := Step(G, d, a, b, c, 10, 0x02441453, 9, 21, v, x);
    c := Step(G, c, d, a, b, 15, 0xd8a1e681, 14, 22, v, x);
    b := Step(G, b, c, d, a, 4, 0xe7d3fbc8, 20, 23, v, x);
    a := Step(G, a, b, c, d, 9, 0x21e1cde6, 5, 24, v, x);
    d := Step(G, d, a, b, c, 14, 0xc33707d6, 9, 25, v, x);
    c := Step(G, c, d, a, b, 3, 0xf4d50d87, 14, 26, v, x);
    b := Step(G, b, c, d, a, 8, 0x455a14ed, 20, 27, v, x);
    a := Step(G, a, b, c, d, 13, 0xa9e3e905, 5, 28, v, x);
    d := Step(G, d, a, b, c, 2, 0xfcefa3f8, 9, 29, v, x);
    c := Step(G, c, d, a, b, 7, 0x676f02d9, 14, 30, v, x);
    b := Step(G, b, c, d, a, 12, 0x8d2a4c8a, 20, 31, v, x);
  }

  method Round3(a0: Word, b0: Word, c0: Word, d0: Word, x: Block, ghost v: State) returns (a: Word, b: Word, c: Word, d: Word)
    requires Steps(v, x, 32) == State(a0, b0, c0, d0)
    ensures Steps(v, x, 48) == State(a, b, c, d)
  {
    hide Steps;
    a, b, c, d := a0, b0, c0, d0;
    a := Step(H, a, b, c, d, 5, 0xfffa3942, 4, 32, v, x);
    d := Step(H2, d, a, b, c, 8, 0x8771f681, 11, 33, v, x);
    c := Step(H, c, d, a, b, 11, 0x6d9d6122, 16, 34, v, x);
    b := Step(H2, b, c, d, a, 14, 0xfde5380c, 23, 35, v, x);
    a := Step(H, a, b, c, d, 1, 0xa4beea44, 4, 36, v, x);
    d := Step(H2, d, a, b, c, 4, 0x4bdecfa9, 11, 37, v, x);
    c := Step(H, c, d, a, b, 7, 0xf6bb4b60, 16, 38, v, x);
    b := Step(H2, b, c, d, a, 10, 0xbebfbc70, 23, 39, v, x);
    a := Step(H, a, b, c, d, 13, 0x289b7ec6, 4, 40, v, x);
    d := Step(H2, d, a, b, c, 0, 0xeaa127fa, 11, 41, v, x);
    c := Step(H, c, d, a, b, 3, 0xd4ef3085, 16, 42, v, x);
    b := Step(H2, b, c, d, a, 6, 0x04881d05, 23, 43, v, x);
    a := Step(H, a, b, c, d, 9, 0xd9d4d039, 4, 44, v, x);
    d := Step(H2, d, a, b, c, 12, 0xe6db99e5, 11, 45, v, x);
    c := Step(H, c, d, a, b, 15, 0x1fa27cf8, 16, 46, v, x);
    b := Step(H2, b, c, d, a, 2, 0xc4ac5665, 23, 47, v, x);
  }

  method Round4(a0: Word, b0: Word, c0: Word, d0: Word, x: Block, ghost v: State) returns (a: Word, b: Word, c: Word, d: Word)
    requires Steps(v, x, 48) == State(a0, b0, c0, d0)
    ensures Steps(v, x, 64) == State(a, b, c, d)
  {
    hide Steps;
    a, b, c, d := a0, b0, c0, d0;
    a := Step(I, a, b, c, d, 0, 0xf4292244, 6, 48, v, x);
    d := Step(I, d, a, b, c, 7, 0x432aff97, 10, 49, v, x);
    c := Step(I, c, d, a, b, 14, 0xab9423a7, 15, 50, v, x);
    b := Step(I, b, c, d, a, 5, 0xfc93a039, 21, 51, v, x);
    a := Step(I, a, b, c, d, 12, 0x655b59c3, 6, 52, v, x);
    d := Step(I, d, a, b, c, 3, 0x8f0ccc92, 10, 53, v, x);
    c := Step(I, c, d, a, b, 10, 0xffeff47d, 15, 54, v, x);
    b := Step(I, b, c, d, a, 1, 0x85845dd1, 21, 55, v, x);
    a := Step(I, a, b, c, d, 8, 0x6fa87e4f, 6, 56, v, x);
    d := Step(I, d, a, b, c, 15, 0xfe2ce6e0, 10, 57, v, x);
    c := Step(I, c, d, a, b, 6, 0xa3014314, 15, 58, v, x);
    b := Step(I, b, c, d, a, 13, 0x4e0811a1, 21, 59, v, x);
    a := Step(I, a, b, c, d, 4, 0xf7537e82, 6, 60, v, x);
    d := Step(I, d, a, b, c, 11, 0xbd3af235, 10, 61, v, x);
    c := Step(I, c, d, a, b, 2, 0x2ad7d2bb, 15, 62, v, x);
    b := Step(I, b, c, d, a, 9, 0xeb86d391, 21, 63, v, x);
  }

  lemma StepsEnds(v: State, x: Block)
    ensures Steps(v, x, 0) == v
    ensures Compress(v, x) == AddRegs(v, Steps(v, x, 64))
  {
    hide Operation, AddRegs;
  }

  /** MD5_body on registers: the do-while over 64-byte blocks.  It ends because the
      size is a positive multiple of 64. */
  method Body(v: State, data: seq<Byte>) returns (r: State)
    requires |data| > 0 && |data| % 64 == 0
    ensures r == Fold(Compress, v, data)
  {
    hide Compress, Steps;
    var a, b, c, d := v.a, v.b, v.c, v.d;
    var p, size := 0, |data|;
    while true
      invariant 0 <= p && size == |data| - p && size > 0 && size % 64 == 0
      invariant Fold(Compress, State(a, b, c, d), data[p..]) == Fold(Compress, v, data)
      decreases size
    {
      var x: Block := data[p..p + 64];
      ghost var saved := State(a, b, c, d);
      var saved_a, saved_b, saved_c, saved_d := a, b, c, d;
      StepsEnds(saved, x);
      a, b, c, d := Round1(a, b, c, d, x, saved);
      a, b, c, d := Round2(a, b, c, d, x, saved);
      a, b, c, d := Round3(a, b, c, d, x, saved);
      a, b, c, d := Round4(a, b, c, d, x, saved);
      a, b, c, d := Add(a, saved_a), Add(b, saved_b), Add(c, saved_c), Add(d, saved_d);
      assert State(a, b, c, d) == Compress(saved, x);
      assert data[p..][..64] == x && data[p..][64..] == data[p + 64..];
      p := p + 64;
      size := size - 64;
      if size == 0 {
        break;
      }
    }
    assert data[p..] == [];
    r := State(a, b, c, d);
  }
}

/** The incremental MD5 of openwrt/scripts/mkhash.c. */
module Md5 {
  import opened Bytes
  import opened BlockHash
  import opened Endian
  import opened Words
  import opened Rfc1321
  import opened Md5Body

  const LO := 0x2000_0000                    // lo keeps 29 bits
  const COUNTER := 0x2000_0000_0000_0000     // lo and hi together count bytes modulo 2^61

  /** The split counter after `size` more bytes. */
  function Counted(lo: nat, hi: Word, size: nat): (int, Word)
  {
    var lo' := (lo + size) % LO;
    var hi' := if lo' < lo then Add(hi, 1) else hi;
    (lo', (hi' + size / LO) % MODULUS)
  }

  /** The carry test `lo' < lo` is right, so the two halves count bytes modulo 2^61. */
  lemma CountedRight(lo: nat, hi: Word, n: nat, size: nat)
    requires lo < LO && hi * LO + lo == n % COUNTER
    ensures var (lo', hi') := Counted(lo, hi, size);
            lo' < LO && hi' * LO + lo' == (n + size) % COUNTER
  {
    var (lo', hi') := Counted(lo, hi, size);
    var carry := if lo' < lo then 1 else 0;
    CarryTest(lo, size);
    assert lo + size == (size / LO + carry) * LO + lo';
    HighPart(hi, carry, size / LO);
    var h := hi + carry + size / LO;
    WrapPair(h, lo');
    SameResidue(n, size, h * LO + lo');
  }

  lemma CarryTest(lo: nat, size: nat)
    requires lo < LO
    ensures lo + size == (size / LO + (if (lo + size) % LO < lo then 1 else 0)) * LO + (lo + size) % LO
  {
    var low := size % LO;
    if lo + low < LO {
      assert lo + size == (size / LO) * LO + (lo + low);
      assert (lo + size) % LO == lo + low;
    } else {
      assert lo + size == (size / LO + 1) * LO + (lo + low - LO);
      assert (lo + size) % LO == lo + low - LO;
    }
  }

  lemma HighPart(hi: Word, carry: nat, q: nat)
    requires carry <= 1
    ensures ((if carry == 1 then Add(hi, 1) else hi) + q) % MODULUS == (hi + carry + q) % MODULUS
  {}

  lemma WrapPair(h: nat, lo: nat)
    requires lo < LO
    ensures h % MODULUS * LO + lo == (h * LO + lo) % COUNTER
  {
    var q := h / MODULUS;
    assert h * LO + lo == q * COUNTER + (h % MODULUS * LO + lo);
  }

  lemma SameResidue(n: nat, size: nat, total: nat)
    requires total == n % COUNTER + size
    ensures total % COUNTER == (n + size) % COUNTER
  {}

  lemma Buffered(lo: nat, hi: nat, n: nat)
    requires hi * LO + lo == n % COUNTER
    ensures lo % 64 == n % 64
  {
    var k := hi * 0x80_0000 + n / COUNTER * 0x80_0000_0000_0000;
    assert n == lo + 64 * k;
    SameOffset(lo, k);
  }

  lemma BitCount(lo: nat, hi: Word, n: nat)
    requires lo < LO && hi * LO + lo == n % COUNTER
    ensures (8 * n) % 0x1_0000_0000_0000_0000 == hi * MODULUS + lo * 8
  {
    var q := n / COUNTER;
    var x := hi * MODULUS + lo * 8;
    assert 8 * n == x + q * 0x1_0000_0000_0000_0000;
    assert 0 <= x < 0x1_0000_0000_0000_0000;
  }

  /** The eight length bytes: lo << 3, then hi. */
  lemma LengthOf(lo: nat, hi: Word, n: nat)
    requires lo < LO && hi * LO + lo == n % COUNTER
    ensures LittleEndian(lo * 8, 4) + LittleEndian(hi, 4) == LittleEndian(8 * n, 8)
  {
    hide LittleEndian;
    BitCount(lo, hi, n);
    LengthBytes(8 * n);
    JoinHalves(hi, lo * 8);
  }

  class Context {
    var lo: nat
    var hi: Word
    var v: State
    const buffer: array<Byte>
    ghost var absorbed: seq<Byte>

    ghost predicate Holding(m: seq<Byte>)
      reads this`v, buffer
    {
      buffer.Length == 64 && Holds(Compress, IV, m, v, buffer[..])
    }

    ghost predicate Valid()
      reads this, buffer
    {
      Holding(absorbed) && lo < LO && hi * LO + lo == |absorbed| % COUNTER
    }

    /** MD5_begin */
    constructor ()
      ensures Valid() && absorbed == []
      ensures fresh(buffer)
    {
      hide Compress;
      v := State(0x67452301, 0xefcdab89, 0x98badcfe, 0x10325476);
      lo, hi := 0, 0;
      buffer := new Byte[64];
      absorbed := [];
    }

    /** The closing or early memcpy of MD5_hash: the block stays incomplete. */
    method Keep(used: nat, d: seq<Byte>, ghost m: seq<Byte>)
      requires Holding(m) && used == |m| % 64 && used + |d| < 64
      modifies buffer
      ensures Holding(m + d)
    {
      hide Compress, Holds;
      CopyInto(buffer, used, d);
      assert buffer[..used + |d|] == old(buffer[..used]) + d;
      HoldsShort(Compress, IV, m, v, old(buffer[..]), d, buffer[..]);
    }

    /** The memcpy that completes the buffer, and MD5_body over it. */
    method Finish(used: nat, d: seq<Byte>, ghost m: seq<Byte>)
      requires Holding(m) && used == |m| % 64 && used + |d| == 64
      modifies this`v, buffer
      ensures Holding(m + d) && |m + d| % 64 == 0
    {
      hide Compress, Holds, Fold;
      CopyInto(buffer, used, d);
      assert buffer[..] == old(buffer[..used]) + d;
      v := Body(v, buffer[..]);
      FoldOne(Compress, old(v), buffer[..]);
      HoldsFull(Compress, IV, m, old(v), old(buffer[..]), d, buffer[..], buffer[..]);
    }

    /** MD5_body straight over the caller's whole blocks. */
    method Direct(d: seq<Byte>, ghost m: seq<Byte>)
      requires Holding(m) && |m| % 64 == 0 && |d| > 0 && |d| % 64 == 0
      modifies this`v
      ensures Holding(m + d) && |m + d| % 64 == 0
    {
      hide Compress, Holds, Fold;
      v := Body(v, d);
      HoldsBlocks(Compress, IV, m, old(v), buffer[..], d, buffer[..]);
    }

    /** The counter update at the head of MD5_hash. */
    method Count(size: nat, ghost n: nat)
      requires lo < LO && hi * LO + lo == n % COUNTER
      modifies this`lo, this`hi
      ensures lo < LO && hi * LO + lo == (n + size) % COUNTER
    {
      CountedRight(lo, hi, n, size);
      var saved_lo := lo;
      lo := (saved_lo + size) % LO;
      if lo < saved_lo {
        hi := Add(hi, 1);
      }
      hi := (hi + size / LO) % MODULUS;
    }

    /** The rest of MD5_hash once the buffer is empty. */
    method Blocks(rest: seq<Byte>, ghost m: seq<Byte>)
      requires Holding(m) && |m| % 64 == 0
      modifies this`v, buffer
      ensures Holding(m + rest)
    {
      hide Compress, Holds, Context.Holding;
      if |rest| >= 64 {
        var whole := |rest| - |rest| % 64;
        Direct(rest[..whole], m);
        Keep(0, rest[whole..], m + rest[..whole]);
        assert (m + rest[..whole]) + rest[whole..] == m + rest;
      } else {
        Keep(0, rest, m);
      }
    }

    /** MD5_hash */
    method Update(data: seq<Byte>)
      requires Valid()
      modifies this, buffer
      ensures Valid() && absorbed == old(absorbed) + data
    {
      hide Compress, Holds, Context.Holding;
      ghost var m := absorbed;
      Buffered(lo, hi, |m|);
      var used := lo % 64;
      Count(|data|, |m|);
      absorbed := m + data;
      if used != 0 {
        var available := 64 - used;
        if |data| < available {
          Keep(used, data, m);
          return;
        }
        Finish(used, data[..available], m);
        Blocks(data[available..], m + data[..available]);
        assert (m + data[..available]) + data[available..] == m + data;
      } else {
        Blocks(data, m);
      }
    }

    /** MD5_end when the length still fits the current block. */
    method PadInBlock(used: nat)
      requires Valid() && used == |absorbed| % 64 && used < 56
      modifies this`v, buffer
      ensures v == Fold(Compress, IV, Padded(absorbed, LittleEndian(8 * |absorbed|, 8)))
    {
      hide Compress, LittleEndian, Fold;
      LengthOf(lo, hi, |absorbed|);
      buffer[used] := 0x80;
      CopyInto(buffer, used + 1, Zeros(64 - (used + 1) - 8));
      CopyInto(buffer, 56, LittleEndian(lo * 8, 4));
      CopyInto(buffer, 60, LittleEndian(hi, 4));
      assert buffer[..] == (old(buffer[..used]) + [0x80] + Zeros(55 - used)) + LittleEndian(8 * |absorbed|, 8);
      PadOneBlock(Compress, IV, absorbed, v, old(buffer[..]), LittleEndian(8 * |absorbed|, 8), buffer[..]);
      FoldOne(Compress, v, buffer[..]);
      v := Body(v, buffer[..]);
    }

    /** MD5_end when fewer than eight bytes are free: the marker block is mixed first. */
    method PadAcross(used: nat)
      requires Valid() && used == |absorbed| % 64 && 56 <= used
      modifies this`v, buffer
      ensures v == Fold(Compress, IV, Padded(absorbed, LittleEndian(8 * |absorbed|, 8)))
    {
      hide Compress, LittleEndian, Fold;
      LengthOf(lo, hi, |absorbed|);
      buffer[used] := 0x80;
      CopyInto(buffer, used + 1, Zeros(64 - (used + 1)));
      ghost var b1 := buffer[..];
      assert b1 == old(buffer[..used]) + [0x80] + Zeros(63 - used);
      FoldOne(Compress, v, b1);
      v := Body(v, buffer[..]);
      CopyInto(buffer, 0, Zeros(64 - 8));
      CopyInto(buffer, 56, LittleEndian(lo * 8, 4));
      CopyInto(buffer, 60, LittleEndian(hi, 4));
      assert buffer[..] == Zeros(56) + LittleEndian(8 * |absorbed|, 8);
      PadTwoBlocks(Compress, IV, absorbed, old(v), old(buffer[..]), LittleEndian(8 * |absorbed|, 8), b1, buffer[..]);
      FoldOne(Compress, v, buffer[..]);
      v := Body(v, buffer[..]);
    }

    /** MD5_end: the digest of everything absorbed; the context is wiped. */
    method Final() returns (result: seq<Byte>)
      requires Valid()
      modifies this, buffer
      ensures result == Hash(old(absorbed))
      ensures lo == 0 && hi == 0 && v == State(0, 0, 0, 0) && forall i :: 0 <= i < 64 ==> buffer[i] == 0
    {
      hide Compress, LittleEndian, Fold;
      Buffered(lo, hi, |absorbed|);
      var used := lo % 64;
      if 64 - (used + 1) < 8 {
        PadAcross(used);
      } else {
        PadInBlock(used);
      }
      result := LittleEndian(v.a, 4) + LittleEndian(v.b, 4) + LittleEndian(v.c, 4) + LittleEndian(v.d, 4);
      lo, hi, v, absorbed := 0, 0, State(0, 0, 0, 0), [];
      forall i | 0 <= i < 64 { buffer[i] := 0; }
    }
  }

  /** The digest is the standard's, however the message is cut into updates. */
  method HashChunks(chunks: seq<seq<Byte>>) returns (digest: seq<Byte>)
    ensures digest == Hash(Flatten(chunks))
  {
    hide Hash, Context.Valid;
    var ctx := new Context();
    for i := 0 to |chunks|
      invariant ctx.Valid() && ctx.absorbed == Flatten(chunks[..i])
      invariant fresh(ctx) && fresh(ctx.buffer)
    {
      ctx.Update(chunks[i]);
      assert chunks[..i + 1][..i] == chunks[..i];
    }
    assert chunks[..|chunks|] == chunks;
    digest := ctx.Final();
  }
}
