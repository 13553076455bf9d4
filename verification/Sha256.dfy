/** The word functions of SHA-256, as section 4.1.2 of FIPS 180-4 writes them and as
    the macros of openwrt/scripts/mkhash.c compute them. */
module Sha256Words {
  import opened Words

  function Ch(x: Word, y: Word, z: Word): Word
  {
    var x, y, z := Bits(x), Bits(y), Bits(z);
    Value((x & y) ^ (!x & z))
  }

  function ChFast(x: Word, y: Word, z: Word): Word
  {
    var x, y, z := Bits(x), Bits(y), Bits(z);
    Value((x & (y ^ z)) ^ z)
  }

  lemma ChBits(x: bv32, y: bv32, z: bv32)
    ensures (x & (y ^ z)) ^ z == (x & y) ^ (!x & z)
  {}

  lemma ChForms(x: Word, y: Word, z: Word)
    ensures ChFast(x, y, z) == Ch(x, y, z)
  {
    hide Bits, Value;
    ChBits(Bits(x), Bits(y), Bits(z));
  }

  function Maj(x: Word, y: Word, z: Word): Word
  {
    var x, y, z := Bits(x), Bits(y), Bits(z);
    Value((x & y) ^ (x & z) ^ (y & z))
  }

  function MajFast(x: Word, y: Word, z: Word): Word
  {
    var x, y, z := Bits(x), Bits(y), Bits(z);
    Value((x & (y | z)) | (y & z))
  }

  lemma MajBits(x: bv32, y: bv32, z: bv32)
    ensures ((x & (y | z)) | (y & z)) == (x & y) ^ (x & z) ^ (y & z)
  {}

  lemma MajForms(x: Word, y: Word, z: Word)
    ensures MajFast(x, y, z) == Maj(x, y, z)
  {
    hide Bits, Value;
    MajBits(Bits(x), Bits(y), Bits(z));
  }

  function BigSigma0(x: Word): Word { var x := Bits(x); Value(x.RotateRight(2) ^ x.RotateRight(13) ^ x.RotateRight(22)) }

  function S0(x: Word): Word { var x := Bits(x); Value(((x >> 2) | (x << 30)) ^ ((x >> 13) | (x << 19)) ^ ((x >> 22) | (x << 10))) }

  function BigSigma1(x: Word): Word { var x := Bits(x); Value(x.RotateRight(6) ^ x.RotateRight(11) ^ x.RotateRight(25)) }

  function S1(x: Word): Word { var x := Bits(x); Value(((x >> 6) | (x << 26)) ^ ((x >> 11) | (x << 21)) ^ ((x >> 25) | (x << 7))) }

  function SmallSigma0(x: Word): Word { var x := Bits(x); Value(x.RotateRight(7) ^ x.RotateRight(18) ^ (x >> 3)) }

  function s0(x: Word): Word { var x := Bits(x); Value(((x >> 7) | (x << 25)) ^ ((x >> 18) | (x << 14)) ^ (x >> 3)) }

  function SmallSigma1(x: Word): Word { var x := Bits(x); Value(x.RotateRight(17) ^ x.RotateRight(19) ^ (x >> 10)) }

  function s1(x: Word): Word { var x := Bits(x); Value(((x >> 17) | (x << 15)) ^ ((x >> 19) | (x << 13)) ^ (x >> 10)) }

  /** Each ROTR macro, an OR of two shifts, is a rotation. */
  lemma RotateBits(x: bv32)
    ensures (((x >> 2) | (x << 30)) ^ ((x >> 13) | (x << 19)) ^ ((x >> 22) | (x << 10))) ==
            x.RotateRight(2) ^ x.RotateRight(13) ^ x.RotateRight(22)
    ensures (((x >> 6) | (x << 26)) ^ ((x >> 11) | (x << 21)) ^ ((x >> 25) | (x << 7))) ==
            x.RotateRight(6) ^ x.RotateRight(11) ^ x.RotateRight(25)
    ensures (((x >> 7) | (x << 25)) ^ ((x >> 18) | (x << 14)) ^ (x >> 3)) == x.RotateRight(7) ^ x.RotateRight(18) ^ (x >> 3)
    ensures (((x >> 17) | (x << 15)) ^ ((x >> 19) | (x << 13)) ^ (x >> 10)) == x.RotateRight(17) ^ x.RotateRight(19) ^ (x >> 10)
  {}

  lemma SigmaForms(x: Word)
    ensures S0(x) == BigSigma0(x) && S1(x) == BigSigma1(x)
    ensures s0(x) == SmallSigma0(x) && s1(x) == SmallSigma1(x)
  {
    hide Bits, Value;
    RotateBits(Bits(x));
  }
}

/** The standard: SHA-256 as sections 4 to 6 of FIPS 180-4 define it. */
module Fips180 {
  import opened Bytes
  import opened BlockHash
  import opened Endian
  import opened Words
  import opened Sha256Words

  /** Eight words: the hash value H, or the working variables a to h. */
  datatype Regs = Regs(a: Word, b: Word, c: Word, d: Word, e: Word, f: Word, g: Word, h: Word)

  // Section 4.2.2.
  function K(t: nat): Word
    requires t < 64
  {
    if t < 16 then
    [0x428a2f98, 0x71374491, 0xb5c0fbcf, 0xe9b5dba5, 0x3956c25b, 0x59f111f1, 0x923f82a4, 0xab1c5ed5,
     0xd807aa98, 0x12835b01, 0x243185be, 0x550c7dc3, 0x72be5d74, 0x80deb1fe, 0x9bdc06a7, 0xc19bf174][t]
    else if t < 32 then
    [0xe49b69c1, 0xefbe4786, 0x0fc19dc6, 0x240ca1cc, 0x2de92c6f, 0x4a7484aa, 0x5cb0a9dc, 0x76f988da,
     0x983e5152, 0xa831c66d, 0xb00327c8, 0xbf597fc7, 0xc6e00bf3, 0xd5a79147, 0x06ca6351, 0x14292967][t - 16]
    else if t < 48 then
    [0x27b70a85, 0x2e1b2138, 0x4d2c6dfc, 0x53380d13, 0x650a7354, 0x766a0abb, 0x81c2c92e, 0x92722c85,
     0xa2bfe8a1, 0xa81a664b, 0xc24b8b70, 0xc76c51a3, 0xd192e819, 0xd6990624, 0xf40e3585, 0x106aa070][t - 32]
    else
    [0x19a4c116, 0x1e376c08, 0x2748774c, 0x34b0bcb5, 0x391c0cb3, 0x4ed8aa4a, 0x5b9cca4f, 0x682e6ff3,
     0x748f82ee, 0x78a5636f, 0x84c87814, 0x8cc70208, 0x90befffa, 0xa4506ceb, 0xbef9a3f7, 0xc67178f2][t - 48]
  }

  // Section 5.3.3.
  const IV: Regs := Regs(0x6A09E667, 0xBB67AE85, 0x3C6EF372, 0xA54FF53A, 0x510E527F, 0x9B05688C, 0x1F83D9AB, 0x5BE0CD19)

  /** Section 5.2.1: the t-th word of a block, first byte most significant. */
  function WordAt(b: Block, t: nat): Word
    requires t < 16
  {
    b[4 * t] as int * 0x100_0000 + b[4 * t + 1] as int * 0x1_0000 + b[4 * t + 2] as int * 0x100 + b[4 * t + 3]
  }

  /** Section 6.2.2 step 1: the message schedule. */
  function Schedule(b: Block, t: nat): Word
    requires t < 64
  {
    if t < 16 then WordAt(b, t)
    else Add(Add(Add(SmallSigma1(Schedule(b, t - 2)), Schedule(b, t - 7)), SmallSigma0(Schedule(b, t - 15))),
             Schedule(b, t - 16))
  }

  /** Section 6.2.2 step 3: one round moves every working variable. */
  function Round(v: Regs, w: Word, k: Word): Regs
  {
    var t1 := Add(Add(Add(Add(v.h, BigSigma1(v.e)), Ch(v.e, v.f, v.g)), k), w);
    var t2 := Add(BigSigma0(v.a), Maj(v.a, v.b, v.c));
    Regs(Add(t1, t2), v.a, v.b, v.c, Add(v.d, t1), v.e, v.f, v.g)
  }

  function Rounds(v: Regs, b: Block, t: nat): Regs
    requires t <= 64
  {
    if t == 0 then v else Round(Rounds(v, b, t - 1), Schedule(b, t - 1), K(t - 1))
  }

  /** Section 6.2.2 step 4: word-wise sum of the old hash value and the working variables. */
  function AddRegs(x: Regs, y: Regs): Regs
  {
    Regs(Add(x.a, y.a), Add(x.b, y.b), Add(x.c, y.c), Add(x.d, y.d),
         Add(x.e, y.e), Add(x.f, y.f), Add(x.g, y.g), Add(x.h, y.h))
  }

  function Compress(v: Regs, b: Block): Regs
  {
    AddRegs(v, Rounds(v, b, 64))
  }

  function Digest(v: Regs): (s: seq<Byte>)
    ensures |s| == 32
  {
    BigEndian(v.a, 4) + BigEndian(v.b, 4) + BigEndian(v.c, 4) + BigEndian(v.d, 4) +
    BigEndian(v.e, 4) + BigEndian(v.f, 4) + BigEndian(v.g, 4) + BigEndian(v.h, 4)
  }

  /** SHA-256 of a whole message.  The standard defines it below 2^64 bits; beyond
      that the length field keeps the low 64 bits, as `BigEndian` truncates. */
  function Hash(m: seq<Byte>): (d: seq<Byte>)
    ensures |d| == 32
  {
    Digest(Fold(Compress, IV, Padded(m, BigEndian(8 * |m|, 8))))
  }
}

/** SHA256_Transform of openwrt/scripts/mkhash.c. */
module Sha256Transform {
  import opened Bytes
  import opened BlockHash
  import opened Words
  import opened Sha256Words
  import opened Fips180

  lemma RoundsEnds(v: Regs, b: Block)
    ensures Rounds(v, b, 0) == v
    ensures Compress(v, b) == AddRegs(v, Rounds(v, b, 64))
  {
    hide Round, AddRegs;
  }

  /** be32dec: two 16-bit halves, each two bytes. */
  function Be32Dec(p: seq<Byte>): Word
    requires |p| == 4
  {
    (p[0] as int * 256 + p[1]) * 65536 + (p[2] as int * 256 + p[3])
  }

  /** Where register number `r` (0 for a, 7 for h) of round `j` lives. */
  function Slot(j: nat, r: nat): (i: nat)
    requires j <= 64
    ensures i < 8
  {
    (64 + r - j) % 8
  }

  lemma SlotMoves(j: nat, r: nat)
    requires j < 64
    ensures Slot(j + 1, r + 1) == Slot(j, r)
    ensures Slot(j + 1, 0) == Slot(j, 7)
  {}

  lemma SlotDistinct(j: nat, r: nat, r': nat)
    requires j <= 64 && r < 8 && r' < 8 && r != r'
    ensures Slot(j, r) != Slot(j, r')
  {}

  /** The register file as round `j` of a group of sixteen sees it. */
  function View(S: seq<Word>, j: nat): Regs
    requires |S| == 8 && j <= 64
  {
    Regs(S[Slot(j, 0)], S[Slot(j, 1)], S[Slot(j, 2)], S[Slot(j, 3)],
         S[Slot(j, 4)], S[Slot(j, 5)], S[Slot(j, 6)], S[Slot(j, 7)])
  }

  lemma ViewPeriod(S: seq<Word>)
    requires |S| == 8
    ensures View(S, 16) == View(S, 0) == Regs(S[0], S[1], S[2], S[3], S[4], S[5], S[6], S[7])
  {}

  lemma AddOrder(h: Word, s: Word, c: Word, w: Word, k: Word)
    ensures Add(h, Add(Add(s, c), Add(w, k))) == Add(Add(Add(Add(h, s), c), k), w)
  {
    assert Add(w, k) == Add(k, w);
    hide Add;
    AddAssoc(Add(Add(h, s), c), k, w);
    AddAssoc(h, Add(s, c), Add(w, k));
    AddAssoc(h, s, c);
  }

  /** The three assignments of RND, on values. */
  lemma RoundForms(v: Regs, w: Word, k: Word)
    ensures var h1 := Add(v.h, Add(Add(S1(v.e), ChFast(v.e, v.f, v.g)), Add(w, k)));
            Round(v, w, k) == Regs(Add(h1, Add(S0(v.a), MajFast(v.a, v.b, v.c))), v.a, v.b, v.c, Add(v.d, h1), v.e, v.f, v.g)
  {
    hide Add, Ch, ChFast, Maj, MajFast, S0, S1, BigSigma0, BigSigma1;
    SigmaForms(v.a);
    SigmaForms(v.e);
    ChForms(v.e, v.f, v.g);
    MajForms(v.a, v.b, v.c);
    AddOrder(v.h, S1(v.e), Ch(v.e, v.f, v.g), w, k);
  }

  /** RNDr: updates two registers in place and renames the rest. */
  method RoundInPlace(S: array<Word>, W: array<Word>, j: nat, ii: nat, ghost v: Regs, ghost b: Block)
    requires S.Length == 8 && W.Length == 64 && S != W
    requires j < 16 && ii + j < 64
    requires View(S[..], j) == Rounds(v, b, ii + j) && W[ii + j] == Schedule(b, ii + j)
    modifies S
    ensures View(S[..], j + 1) == Rounds(v, b, ii + j + 1)
  {
    hide Add, Round, ChFast, MajFast, S0, S1, Slot, Schedule;
    RoundForms(View(S[..], j), W[ii + j], K(ii + j));
    forall r: nat | r < 7 ensures Slot(j + 1, r + 1) == Slot(j, r) && Slot(j, r) != Slot(j, 7) {
      SlotMoves(j, r);
      SlotDistinct(j, r, 7);
    }
    forall r: nat | r < 8 && r != 3 ensures Slot(j, r) != Slot(j, 3) {
      SlotDistinct(j, r, 3);
    }
    SlotMoves(j, 0);
    var a, b, c, d := Slot(j, 0), Slot(j, 1), Slot(j, 2), Slot(j, 3);
    var e, f, g, h := Slot(j, 4), Slot(j, 5), Slot(j, 6), Slot(j, 7);
    S[h] := Add(S[h], Add(Add(S1(S[e]), ChFast(S[e], S[f], S[g])), Add(W[ii + j], K(ii + j))));
    S[d] := Add(S[d], S[h]);
    S[h] := Add(S[h], Add(S0(S[a]), MajFast(S[a], S[b], S[c])));
  }

  /** MSCH: the next word of the schedule, from the sixteen before it. */
  method ExtendSchedule(W: array<Word>, ii: nat, j: nat, ghost b: Block)
    requires W.Length == 64 && j < 16 && ii + j + 16 < 64
    requires forall t :: 0 <= t < ii + j + 16 ==> W[t] == Schedule(b, t)
    modifies W
    ensures forall t :: 0 <= t < ii + j + 17 ==> W[t] == Schedule(b, t)
  {
    hide Add, s0, s1, SmallSigma0, SmallSigma1, WordAt;
    var k := ii + j;
    SigmaForms(W[k + 14]);
    SigmaForms(W[k + 1]);
    W[k + 16] := Add(Add(Add(s1(W[k + 14]), W[k + 9]), s0(W[k + 1])), W[k]);
  }

  /** be32dec_vect. */
  method DecodeWords(W: array<Word>, b: Block)
    requires W.Length == 64
    modifies W
    ensures forall t :: 0 <= t < 16 ==> W[t] == Schedule(b, t)
  {
    for i := 0 to 16
      invariant forall t :: 0 <= t < i ==> W[t] == Schedule(b, t)
    {
      W[i] := Be32Dec(b[4 * i..4 * i + 4]);
    }
  }

  /** The sixteen RNDr lines of one pass; after them the registers are back in place. */
  method MixSixteen(S: array<Word>, W: array<Word>, i: nat, ghost v: Regs, ghost b: Block)
    requires S.Length == 8 && W.Length == 64 && S != W && i + 16 <= 64
    requires View(S[..], 0) == Rounds(v, b, i)
    requires forall t :: i <= t < i + 16 ==> W[t] == Schedule(b, t)
    modifies S
    ensures View(S[..], 0) == Rounds(v, b, i + 16)
  {
    hide Schedule, Rounds, View;
    RoundInPlace(S, W, 0, i, v, b);
    RoundInPlace(S, W, 1, i, v, b);
    RoundInPlace(S, W, 2, i, v, b);
    RoundInPlace(S, W, 3, i, v, b);
    RoundInPlace(S, W, 4, i, v, b);
    RoundInPlace(S, W, 5, i, v, b);
    RoundInPlace(S, W, 6, i, v, b);
    RoundInPlace(S, W, 7, i, v, b);
    RoundInPlace(S, W, 8, i, v, b);
    RoundInPlace(S, W, 9, i, v, b);
    RoundInPlace(S, W, 10, i, v, b);
    RoundInPlace(S, W, 11, i, v, b);
    RoundInPlace(S, W, 12, i, v, b);
    RoundInPlace(S, W, 13, i, v, b);
    RoundInPlace(S, W, 14, i, v, b);
    RoundInPlace(S, W, 15, i, v, b);
    ViewPeriod(S[..]);
  }

  /** The sixteen MSCH lines of one pass. */
  method GrowSixteen(W: array<Word>, i: nat, ghost b: Block)
    requires W.Length == 64 && i + 32 <= 64
    requires forall t :: 0 <= t < i + 16 ==> W[t] == Schedule(b, t)
    modifies W
    ensures forall t :: 0 <= t < i + 32 ==> W[t] == Schedule(b, t)
  {
    hide Schedule;
    ExtendSchedule(W, i, 0, b);
    ExtendSchedule(W, i, 1, b);
    ExtendSchedule(W, i, 2, b);
    ExtendSchedule(W, i, 3, b);
    ExtendSchedule(W, i, 4, b);
    ExtendSchedule(W, i, 5, b);
    ExtendSchedule(W, i, 6, b);
    ExtendSchedule(W, i, 7, b);
    ExtendSchedule(W, i, 8, b);
    ExtendSchedule(W, i, 9, b);
    ExtendSchedule(W, i, 10, b);
    ExtendSchedule(W, i, 11, b);
    ExtendSchedule(W, i, 12, b);
    ExtendSchedule(W, i, 13, b);
    ExtendSchedule(W, i, 14, b);
    ExtendSchedule(W, i, 15, b);
  }

  /** The closing loop: the registers are added to the state. */
  method AddInto(state: array<Word>, S: array<Word>)
    requires state.Length == 8 && S.Length == 8 && state != S
    modifies state
    ensures View(state[..], 0) == AddRegs(View(old(state[..]), 0), View(S[..], 0))
  {
    hide Add, View;
    for k := 0 to 8
      invariant forall t :: 0 <= t < k ==> state[t] == Add(old(state[t]), S[t])
      invariant forall t :: k <= t < 8 ==> state[t] == old(state[t])
    {
      state[k] := Add(state[k], S[k]);
    }
    ViewPeriod(state[..]);
    ViewPeriod(old(state[..]));
    ViewPeriod(S[..]);
  }

  method Transform(state: array<Word>, b: Block)
    requires state.Length == 8
    modifies state
    ensures View(state[..], 0) == Compress(View(old(state[..]), 0), b)
  {
    hide Schedule, Rounds, View, AddRegs, Compress;
    ghost var v := View(state[..], 0);
    RoundsEnds(v, b);
    var W := new Word[64];
    var S := new Word[8](i requires 0 <= i < 8 reads state => state[i]);
    DecodeWords(W, b);
    assert S[..] == state[..];
    var i := 0;
    while i < 64
      invariant i == 0 || i == 16 || i == 32 || i == 48
      invariant View(S[..], 0) == Rounds(v, b, i)
      invariant forall t :: 0 <= t < i + 16 ==> W[t] == Schedule(b, t)
      invariant state[..] == old(state[..])
      decreases 64 - i
    {
      MixSixteen(S, W, i, v, b);
      if i == 48 {
        break;
      }
      GrowSixteen(W, i, b);
      i := i + 16;
    }
    AddInto(state, S);
  }
}

/** The incremental interface of openwrt/scripts/mkhash.c. */
module Sha256 {
  import opened Bytes
  import opened BlockHash
  import opened Endian
  import opened Words
  import opened Fips180
  import opened Sha256Transform

  function Be32Enc(u: Word): (s: seq<Byte>)
    ensures |s| == 4
  {
    [u / 0x100_0000 % 256, u / 0x1_0000 % 256, u / 0x100 % 256, u % 256]
  }

  lemma Be32EncIsBigEndian(u: Word)
    ensures Be32Enc(u) == BigEndian(u, 4)
  {
    hide BigEndian;
    FourDigits(u);
  }

  /** be64enc: the high word, then the low word. */
  function Be64Enc(u: nat): (s: seq<Byte>)
    requires u < COUNTER
    ensures |s| == 8
  {
    Be32Enc(u / MODULUS) + Be32Enc(u % MODULUS)
  }

  lemma Be64EncIsBigEndian(u: nat)
    requires u < COUNTER
    ensures Be64Enc(u) == BigEndian(u, 8)
  {
    hide Be32Enc, BigEndian;
    Be32EncIsBigEndian(u / MODULUS);
    Be32EncIsBigEndian(u % MODULUS);
    JoinHalves(u / MODULUS, u % MODULUS);
  }

  const COUNTER := 0x1_0000_0000_0000_0000

  /** How many bytes wait in the buffer, read off a bit counter that may have wrapped. */
  lemma Buffered(n: nat)
    ensures (8 * n) % COUNTER / 8 % 64 == n % 64
  {
    var q := (8 * n) / COUNTER;
    assert (8 * n) % COUNTER == 8 * (n - q * 0x2000_0000_0000_0000);
    assert n - q * 0x2000_0000_0000_0000 == n - 64 * (q * 0x80_0000_0000_0000);
  }

  lemma Counted(n: nat, k: nat)
    ensures ((8 * n) % COUNTER + 8 * k) % COUNTER == (8 * (n + k)) % COUNTER
  {}

  class Context {
    const state: array<Word>
    const buf: array<Byte>
    var count: nat
    ghost var absorbed: seq<Byte>

    /** State and buffer hold the message `m`. */
    ghost predicate Holding(m: seq<Byte>)
      reads state, buf
    {
      state.Length == 8 && buf.Length == 64 && Holds(Compress, IV, m, View(state[..], 0), buf[..])
    }

    ghost predicate Valid()
      reads this, state, buf
    {
      Holding(absorbed) && count == (8 * |absorbed|) % COUNTER
    }

    /** SHA256_Init */
    constructor ()
      ensures Valid() && absorbed == []
      ensures fresh(state) && fresh(buf)
    {
      hide Compress;
      count := 0;
      state := new Word[8];
      buf := new Byte[64];
      absorbed := [];
      new;
      state[0] := 0x6A09E667;
      state[1] := 0xBB67AE85;
      state[2] := 0x3C6EF372;
      state[3] := 0xA54FF53A;
      state[4] := 0x510E527F;
      state[5] := 0x9B05688C;
      state[6] := 0x1F83D9AB;
      state[7] := 0x5BE0CD19;
      ViewPeriod(state[..]);
    }

    /** memcpy of data that does not complete the block. */
    method Keep(r: nat, d: seq<Byte>, ghost m: seq<Byte>)
      requires Holding(m) && r == |m| % 64 && r + |d| < 64
      modifies buf
      ensures Holding(m + d)
    {
      hide Compress, View, Holds;
      CopyInto(buf, r, d);
      assert buf[..r + |d|] == old(buf[..r]) + d;
      HoldsShort(Compress, IV, m, View(state[..], 0), old(buf[..]), d, buf[..]);
    }

    /** memcpy of data that completes the block, and one transform. */
    method Finish(r: nat, d: seq<Byte>, ghost m: seq<Byte>)
      requires Holding(m) && r == |m| % 64 && r + |d| == 64
      modifies state, buf
      ensures Holding(m + d) && |m + d| % 64 == 0
    {
      hide Compress, View, Holds;
      CopyInto(buf, r, d);
      assert buf[..] == old(buf[..r]) + d;
      Transform(state, buf[..]);
      HoldsFull(Compress, IV, m, old(View(state[..], 0)), old(buf[..]), d, buf[..], buf[..]);
    }

    /** One whole block mixed straight from the caller's data. */
    method Direct(b: Block, ghost m: seq<Byte>)
      requires Holding(m) && |m| % 64 == 0
      modifies state
      ensures Holding(m + b) && |m + b| % 64 == 0
    {
      hide Compress, View, Holds;
      assert [] + b == b && buf[..0] == [];
      Transform(state, b);
      HoldsFull(Compress, IV, m, old(View(state[..], 0)), buf[..], b, b, buf[..]);
    }

    /** SHA256_Update */
    method Update(src: seq<Byte>)
      requires Valid()
      modifies this, state, buf
      ensures Valid() && absorbed == old(absorbed) + src
    {
      hide Compress, View, Holds, Context.Holding;
      ghost var m := absorbed;
      Buffered(|m|);
      Counted(|m|, |src|);
      var r := count / 8 % 64;
      count := (count + 8 * |src|) % COUNTER;
      absorbed := m + src;
      if |src| < 64 - r {
        Keep(r, src, m);
        return;
      }
      Finish(r, src[..64 - r], m);
      var p := 64 - r;
      while |src| - p >= 64
        invariant 0 <= p <= |src|
        invariant |m + src[..p]| % 64 == 0
        invariant Holding(m + src[..p])
        modifies state
      {
        Direct(src[p..p + 64], m + src[..p]);
        assert (m + src[..p]) + src[p..p + 64] == m + src[..p + 64];
        p := p + 64;
      }
      Keep(0, src[p..], m + src[..p]);
      assert (m + src[..p]) + src[p..] == m + src;
    }

    /** SHA256_Pad, when the length still fits the current block. */
    method PadInBlock(r: nat)
      requires Valid() && r == |absorbed| % 64 && r < 56
      modifies state, buf
      ensures View(state[..], 0) == Fold(Compress, IV, Padded(absorbed, BigEndian(8 * |absorbed|, 8)))
    {
      hide Compress, View, BigEndian, Be64Enc, Fold;
      LengthOf(|absorbed|, count);
      ghost var st := View(state[..], 0);
      CopyInto(buf, r, PAD[..56 - r]);
      CopyInto(buf, 56, Be64Enc(count));
      assert PAD[..56 - r] == [0x80] + Zeros(55 - r);
      assert buf[..] == (old(buf[..r]) + [0x80] + Zeros(55 - r)) + Be64Enc(count);
      PadOneBlock(Compress, IV, absorbed, st, old(buf[..]), Be64Enc(count), buf[..]);
      Transform(state, buf[..]);
    }

    /** SHA256_Pad, when the current block is finished first. */
    method PadAcross(r: nat)
      requires Valid() && r == |absorbed| % 64 && 56 <= r
      modifies state, buf
      ensures View(state[..], 0) == Fold(Compress, IV, Padded(absorbed, BigEndian(8 * |absorbed|, 8)))
    {
      hide Compress, View, BigEndian, Be64Enc, Fold;
      LengthOf(|absorbed|, count);
      ghost var st := View(state[..], 0);
      CopyInto(buf, r, PAD[..64 - r]);
      assert PAD[..64 - r] == [0x80] + Zeros(63 - r);
      ghost var b1 := buf[..];
      assert b1 == old(buf[..r]) + [0x80] + Zeros(63 - r);
      Transform(state, buf[..]);
      CopyInto(buf, 0, Zeros(56));
      CopyInto(buf, 56, Be64Enc(count));
      assert buf[..] == Zeros(56) + Be64Enc(count);
      PadTwoBlocks(Compress, IV, absorbed, st, old(buf[..]), Be64Enc(count), b1, buf[..]);
      Transform(state, buf[..]);
    }

    /** SHA256_Final: the digest of everything absorbed; the context is wiped. */
    method Final() returns (digest: seq<Byte>)
      requires Valid()
      modifies this, state, buf
      ensures digest == Hash(old(absorbed))
      ensures count == 0 && (forall i :: 0 <= i < 8 ==> state[i] == 0) && (forall i :: 0 <= i < 64 ==> buf[i] == 0)
    {
      hide Compress, View, BigEndian, Be64Enc, Fold, Digest;
      Buffered(|absorbed|);
      var r := count / 8 % 64;
      if r < 56 {
        PadInBlock(r);
      } else {
        PadAcross(r);
      }
      digest := EncodeWords(state);
      count, absorbed := 0, [];
      forall i | 0 <= i < 8 { state[i] := 0; }
      forall i | 0 <= i < 64 { buf[i] := 0; }
    }
  }

  const PAD: seq<Byte> := [0x80] + Zeros(63)

  lemma LengthOf(n: nat, count: nat)
    requires count == (8 * n) % COUNTER
    ensures Be64Enc(count) == BigEndian(8 * n, 8)
  {
    hide BigEndian, Be64Enc;
    LengthBytes(8 * n);
    Be64EncIsBigEndian(count);
  }

  /** be32enc_vect */
  method EncodeWords(state: array<Word>) returns (digest: seq<Byte>)
    requires state.Length == 8
    ensures digest == Digest(View(state[..], 0))
  {
    hide Be32Enc, BigEndian, View, Digest;
    digest := [];
    for i := 0 to 8
      invariant digest == WordBytes(state[..], i)
    {
      Be32EncIsBigEndian(state[i]);
      digest := digest + Be32Enc(state[i]);
    }
    WordBytesAll(state[..]);
  }

  /** The first `n` words, each as four bytes. */
  function WordBytes(s: seq<Word>, n: nat): seq<Byte>
    requires n <= |s|
  {
    if n == 0 then [] else WordBytes(s, n - 1) + BigEndian(s[n - 1], 4)
  }

  lemma WordBytesAll(s: seq<Word>)
    requires |s| == 8
    ensures WordBytes(s, 8) == Digest(View(s, 0))
  {
    hide BigEndian;
    ViewPeriod(s);
    assert WordBytes(s, 1) == BigEndian(s[0], 4);
    assert WordBytes(s, 3) == BigEndian(s[0], 4) + BigEndian(s[1], 4) + BigEndian(s[2], 4);
    assert WordBytes(s, 5) == WordBytes(s, 3) + BigEndian(s[3], 4) + BigEndian(s[4], 4);
    assert WordBytes(s, 7) == WordBytes(s, 5) + BigEndian(s[5], 4) + BigEndian(s[6], 4);
  }

  /** The digest is the standard's, however the message is cut into updates. */
  method HashChunks(chunks: seq<seq<Byte>>) returns (digest: seq<Byte>)
    ensures digest == Hash(Flatten(chunks))
  {
    hide Hash, Context.Valid;
    var ctx := new Context();
    for i := 0 to |chunks|
      invariant ctx.Valid() && ctx.absorbed == Flatten(chunks[..i])
      invariant fresh(ctx) && fresh(ctx.state) && fresh(ctx.buf)
    {
      ctx.Update(chunks[i]);
      assert chunks[..i + 1][..i] == chunks[..i];
    }
    assert chunks[..|chunks|] == chunks;
    digest := ctx.Final();
  }
}
