/** The block-hash construction shared by MD5 and SHA-256: a message is padded to
    whole 64-byte blocks and folded through a compression function.  The stream
    side (a carry buffer that is filled, mixed and refilled) is related to that
    fold by the lemmas below; none of them looks inside the compression function. */
module BlockHash {
  import opened Bytes
  import opened Endian
  import opened Sequences

  type Block = s: seq<Byte> | |s| == 64 witness seq(64, _ => 0)

  /** The compression function `f` applied to the 64-byte blocks of `data` in order. */
  function Fold<S>(f: (S, Block) -> S, s: S, data: seq<Byte>): S
    requires |data| % 64 == 0
    decreases |data|
  {
    if data == [] then s else Fold(f, f(s, data[..64]), data[64..])
  }

  lemma {:induction false} FoldConcat<S>(f: (S, Block) -> S, s: S, a: seq<Byte>, b: seq<Byte>)
    requires |a| % 64 == 0 && |b| % 64 == 0
    ensures Fold(f, s, a + b) == Fold(f, Fold(f, s, a), b)
    decreases |a|
  {
    if a == [] {
      assert a + b == b;
    } else {
      assert (a + b)[..64] == a[..64] && (a + b)[64..] == a[64..] + b;
      FoldConcat(f, f(s, a[..64]), a[64..], b);
    }
  }

  lemma FoldOne<S>(f: (S, Block) -> S, s: S, b: Block)
    ensures Fold(f, s, b) == f(s, b)
  {
    assert b[..64] == b && b[64..] == [];
    assert Fold(f, f(s, b), b[64..]) == f(s, b);
  }

  /** The part of a message that fills whole blocks, and what is left over. */
  function Whole(m: seq<Byte>): (w: seq<Byte>)
    ensures |w| % 64 == 0
  {
    m[..|m| - |m| % 64]
  }

  function Tail(m: seq<Byte>): (t: seq<Byte>)
    ensures |t| == |m| % 64
  {
    m[|m| - |m| % 64..]
  }

  /** What a hashing context must hold after absorbing `m`: the fold of the whole
      blocks, and the rest at the front of the carry buffer. */
  ghost predicate Holds<S>(f: (S, Block) -> S, iv: S, m: seq<Byte>, st: S, buf: seq<Byte>)
  {
    |buf| == 64 && st == Fold(f, iv, Whole(m)) && buf[..|m| % 64] == Tail(m)
  }

  lemma SameBlock(n: nat, k: nat)
    requires n % 64 + k < 64
    ensures (n + k) % 64 == n % 64 + k
    ensures (n + k) - (n + k) % 64 == n - n % 64
  {}

  lemma SameOffset(n: nat, k: nat)
    ensures (n + 64 * k) % 64 == n % 64
  {}

  /** Data that does not complete the block only extends the carry buffer. */
  lemma HoldsShort<S>(f: (S, Block) -> S, iv: S, m: seq<Byte>, st: S, buf: seq<Byte>, d: seq<Byte>, buf': seq<Byte>)
    requires Holds(f, iv, m, st, buf)
    requires |m| % 64 + |d| < 64
    requires |buf'| == 64 && buf'[..|m| % 64 + |d|] == buf[..|m| % 64] + d
    ensures Holds(f, iv, m + d, st, buf')
  {
    SameBlock(|m|, |d|);
    TakeDrop(m, d, |m| - |m| % 64);
    assert Whole(m + d) == Whole(m);
    assert Tail(m + d) == Tail(m) + d;
  }

  /** Data that exactly completes the block leaves an empty carry buffer. */
  lemma HoldsFull<S>(f: (S, Block) -> S, iv: S, m: seq<Byte>, st: S, buf: seq<Byte>, d: seq<Byte>, b: Block, any: seq<Byte>)
    requires Holds(f, iv, m, st, buf)
    requires |m| % 64 + |d| == 64 && b == buf[..|m| % 64] + d && |any| == 64
    ensures Holds(f, iv, m + d, f(st, b), any)
    ensures |m + d| % 64 == 0
  {
    assert |m + d| % 64 == 0;
    assert Whole(m + d) == m + d == Whole(m) + b;
    FoldConcat(f, iv, Whole(m), b);
    FoldOne(f, st, b);
  }

  /** With an empty carry buffer, any number of whole blocks may be mixed straight in. */
  lemma HoldsBlocks<S>(f: (S, Block) -> S, iv: S, m: seq<Byte>, st: S, buf: seq<Byte>, d: seq<Byte>, any: seq<Byte>)
    requires Holds(f, iv, m, st, buf)
    requires |m| % 64 == 0 && |d| % 64 == 0 && |any| == 64
    ensures Holds(f, iv, m + d, Fold(f, st, d), any)
    ensures |m + d| % 64 == 0
  {
    assert |m + d| % 64 == 0;
    assert Whole(m) == m && Whole(m + d) == m + d;
    FoldConcat(f, iv, m, d);
  }

  // ---- padding -------------------------------------------------------------

  function Zeros(n: nat): (z: seq<Byte>)
    ensures |z| == n && forall i :: 0 <= i < n ==> z[i] == 0
  {
    seq(n, _ => 0)
  }

  /** The number of zero bytes between the 0x80 marker and the 8-byte length. */
  function ZeroCount(n: nat): (k: nat)
    ensures (n + 1 + k) % 64 == 56
    ensures k < 64  // the least such number
  {
    (55 - n) % 64
  }

  /** Section 5.1.1 of FIPS 180-4 and sections 3.1 and 3.2 of RFC 1321, which differ
      only in how the eight length bytes are written. */
  function Padded(m: seq<Byte>, length: seq<Byte>): (p: seq<Byte>)
    requires |length| == 8
    ensures |p| % 64 == 0 && m <= p
  {
    m + [0x80] + Zeros(ZeroCount(|m|)) + length
  }

  lemma ZerosSplit(a: nat, b: nat)
    ensures Zeros(a + b) == Zeros(a) + Zeros(b)
  {}

  lemma Regroup<T>(a: seq<T>, b: seq<T>, c: seq<T>, d: seq<T>, e: seq<T>, f: seq<T>)
    ensures ((a + b) + c) + (d + e) + f == (a + (b + c + d)) + (e + f)
  {}

  /** The marker, zeros and length fit the block being filled. */
  lemma PadOneBlock<S>(f: (S, Block) -> S, iv: S, m: seq<Byte>, st: S, buf: seq<Byte>, length: seq<Byte>, b: Block)
    requires Holds(f, iv, m, st, buf) && |length| == 8 && |m| % 64 < 56
    requires b == (buf[..|m| % 64] + [0x80] + Zeros(55 - |m| % 64)) + length
    ensures Fold(f, iv, Padded(m, length)) == f(st, b)
  {
    assert m == Whole(m) + Tail(m);
    Regroup(Whole(m), Tail(m), [0x80], Zeros(55 - |m| % 64), [], length);
    assert Padded(m, length) == Whole(m) + b;
    FoldConcat(f, iv, Whole(m), b);
    FoldOne(f, st, b);
  }

  /** The marker fits but the length does not: a second block carries it. */
  lemma PadTwoBlocks<S>(f: (S, Block) -> S, iv: S, m: seq<Byte>, st: S, buf: seq<Byte>, length: seq<Byte>, b1: Block, b2: Block)
    requires Holds(f, iv, m, st, buf) && |length| == 8 && 56 <= |m| % 64
    requires b1 == buf[..|m| % 64] + [0x80] + Zeros(63 - |m| % 64)
    requires b2 == Zeros(56) + length
    ensures Fold(f, iv, Padded(m, length)) == f(f(st, b1), b2)
  {
    assert m == Whole(m) + Tail(m);
    ZerosSplit(63 - |m| % 64, 56);
    Regroup(Whole(m), Tail(m), [0x80], Zeros(63 - |m| % 64), Zeros(56), length);
    assert Padded(m, length) == (Whole(m) + b1) + b2;
    FoldConcat(f, iv, Whole(m) + b1, b2);
    FoldConcat(f, iv, Whole(m), b1);
    FoldOne(f, st, b1);
    FoldOne(f, f(st, b1), b2);
  }

  // ---- number and sequence helpers ------------------------------------------

  /** A 64-bit counter loses nothing that the eight length bytes would show. */
  lemma LengthBytes(n: nat)
    ensures BigEndian(n % 0x1_0000_0000_0000_0000, 8) == BigEndian(n, 8)
    ensures LittleEndian(n % 0x1_0000_0000_0000_0000, 8) == LittleEndian(n, 8)
  {
    assert Power256(8) == 0x1_0000_0000_0000_0000;
    EndianTruncates(n % 0x1_0000_0000_0000_0000, n / 0x1_0000_0000_0000_0000, 8);
  }

  function Flatten(chunks: seq<seq<Byte>>): seq<Byte>
  {
    if chunks == [] then [] else Flatten(chunks[..|chunks| - 1]) + chunks[|chunks| - 1]
  }

  /** memcpy into a buffer at an offset. */
  method CopyInto(dst: array<Byte>, at: nat, src: seq<Byte>)
    requires at + |src| <= dst.Length
    modifies dst
    ensures dst[..] == old(dst[..at]) + src + old(dst[at + |src|..])
  {
    forall i | 0 <= i < |src| {
      dst[at + i] := src[i];
    }
  }
}
