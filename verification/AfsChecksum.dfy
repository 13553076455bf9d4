/** compute_crc of ARM flash images: a ones'-complement sum of 32-bit words. */
module AfsChecksum {
  import opened Words

  const M := MODULUS - 1

  function Total(words: seq<Word>): nat
  {
    if words == [] then 0 else Total(words[..|words| - 1]) + words[|words| - 1]
  }

  /** A number folded into one word with end-around carry: 0 stays 0, anything else
      becomes the residue modulo 2^32 - 1 that lies in 1 to 2^32 - 1. */
  function Folded(total: nat): Word
  {
    if total == 0 then 0 else (total - 1) % M + 1
  }

  /** The value compute_crc settles on: the bitwise inverse of the folded sum. */
  function Checksum(words: seq<Word>): Word
  {
    M - Folded(Total(words))
  }

  lemma Unfold(total: nat) returns (q: nat)
    requires total > 0
    ensures total == q * M + Folded(total) && 1 <= Folded(total) <= M
  {
    q := (total - 1) / M;
  }

  lemma Refold(total: nat, q: nat, r: nat)
    requires 1 <= r <= M && total == q * M + r
    ensures Folded(total) == r
  {}

  lemma FoldStep(total: nat, val: Word)
    ensures var sum := Folded(total);
            Folded(total + val) == if val > M - sum then sum + val - M else sum + val
  {
    if total > 0 {
      var q := Unfold(total);
      var sum := Folded(total);
      hide Folded;
      if val > M - sum {
        Refold(total + val, q + 1, sum + val - M);
      } else {
        Refold(total + val, q, sum + val);
      }
    } else if val > 0 {
      Refold(val, 0, val);
    }
  }

  lemma CarryAround(sum: Word, val: Word)
    ensures val > M - sum ==> Add(Add(sum, 1), val) == sum + val - M
    ensures val <= M - sum ==> Add(sum, val) == sum + val
  {}

  lemma FoldNothing()
    ensures Folded(0) == 0
  {}

  /** compute_crc over `len` bytes; `words` are the 32-bit reads at start, start + 4, ... */
  method ComputeCrc(words: seq<Word>, len: nat) returns (crc: Word)
    requires |words| == len / 4
    ensures len % 4 != 0 ==> crc == 0
    ensures len % 4 == 0 ==> crc == Checksum(words)
  {
    hide Folded, Add;
    FoldNothing();
    if len % 4 != 0 {
      return 0;
    }
    var sum: Word := 0;
    var i := 0;
    while i < len
      invariant 0 <= i <= len && i % 4 == 0
      invariant sum == Folded(Total(words[..i / 4]))
    {
      var val := words[i / 4];
      assert words[..i / 4 + 1][..i / 4] == words[..i / 4];
      FoldStep(Total(words[..i / 4]), val);
      CarryAround(sum, val);
      if val > M - sum {
        sum := Add(sum, 1);
      }
      sum := Add(sum, val);
      i := i + 4;
    }
    assert words[..len / 4] == words;
    return M - sum;
  }

  /** The result is zero exactly when some word is not and the sum is a multiple of 2^32 - 1. */
  lemma ZeroExactly(words: seq<Word>)
    ensures Checksum(words) == 0 <==> (exists i :: 0 <= i < |words| && words[i] != 0) && Total(words) % M == 0
  {
    AllZero(words);
    var t := Total(words);
    if t > 0 {
      var q := Unfold(t);
      hide Folded;
      if Folded(t) == M {
        assert t == (q + 1) * M;
      }
    }
  }

  lemma {:induction false} AllZero(words: seq<Word>)
    ensures Total(words) > 0 <==> exists i :: 0 <= i < |words| && words[i] != 0
  {
    if words == [] {
    } else {
      var w := words[..|words| - 1];
      AllZero(w);
      if i :| 0 <= i < |w| && w[i] != 0 { assert words[i] != 0; }
      if i :| 0 <= i < |words| && words[i] != 0 {
        if i < |w| { assert w[i] != 0; }
      }
    }
  }

  lemma {:induction false} TotalConcat(a: seq<Word>, b: seq<Word>)
    ensures Total(a + b) == Total(a) + Total(b)
    decreases |b|
  {
    if b == [] {
      assert a + b == a;
    } else {
      assert (a + b)[..|a + b| - 1] == a + b[..|b| - 1];
      TotalConcat(a, b[..|b| - 1]);
    }
  }

  lemma TotalAround(a: seq<Word>, w: Word, b: seq<Word>)
    ensures Total(a + [w] + b) == Total(a + b) + w
  {
    TotalConcat(a + [w], b);
    TotalConcat(a, b);
    assert (a + [w])[..|a|] == a;
  }

  /** The order of the words does not matter. */
  lemma {:induction false} OrderIrrelevant(a: seq<Word>, b: seq<Word>)
    requires multiset(a) == multiset(b)
    ensures Total(a) == Total(b) && Checksum(a) == Checksum(b)
    decreases |a|
  {
    if a == [] {
      assert |multiset(b)| == 0;
      assert b == [];
    } else {
      var w := a[|a| - 1];
      var a0 := a[..|a| - 1];
      assert a == a0 + [w];
      assert w in multiset(b);
      var i :| 0 <= i < |b| && b[i] == w;
      var b0 := b[..i] + b[i + 1..];
      assert b == b[..i] + [w] + b[i + 1..];
      assert multiset(b) == multiset(b0) + multiset{w};
      assert multiset(a0) == multiset(b) - multiset{w};
      OrderIrrelevant(a0, b0);
      TotalAround(b[..i], w, b[i + 1..]);
    }
  }

  lemma Balance(total: nat, w: Word)
    requires w == M - Folded(total)
    ensures Folded(total + w) == M
  {
    if total > 0 {
      var q := Unfold(total);
      Refold(total + w, q, M);
    }
  }

  /** Storing the checksum of the other words anywhere among them makes the
      checksum of the whole block zero. */
  lemma StoredInverse(a: seq<Word>, b: seq<Word>)
    ensures Checksum(a + [Checksum(a + b)] + b) == 0
  {
    hide Folded, Total;
    var w := Checksum(a + b);
    TotalAround(a, w, b);
    Balance(Total(a + b), w);
  }
}
