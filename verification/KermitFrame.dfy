/** Control quoting: how a byte string travels inside Kermit data packets. */
module KermitQuote {
  import opened Bytes

  /** ktrans: converts a quoted character back. */
  function Ktrans(c: Byte): Byte
  {
    if c / 32 % 4 == 2 then c - 64        // (in & 0x60) == 0x40: clear bit 6
    else if c % 128 == 63 then c + 64     // (in & 0x7f) == 0x3f: set bit 6
    else c
  }

  /** A control character with bit 7 ignored. */
  predicate IsControl(b: Byte)
  {
    b % 128 < 32 || b % 128 == 127
  }

  /** The sender's side: control characters and the quote itself are sent quoted. */
  function Quoted(q: Byte, b: Byte): (s: seq<Byte>)
    ensures |s| >= 1
  {
    if IsControl(b) then [q, if b % 128 < 32 then b + 64 else b - 64]
    else if b == q then [q, q]
    else [b]
  }

  function QuoteAll(q: Byte, bytes: seq<Byte>): seq<Byte>
  {
    if bytes == [] then [] else Quoted(q, bytes[0]) + QuoteAll(q, bytes[1..])
  }

  /** What a stream of characters decodes to, starting inside a quotation or not. */
  function Decoded(q: Byte, escape: bool, s: seq<Byte>): (d: seq<Byte>)
    ensures |d| <= |s|
    decreases |s|
  {
    if s == [] then []
    else if escape then [Ktrans(s[0])] + Decoded(q, false, s[1..])
    else if s[0] == q then Decoded(q, true, s[1..])
    else [s[0]] + Decoded(q, false, s[1..])
  }

  /** Whether the stream ends inside a quotation. */
  predicate Pending(q: Byte, escape: bool, s: seq<Byte>)
    decreases |s|
  {
    if s == [] then escape else Pending(q, !escape && s[0] == q, s[1..])
  }

  /** Decoding may be suspended anywhere, also between a quote and its character. */
  lemma {:induction false} DecodeConcat(q: Byte, escape: bool, a: seq<Byte>, b: seq<Byte>)
    ensures Decoded(q, escape, a + b) == Decoded(q, escape, a) + Decoded(q, Pending(q, escape, a), b)
    ensures Pending(q, escape, a + b) == Pending(q, Pending(q, escape, a), b)
    decreases |a|
  {
    if a == [] {
      assert a + b == b;
    } else {
      assert (a + b)[1..] == a[1..] + b;
      DecodeConcat(q, !escape && a[0] == q, a[1..], b);
    }
  }

  /** One byte survives the trip, unless it is a quote character that ktrans alters. */
  lemma DecodeOne(q: Byte, b: Byte)
    requires Ktrans(q) == q || b != q
    ensures Decoded(q, false, Quoted(q, b)) == [b] && !Pending(q, false, Quoted(q, b))
  {
    var s := Quoted(q, b);
    if |s| == 2 {
      DecodePair(q, s[1]);
    }
  }

  lemma DecodePair(q: Byte, c: Byte)
    ensures Decoded(q, false, [q, c]) == [Ktrans(c)] && !Pending(q, false, [q, c])
  {
    assert [q, c][1..] == [c] && [c][1..] == [];
    assert Decoded(q, true, [c]) == [Ktrans(c)] && !Pending(q, true, [c]);
  }

  lemma FixedByKtrans(q: Byte)
    ensures Ktrans(q) == q <==> !(64 <= q % 128 < 96) && q % 128 != 63
  {}

  lemma {:induction false} RoundTrip(q: Byte, bytes: seq<Byte>)
    requires Ktrans(q) == q || q !in bytes
    ensures Decoded(q, false, QuoteAll(q, bytes)) == bytes && !Pending(q, false, QuoteAll(q, bytes))
  {
    if bytes == [] {
    } else {
      DecodeOne(q, bytes[0]);
      RoundTrip(q, bytes[1..]);
      DecodeConcat(q, false, Quoted(q, bytes[0]), QuoteAll(q, bytes[1..]));
    }
  }

  /** Nothing but quote characters and characters that need no quoting. */
  predicate Plain(q: Byte, s: seq<Byte>)
  {
    forall i :: 0 <= i < |s| ==> s[i] == q || !IsControl(s[i])
  }

  lemma {:induction false} QuotedIsPlain(q: Byte, bytes: seq<Byte>)
    ensures Plain(q, QuoteAll(q, bytes))
  {
    if bytes == [] {
    } else {
      QuotedIsPlain(q, bytes[1..]);
    }
  }

  /** No shorter text of such characters decodes to the same bytes as the quoted ones. */
  lemma {:induction false} QuotedIsShortest(q: Byte, s: seq<Byte>)
    requires Plain(q, s)
    ensures |QuoteAll(q, Decoded(q, false, s))| <= |s|
    decreases |s|
  {
    if s == [] {
    } else if s[0] != q {
      QuotedIsShortest(q, s[1..]);
      QuoteCons(q, s[0], Decoded(q, false, s[1..]));
    } else if |s| == 1 {
      assert s[1..] == [];
    } else {
      QuotedIsShortest(q, s[2..]);
      assert s[1..][0] == s[1] && s[1..][1..] == s[2..];
      QuoteCons(q, Ktrans(s[1]), Decoded(q, false, s[2..]));
    }
  }

  lemma QuoteCons(q: Byte, b: Byte, rest: seq<Byte>)
    ensures QuoteAll(q, [b] + rest) == Quoted(q, b) + QuoteAll(q, rest)
  {
    assert ([b] + rest)[1..] == rest;
  }

  /** The quote characters for which every byte string survives: those outside
      0x40-0x5f and 0x3f, bit 7 ignored. */
  lemma QuoteCharacters(q: Byte)
    ensures (forall bytes :: Decoded(q, false, QuoteAll(q, bytes)) == bytes) <==> !(64 <= q % 128 < 96) && q % 128 != 63
  {
    FixedByKtrans(q);
    hide Ktrans;
    if Ktrans(q) == q {
      forall bytes ensures Decoded(q, false, QuoteAll(q, bytes)) == bytes { RoundTrip(q, bytes); }
    } else {
      assert QuoteAll(q, [q]) == [q, q] + QuoteAll(q, []);
      DecodePair(q, q);
      assert Decoded(q, false, QuoteAll(q, [q])) == [Ktrans(q)];
    }
  }
}

/** Packet framing: what k_recv accepts, what the replies look like. */
module KermitFrame {
  import opened Bytes

  const SPACE := 0x20
  const END_CHAR := 0x0D
  const SEND_TYPE := 'S' as int
  const DATA_TYPE := 'D' as int
  const ACK_TYPE := 'Y' as int
  const NACK_TYPE := 'N' as int
  const BREAK_TYPE := 'B' as int

  function ToChar(x: nat): Byte { (x + SPACE) % 256 }
  function UnToChar(c: Byte): Byte { (c - SPACE) % 256 }

  /** Characters below SPACE are errors anywhere but at the end of a packet. */
  predicate Printable(c: Byte) { c >= SPACE }

  predicate AllPrintable(s: seq<Byte>) { forall i :: 0 <= i < |s| ==> Printable(s[i]) }

  /** The type-1 block check of a character sum; `>>` and `&` on a possibly negative
      int are floor division and Euclidean remainder. */
  function Check(total: int): (c: int)
    ensures 0 <= c < 64
  {
    (total + total / 64 % 4) % 64
  }

  // ---- the parser of k_recv, from the length character at position `f` ---------

  datatype Status = Starved | Bad | Good
  /** What was read: the data characters seen so far, and the position reached. */
  datatype Parsed = Parsed(status: Status, typ: Byte, data: seq<Byte>, end: nat)

  /** How many printable characters follow position `p`, at most `k`. */
  function PrintableRun(s: seq<Byte>, p: nat, k: nat): (m: nat)
    requires p <= |s|
    ensures m <= k && p + m <= |s| && AllPrintable(s[p..p + m])
    ensures m < k && p + m < |s| ==> !Printable(s[p + m])
    decreases k
  {
    if k == 0 || p == |s| || !Printable(s[p]) then 0
    else
      var m := PrintableRun(s, p + 1, k - 1);
      assert s[p..p + 1 + m] == [s[p]] + s[p + 1..p + 1 + m];
      1 + m
  }

  /** The packet ends early at `e`: the line is silent, or an error is noticed there. */
  function Cut(s: seq<Byte>, e: nat, typ: Byte, data: seq<Byte>): Parsed
    requires e <= |s|
  {
    if e == |s| then Parsed(Starved, typ, data, e) else Parsed(Bad, typ, data, e + 1)
  }

  /** The check character expected at `e`. */
  function CheckChar(s: seq<Byte>, f: nat, e: nat): Byte
    requires f <= e <= |s|
  {
    ToChar(Check(Sum(s[f..e])))
  }

  /** Block check and end character at `e`. */
  function ParseTail(s: seq<Byte>, f: nat, typ: Byte, data: seq<Byte>, e: nat): Parsed
    requires f <= e <= |s|
  {
    if e == |s| || !Printable(s[e]) || s[e] != CheckChar(s, f, e) then Cut(s, e, typ, data)
    else if e + 1 == |s| || s[e + 1] != END_CHAR then Cut(s, e + 1, typ, data)
    else Parsed(Good, typ, data, e + 2)
  }

  /** Data characters from position `p`, then the tail. */
  function ParseRest(s: seq<Byte>, f: nat, typ: Byte, p: nat, length: int): Parsed
    requires f <= p <= |s|
  {
    var k := if length > 1 then length - 1 else 0;
    var m := PrintableRun(s, p, k);
    if m < k then Cut(s, p + m, typ, s[p..p + m]) else ParseTail(s, f, typ, s[p..p + m], p + m)
  }

  /** Extended length: two more characters and a header check, from position `p`. */
  function ParseLong(s: seq<Byte>, f: nat, typ: Byte, p: nat): Parsed
    requires f <= p <= |s|
  {
    var m := PrintableRun(s, p, 3);
    if m < 3 then Cut(s, p + m, typ, [])
    else if s[p + 2] != CheckChar(s, f, p + 2) then Cut(s, p + 2, typ, [])
    else ParseRest(s, f, typ, p + 3, UnToChar(s[p]) as int * 95 + UnToChar(s[p + 1]))
  }

  /** The packet whose length and sequence characters are at `f` and `f + 1`. */
  function Parse(s: seq<Byte>, f: nat): Parsed
    requires f + 2 <= |s|
  {
    var p := f + 2;
    if p == |s| || !Printable(s[p]) then Cut(s, p, 0, [])
    else if UnToChar(s[f]) != 0 then ParseRest(s, f, s[p], p + 1, UnToChar(s[f]) - 2)
    else ParseLong(s, f, s[p], p + 1)
  }

  // ---- the frames a sender builds ----------------------------------------------

  const SHORT_MAX := 91                 // data characters in a short packet
  const LONG_MAX := 94 * 95 + 94 - 1    // data characters in an extended packet

  /** Length, sequence number, type, and the extended length with its check. */
  function Header(n: nat, typ: Byte, size: nat): (h: seq<Byte>)
    ensures |h| == if size <= SHORT_MAX then 3 else 6
  {
    if size <= SHORT_MAX then [ToChar(size + 3), ToChar(n), typ]
    else
      var h := [ToChar(0), ToChar(n), typ, ToChar((size + 1) / 95), ToChar((size + 1) % 95)];
      h + [ToChar(Check(Sum(h)))]
  }

  /** Header, data and block check: all but the end character. */
  function Checked(n: nat, typ: Byte, data: seq<Byte>): seq<Byte>
  {
    var b := Header(n, typ, |data|) + data;
    b + [ToChar(Check(Sum(b)))]
  }

  function Frame(n: nat, typ: Byte, data: seq<Byte>): seq<Byte>
  {
    Checked(n, typ, data) + [END_CHAR]
  }

  lemma {:induction false} RunAll(s: seq<Byte>, p: nat, k: nat)
    requires p + k <= |s| && AllPrintable(s[p..p + k])
    ensures PrintableRun(s, p, k) == k
    decreases k
  {
    if k == 0 {
    } else {
      assert Printable(s[p]) by { assert s[p..p + k][0] == s[p]; }
      assert s[p + 1..p + k] == s[p..p + k][1..];
      RunAll(s, p + 1, k - 1);
    }
  }

  lemma CharCodec(x: nat)
    requires x < 224
    ensures Printable(ToChar(x)) && UnToChar(ToChar(x)) == x
  {}

  /** Data, a right block check and an end character are accepted. */
  lemma RestAccepted(s: seq<Byte>, f: nat, typ: Byte, p: nat, e: nat)
    requires f <= p <= e && e + 2 <= |s|
    requires AllPrintable(s[p..e]) && s[e] == CheckChar(s, f, e) && s[e + 1] == END_CHAR
    ensures ParseRest(s, f, typ, p, e - p + 1) == Parsed(Good, typ, s[p..e], e + 2)
  {
    CharCodec(Check(Sum(s[f..e])));
    hide Sum, Check, ToChar;
    RunAll(s, p, e - p);
  }

  /** A piece of a string inside a longer line. */
  lemma Embedded<T>(pre: seq<T>, body: seq<T>, rest: seq<T>, i: nat, j: nat)
    requires i <= j <= |body|
    ensures (pre + body + rest)[|pre| + i..|pre| + j] == body[i..j]
  {}

  /** Where the parts of a frame stand on the line. */
  lemma FrameParts(pre: seq<Byte>, n: nat, typ: Byte, data: seq<Byte>, rest: seq<Byte>)
    ensures var s := pre + Frame(n, typ, data) + rest;
            var h := Header(n, typ, |data|);
            var p := |pre| + |h|;
            var e := p + |data|;
            && |s| >= e + 2 && s[|pre|..p] == h && s[p..e] == data
            && s[e] == CheckChar(s, |pre|, e) && s[e + 1] == END_CHAR
  {
    hide Sum, Check, ToChar, Header;
    var b := Frame(n, typ, data);
    var h := Header(n, typ, |data|);
    var s := pre + b + rest;
    var e := |h| + |data|;
    Embedded(pre, b, rest, 0, |h|);
    Embedded(pre, b, rest, |h|, e);
    Embedded(pre, b, rest, 0, e);
    assert b[..e] == h + data && b[..|h|] == h && b[|h|..e] == data;
    assert s[|pre| + e] == b[e] && s[|pre| + e + 1] == b[e + 1];
  }

  lemma ShortAccepted(pre: seq<Byte>, n: nat, typ: Byte, data: seq<Byte>, rest: seq<Byte>)
    requires Printable(typ) && AllPrintable(data) && |data| <= SHORT_MAX
    ensures Parse(pre + Frame(n, typ, data) + rest, |pre|) == Parsed(Good, typ, data, |pre| + |Frame(n, typ, data)|)
  {
    hide Sum, Check, ToChar, UnToChar, ParseRest;
    CharCodec(|data| + 3);
    FrameParts(pre, n, typ, data, rest);
    var s := pre + Frame(n, typ, data) + rest;
    var h := Header(n, typ, |data|);
    assert s[|pre|] == h[0] && s[|pre| + 2] == h[2];
    RestAccepted(s, |pre|, typ, |pre| + 3, |pre| + 3 + |data|);
  }

  /** The six header characters of an extended packet are understood. */
  lemma LongHeader(s: seq<Byte>, f: nat, n: nat, typ: Byte, size: nat)
    requires Printable(typ) && SHORT_MAX < size <= LONG_MAX
    requires f + 6 <= |s| && s[f..f + 6] == Header(n, typ, size)
    ensures Parse(s, f) == ParseRest(s, f, typ, f + 6, size + 1)
  {
    hide Sum, Check, ToChar, UnToChar, ParseRest, PrintableRun;
    var hi, lo := (size + 1) / 95, (size + 1) % 95;
    var h := [ToChar(0), ToChar(n), typ, ToChar(hi), ToChar(lo)];
    CharCodec(0);
    CharCodec(hi);
    CharCodec(lo);
    CharCodec(Check(Sum(h)));
    var t := s[f..f + 6];
    assert t == h + [ToChar(Check(Sum(h)))];
    assert s[f] == t[0] && s[f + 2] == t[2] && s[f + 3] == t[3] && s[f + 4] == t[4] && s[f + 5] == t[5];
    assert s[f..f + 5] == t[..5] == h;
    RunAll(s, f + 3, 3);
  }

  lemma LongAccepted(pre: seq<Byte>, n: nat, typ: Byte, data: seq<Byte>, rest: seq<Byte>)
    requires Printable(typ) && AllPrintable(data) && SHORT_MAX < |data| <= LONG_MAX
    ensures Parse(pre + Frame(n, typ, data) + rest, |pre|) == Parsed(Good, typ, data, |pre| + |Frame(n, typ, data)|)
  {
    hide Sum, Check, ToChar, UnToChar, ParseRest, PrintableRun, Parse;
    FrameParts(pre, n, typ, data, rest);
    var s := pre + Frame(n, typ, data) + rest;
    var f := |pre|;
    LongHeader(s, f, n, typ, |data|);
    RestAccepted(s, f, typ, f + 6, f + 6 + |data|);
  }

  /** Every frame a sender builds is accepted wherever it stands on the line, and
      yields its type and data. */
  lemma FrameAccepted(pre: seq<Byte>, n: nat, typ: Byte, data: seq<Byte>, rest: seq<Byte>)
    requires Printable(typ) && AllPrintable(data) && |data| <= LONG_MAX
    ensures Parse(pre + Frame(n, typ, data) + rest, |pre|) == Parsed(Good, typ, data, |pre| + |Frame(n, typ, data)|)
  {
    hide Parse, Sum, Check;
    if |data| <= SHORT_MAX {
      ShortAccepted(pre, n, typ, data, rest);
    } else {
      LongAccepted(pre, n, typ, data, rest);
    }
  }

  // ---- what the block check notices -------------------------------------------------------

  /** The check of a sum with `r` in its low six bits and `q` in the next two. */
  lemma CheckIs(total: int, k: int, q: int, r: int)
    requires total == 256 * k + 64 * q + r && 0 <= q < 4 && 0 <= r < 64
    ensures Check(total) == if q + r < 64 then q + r else q + r - 64
  {
    var m := 4 * k + q;
    assert total / 64 == m && m % 4 == q;
    SixBits(m, q + r);
  }

  lemma SixBits(m: int, y: int)
    requires 0 <= y < 128
    ensures (64 * m + y) % 64 == if y < 64 then y else y - 64
  {}

  lemma HighBits(s: bv8)
    ensures s as int == 64 * (s >> 6) as int + (s & 0x3f) as int && (s >> 6) as int < 4 && (s & 0x3f) as int < 64
  {}

  lemma FoldedBits(s: bv8)
    ensures ((s + ((s >> 6) & 3)) & 0x3f) as int
         == var x := (s >> 6) as int + (s & 0x3f) as int; if x < 64 then x else x - 64
  {}

  /** In the bit operations of the protocol: of a sum with the low eight bits `s`, bits 6
      and 7 are added in and six bits are kept. */
  lemma CheckOnBits(s: bv8, k: int)
    ensures Check(256 * k + s as int) == ((s + ((s >> 6) & 3)) & 0x3f) as int
  {
    HighBits(s);
    FoldedBits(s);
    hide Check;
    CheckIs(256 * k + s as int, k, (s >> 6) as int, (s & 0x3f) as int);
  }

  /** One bit of one character. */
  predicate BitsApart(c: int, d: int)
  {
    var x := if c < d then d - c else c - d;
    x in {1, 2, 4, 8, 16, 32, 64, 128}
  }

  /** A sum that differs by one bit has another check. */
  lemma CheckChanges(total: int, other: int)
    requires BitsApart(total, other)
    ensures Check(other) != Check(total)
  {
    hide Check;
    if total < other {
      CheckGrown(total, other - total);
    } else {
      CheckGrown(other, total - other);
    }
  }

  lemma CheckGrown(total: int, x: int)
    requires x in {1, 2, 4, 8, 16, 32, 64, 128}
    ensures Check(total + x) != Check(total)
  {
    hide Check;
    var k, low := total / 256, total % 256;
    var q, r := low / 64, low % 64;
    CheckIs(total, k, q, r);
    var q' := if x >= 64 then q + x / 64 else if r + x >= 64 then q + 1 else q;
    var r' := if x >= 64 then r else if r + x >= 64 then r + x - 64 else r + x;
    CheckIs(total + x, if q' < 4 then k else k + 1, if q' < 4 then q' else q' - 4, r');
  }

  lemma {:induction false} SumReplaced(s: seq<Byte>, j: nat, c: Byte)
    requires j < |s|
    ensures Sum(s[j := c]) == Sum(s) - s[j] + c
  {
    var n := |s| - 1;
    if j == n {
      assert s[j := c][..n] == s[..n];
    } else {
      assert s[j := c][..n] == s[..n][j := c];
      SumReplaced(s[..n], j, c);
    }
  }

  /** Data that end early, or a wrong block check after them, are refused. */
  lemma RestRefused(s: seq<Byte>, f: nat, typ: Byte, p: nat, e: nat)
    requires f <= p <= e && e + 2 <= |s| && s[e] != CheckChar(s, f, e)
    ensures ParseRest(s, f, typ, p, e - p + 1).status == Bad
  {
    hide Sum, Check, ToChar;
  }

  /** A frame in which one bit of one data character was flipped on the way is refused. */
  lemma FlippedRefused(pre: seq<Byte>, n: nat, typ: Byte, data: seq<Byte>, rest: seq<Byte>, j: nat, c: Byte)
    requires Printable(typ) && |data| <= LONG_MAX && j < |data| && BitsApart(data[j], c)
    ensures var at := |pre| + |Header(n, typ, |data|)| + j;
            var s := pre + Frame(n, typ, data) + rest;
            && at < |s| && s[at] == data[j] && |s| >= |pre| + 2
            && Parse(s[at := c], |pre|).status == Bad
  {
    hide Parse, CheckChar, BitsApart, Header, ParseRest, Frame;
    var h, f := Header(n, typ, |data|), |pre|;
    var p := f + |h|;
    var e := p + |data|;
    var s := pre + Frame(n, typ, data) + rest;
    FrameParts(pre, n, typ, data, rest);
    var at := p + j;
    assert s[p..e][j] == s[at];
    var t := s[at := c];
    assert t[f..p] == s[f..p] && t[e] == s[e];
    FlippedCheck(s, f, e, at, c);
    RestRefused(t, f, typ, p, e);
    HeaderRead(t, f, n, typ, |data|);
  }

  lemma FlippedCheck(s: seq<Byte>, f: nat, e: nat, at: nat, c: Byte)
    requires f <= at < e <= |s| && BitsApart(s[at], c)
    ensures CheckChar(s[at := c], f, e) != CheckChar(s, f, e)
  {
    hide Sum, Check, ToChar, BitsApart;
    var t := s[at := c];
    assert t[f..e] == s[f..e][at - f := c];
    SumReplaced(s[f..e], at - f, c);
    var was, now := Sum(s[f..e]), Sum(t[f..e]);
    SameDistance(s[at], c, was, now);
    CheckChanges(was, now);
    CodesDiffer(Check(was), Check(now));
  }

  lemma SameDistance(c: int, d: int, x: int, y: int)
    requires BitsApart(c, d) && y - x == d - c
    ensures BitsApart(x, y)
  {}

  lemma CodesDiffer(x: nat, y: nat)
    requires x < 64 && y < 64 && x != y
    ensures ToChar(x) != ToChar(y)
  {}

  /** After its header characters a packet of `size` data characters is parsed. */
  lemma HeaderRead(s: seq<Byte>, f: nat, n: nat, typ: Byte, size: nat)
    requires Printable(typ) && size <= LONG_MAX
    requires var h := Header(n, typ, size); f + |h| <= |s| && s[f..f + |h|] == h
    ensures f + 2 <= |s| && Parse(s, f) == ParseRest(s, f, typ, f + |Header(n, typ, size)|, size + 1)
  {
    hide Sum, Check, ToChar, UnToChar, ParseRest, ParseLong;
    if size <= SHORT_MAX {
      CharCodec(size + 3);
      var h := Header(n, typ, size);
      assert s[f] == s[f..f + 3][0] == h[0] && s[f + 2] == s[f..f + 3][2] == h[2];
    } else {
      LongHeader(s, f, n, typ, size);
    }
  }

  // ---- a packet depends on its own characters only ---------------------------------------

  /** The same characters at `f` of one line and at `g` of another, `n` of them. */
  predicate SameText(s: seq<Byte>, f: nat, t: seq<Byte>, g: nat, n: int)
  {
    0 <= n && f + n <= |s| && g + n <= |t| && forall j :: f <= j < f + n ==> s[j] == t[j - f + g]
  }

  lemma SameAt(s: seq<Byte>, f: nat, t: seq<Byte>, g: nat, n: int, i: nat)
    requires SameText(s, f, t, g, n) && i < n
    ensures f + n <= |s| && g + n <= |t| && s[f + i] == t[g + i]
  {}

  lemma SamePart(s: seq<Byte>, f: nat, t: seq<Byte>, g: nat, n: int, i: nat, m: nat)
    requires SameText(s, f, t, g, n) && i + m <= n
    ensures f + n <= |s| && g + n <= |t| && SameText(s, f + i, t, g + i, m) && s[f + i..f + i + m] == t[g + i..g + i + m]
  {
    var a, b := s[f + i..f + i + m], t[g + i..g + i + m];
    forall j | 0 <= j < m
      ensures a[j] == b[j]
    {
      assert a[j] == s[f + i + j];
    }
  }

  /** How many characters a run of at most `k` looks at. */
  function Looked(s: seq<Byte>, p: nat, k: nat): nat
    requires p <= |s|
  {
    var m := PrintableRun(s, p, k);
    if m < k then m + 1 else m
  }

  lemma {:induction false} RunLocal(s: seq<Byte>, p: nat, t: seq<Byte>, q: nat, k: nat)
    requires p <= |s| && SameText(s, p, t, q, Looked(s, p, k))
    ensures PrintableRun(t, q, k) == PrintableRun(s, p, k)
    decreases k
  {
    hide SameText, Printable, AllPrintable;
    if k == 0 {
    } else {
      SameAt(s, p, t, q, Looked(s, p, k), 0);
      if Printable(s[p]) {
        SamePart(s, p, t, q, Looked(s, p, k), 1, Looked(s, p + 1, k - 1));
        RunLocal(s, p + 1, t, q + 1, k - 1);
      }
    }
  }

  function Moved(p: Parsed, f: nat, g: nat): (r: Parsed)
    requires f <= p.end
  {
    p.(end := p.end - f + g)
  }

  lemma TailLocal(s: seq<Byte>, f: nat, typ: Byte, data: seq<Byte>, e: nat, t: seq<Byte>, g: nat)
    requires f <= e <= |s|
    requires var r := ParseTail(s, f, typ, data, e); r.status != Starved && SameText(s, f, t, g, r.end - f)
    ensures var r := ParseTail(s, f, typ, data, e);
            f <= r.end && ParseTail(t, g, typ, data, e - f + g) == Moved(r, f, g)
  {
    hide ToChar, Check, Sum, Printable, SameText;
    var r := ParseTail(s, f, typ, data, e);
    SamePart(s, f, t, g, r.end - f, 0, e - f);
    SameAt(s, f, t, g, r.end - f, e - f);
    if r.end == e + 2 {
      SameAt(s, f, t, g, r.end - f, e + 1 - f);
    }
  }

  lemma RestLocal(s: seq<Byte>, f: nat, typ: Byte, p: nat, length: int, t: seq<Byte>, g: nat)
    requires f <= p <= |s|
    requires var r := ParseRest(s, f, typ, p, length); r.status != Starved && SameText(s, f, t, g, r.end - f)
    ensures var r := ParseRest(s, f, typ, p, length);
            f <= r.end && p - f + g <= |t| && ParseRest(t, g, typ, p - f + g, length) == Moved(r, f, g)
  {
    hide PrintableRun, ParseTail, Printable, AllPrintable, SameText;
    var r := ParseRest(s, f, typ, p, length);
    var k := if length > 1 then length - 1 else 0;
    var m := PrintableRun(s, p, k);
    TailMoves(s, f, typ, s[p..p + m], p + m);
    SamePart(s, f, t, g, r.end - f, p - f, Looked(s, p, k));
    SamePart(s, f, t, g, r.end - f, p - f, m);
    RunLocal(s, p, t, p - f + g, k);
    if m == k {
      TailLocal(s, f, typ, s[p..p + m], p + m, t, g);
    }
  }

  lemma TailMoves(s: seq<Byte>, f: nat, typ: Byte, data: seq<Byte>, e: nat)
    requires f <= e <= |s|
    ensures e <= ParseTail(s, f, typ, data, e).end <= |s|
  {}

  lemma RestMoves(s: seq<Byte>, f: nat, typ: Byte, p: nat, length: int)
    requires f <= p <= |s|
    ensures p <= ParseRest(s, f, typ, p, length).end <= |s|
  {
    hide ParseTail, PrintableRun;
    var k := if length > 1 then length - 1 else 0;
    var m := PrintableRun(s, p, k);
    TailMoves(s, f, typ, s[p..p + m], p + m);
  }

  lemma LongLocal(s: seq<Byte>, f: nat, typ: Byte, p: nat, t: seq<Byte>, g: nat)
    requires f <= p <= |s|
    requires var r := ParseLong(s, f, typ, p); r.status != Starved && SameText(s, f, t, g, r.end - f)
    ensures var r := ParseLong(s, f, typ, p);
            f <= r.end && p - f + g <= |t| && ParseLong(t, g, typ, p - f + g) == Moved(r, f, g)
  {
    hide PrintableRun, ParseRest, UnToChar, ToChar, Check, Sum, Printable, AllPrintable, SameText;
    var r := ParseLong(s, f, typ, p);
    var n := r.end - f;
    var m := PrintableRun(s, p, 3);
    if m == 3 {
      RestMoves(s, f, typ, p + 3, UnToChar(s[p]) as int * 95 + UnToChar(s[p + 1]));
    }
    SamePart(s, f, t, g, n, p - f, Looked(s, p, 3));
    RunLocal(s, p, t, p - f + g, 3);
    if m == 3 {
      SamePart(s, f, t, g, n, 0, p + 2 - f);
      SameAt(s, f, t, g, n, p - f);
      SameAt(s, f, t, g, n, p + 1 - f);
      SameAt(s, f, t, g, n, p + 2 - f);
      if s[p + 2] == CheckChar(s, f, p + 2) {
        RestLocal(s, f, typ, p + 3, UnToChar(s[p]) as int * 95 + UnToChar(s[p + 1]), t, g);
      }
    }
  }

  lemma LongMoves(s: seq<Byte>, f: nat, typ: Byte, p: nat)
    requires f <= p <= |s|
    ensures p <= ParseLong(s, f, typ, p).end <= |s|
  {
    hide PrintableRun, ParseRest, UnToChar;
    if PrintableRun(s, p, 3) == 3 {
      RestMoves(s, f, typ, p + 3, UnToChar(s[p]) as int * 95 + UnToChar(s[p + 1]));
    }
  }

  lemma ParseMoves(s: seq<Byte>, f: nat)
    requires f + 2 <= |s|
    ensures f + 2 <= Parse(s, f).end <= |s|
    ensures Parse(s, f).status != Starved ==> f + 3 <= Parse(s, f).end
  {
    hide ParseRest, ParseLong, UnToChar, Printable;
    var p := f + 2;
    if p < |s| && Printable(s[p]) {
      if UnToChar(s[f]) != 0 {
        RestMoves(s, f, s[p], p + 1, UnToChar(s[f]) - 2);
      } else {
        LongMoves(s, f, s[p], p + 1);
      }
    }
  }

  /** What is made of a packet depends only on the characters up to where it ends. */
  lemma ParseLocal(s: seq<Byte>, f: nat, t: seq<Byte>, g: nat)
    requires f + 2 <= |s|
    requires var r := Parse(s, f); r.status != Starved && SameText(s, f, t, g, r.end - f)
    ensures var r := Parse(s, f);
            f <= r.end && g + 2 <= |t| && Parse(t, g) == Moved(r, f, g)
  {
    hide ParseRest, ParseLong, UnToChar, Printable, SameText;
    var r := Parse(s, f);
    var n := r.end - f;
    var p := f + 2;
    ParseMoves(s, f);
    SameAt(s, f, t, g, n, 0);
    SameAt(s, f, t, g, n, 2);
    if Printable(s[p]) {
      if UnToChar(s[f]) != 0 {
        RestLocal(s, f, s[p], p + 1, UnToChar(s[f]) - 2, t, g);
      } else {
        LongLocal(s, f, s[p], p + 1, t, g);
      }
    }
  }
}
