/** The replies: send_ack, send_nack and handle_send_packet build them in a_b. */
module KermitReply {
  import opened Bytes
  import opened KermitFrame
  import KermitQuote

  const START_CHAR := 0x01
  const K_ESCAPE := 0x23

  /** The characters of a NUL-terminated string starting at `i`. */
  function CString(a: seq<Byte>, i: nat): seq<Byte>
    requires i <= |a|
    decreases |a| - i
  {
    if i == |a| || a[i] == 0 then [] else [a[i]] + CString(a, i + 1)
  }

  lemma {:induction false} CStringIs(a: seq<Byte>, i: nat, j: nat)
    requires i <= j < |a| && a[j] == 0 && forall k :: i <= k < j ==> a[k] != 0
    ensures CString(a, i) == a[i..j]
    decreases j - i
  {
    if i == j {
    } else {
      CStringIs(a, i + 1, j);
    }
  }

  /** A `char` is signed on this target. */
  function Signed(c: Byte): int { if c < 128 then c else c - 256 }

  function SignedSum(s: seq<Byte>): int
  {
    if s == [] then 0 else SignedSum(s[..|s| - 1]) + Signed(s[|s| - 1])
  }

  /** chk1 sums signed characters, k_recv unsigned ones; the check comes out the same. */
  lemma SignedCheck(s: seq<Byte>)
    ensures Check(SignedSum(s)) == Check(Sum(s))
  {
    var k := SignedSumDiffers(s);
    CheckShift(Sum(s), k);
  }

  lemma {:induction false} SignedSumDiffers(s: seq<Byte>) returns (k: nat)
    ensures SignedSum(s) == Sum(s) - 256 * k
  {
    if s == [] {
      k := 0;
    } else {
      k := SignedSumDiffers(s[..|s| - 1]);
      k := if s[|s| - 1] < 128 then k else k + 1;
    }
  }

  lemma CheckShift(x: int, k: nat)
    ensures Check(x - 256 * k) == Check(x)
  {
    assert (x - 256 * k) / 64 == x / 64 - 4 * k;
    assert (x / 64 - 4 * k) % 4 == x / 64 % 4;
    var y := x + x / 64 % 4;
    assert (y - 256 * k) % 64 == y % 64;
  }

  /** chk1(&a_b[from]) */
  method Chk1(a: array<Byte>, from: nat, ghost end: nat) returns (c: int)
    requires from <= end < a.Length && a[end] == 0 && forall k :: from <= k < end ==> a[k] != 0
    ensures c == Check(Sum(a[from..end]))
  {
    var total, i := 0, from;
    while a[i] != 0
      invariant from <= i <= end
      invariant total == SignedSum(a[from..i])
      decreases end - i
    {
      assert a[from..i + 1][..i - from] == a[from..i];
      total := total + Signed(a[i]);
      i := i + 1;
    }
    SignedCheck(a[from..end]);
    c := (total + total / 64 % 4) % 64;
  }

  /** The packet as it goes out: nothing after a NUL is sent, so a NUL end-of-line
      character is not sent either. */
  function Reply(n: nat, typ: Byte, data: seq<Byte>, eol: Byte): seq<Byte>
  {
    [START_CHAR] + Checked(n, typ, data) + (if eol == 0 then [] else [eol])
  }

  /** How the end-of-line character of a packet is taken: CR completes it, any other
      character is an error, and without one the receiver goes on waiting. */
  function EolStatus(eol: Byte): Status
  {
    if eol == END_CHAR then Good else if eol == 0 then Starved else Bad
  }

  /** Data and a right block check are accepted, whatever follows them. */
  lemma CheckAccepted(s: seq<Byte>, f: nat, typ: Byte, p: nat, e: nat)
    requires f <= p <= e < |s| <= e + 2 && AllPrintable(s[p..e]) && s[e] == CheckChar(s, f, e)
    ensures ParseRest(s, f, typ, p, e - p + 1)
         == Parsed(if e + 1 == |s| then Starved else if s[e + 1] == END_CHAR then Good else Bad, typ, s[p..e], |s|)
  {
    CharCodec(Check(Sum(s[f..e])));
    hide Sum, Check, ToChar;
    RunAll(s, p, e - p);
  }

  /** Where the parts of a reply stand. */
  lemma ReplyParts(n: nat, typ: Byte, data: seq<Byte>, eol: Byte)
    requires |data| <= SHORT_MAX
    ensures var r := Reply(n, typ, data, eol);
            var e := 4 + |data|;
            && e < |r| <= e + 2 && r[1] == ToChar(|data| + 3) && r[3] == typ && r[4..e] == data
            && r[e] == CheckChar(r, 1, e)
            && (e + 1 == |r| <==> eol == 0) && (eol != 0 ==> r[e + 1] == eol)
  {
    hide Sum, Check, ToChar;
    var r := Reply(n, typ, data, eol);
    var b := Header(n, typ, |data|) + data;
    assert r == [START_CHAR] + (b + [ToChar(Check(Sum(b)))]) + (if eol == 0 then [] else [eol]);
    assert r[1..4 + |data|] == b && r[4..4 + |data|] == data;
  }

  /** The receiver's own rules take length, type, data and block check of every reply, and
      accept the whole exactly when it ends in CR. */
  lemma ReplyAccepted(n: nat, typ: Byte, data: seq<Byte>, eol: Byte)
    requires Printable(typ) && AllPrintable(data) && |data| <= SHORT_MAX
    ensures var r := Reply(n, typ, data, eol);
            |r| >= 3 && Parse(r, 1) == Parsed(EolStatus(eol), typ, data, |r|)
    ensures Parse(Reply(n, typ, data, eol), 1).status == Good <==> eol == END_CHAR
  {
    hide ParseRest, ToChar, UnToChar, Reply;
    var r := Reply(n, typ, data, eol);
    ReplyParts(n, typ, data, eol);
    CharCodec(|data| + 3);
    CheckAccepted(r, 1, typ, 4, 4 + |data|);
  }

  /** The NUL that bounds the block check, the check itself, end of line, final NUL. */
  method PutTrailer(a: array<Byte>, length: nat, eol: Byte, ghost body: seq<Byte>)
    requires a.Length == 24 && 1 <= length && length + 2 < 24
    requires a[..length] == body && forall k :: 0 <= k < length ==> body[k] != 0
    modifies a
    ensures CString(a[..], 0) == body + [ToChar(Check(Sum(body[1..])))] + (if eol == 0 then [] else [eol])
  {
    hide Sum, Check, CString, ToChar;
    a[length] := 0;
    assert a[1..length] == body[1..];
    var c := Chk1(a, 1, length);
    CharCodec(c);
    a[length] := ToChar(c);
    a[length + 1] := eol;
    a[length + 2] := 0;
    assert a[..length] == body;
    assert forall k :: 0 <= k < length ==> a[k] == body[k];
    var end := if eol == 0 then length + 1 else length + 2;
    CStringIs(a[..], 0, end);
    assert a[..][0..end] == body + [ToChar(c)] + (if eol == 0 then [] else [eol]);
  }

  /** Closes a packet whose data end at index `last` of the buffer. */
  method Close(a: array<Byte>, last: nat, n: nat, typ: Byte, eol: Byte, ghost data: seq<Byte>)
    requires a.Length == 24 && n < 224 && 3 <= last && last + 3 < 24
    requires data == a[4..last + 1] && Printable(typ) && AllPrintable(data)
    modifies a
    ensures CString(a[..], 0) == Reply(n, typ, data, eol)
  {
    hide Sum, Check, CString, ToChar;
    ghost var body := [START_CHAR] + Header(n, typ, |data|) + data;
    a[0] := START_CHAR;
    a[1] := ToChar(last);
    a[2] := ToChar(n);
    a[3] := typ;
    CharCodec(last);
    CharCodec(n);
    assert a[4..last + 1] == data;
    assert a[..last + 1] == body;
    assert body[1..] == Header(n, typ, |data|) + data;
    PutTrailer(a, last + 1, eol, body);
  }

  method SendAck(a: array<Byte>, n: nat, eol: Byte)
    requires a.Length == 24 && n < 224
    modifies a
    ensures CString(a[..], 0) == Reply(n, ACK_TYPE, [], eol)
  {
    Close(a, 3, n, ACK_TYPE, eol, []);
  }

  method SendNack(a: array<Byte>, n: nat, eol: Byte)
    requires a.Length == 24 && n < 224
    modifies a
    ensures CString(a[..], 0) == Reply(n, NACK_TYPE, [], eol)
  {
    Close(a, 3, n, NACK_TYPE, eol, []);
  }

  /** What the other side asked for in its send-init packet. */
  datatype Peer = Peer(eol: Byte, padCount: nat, padChar: Byte, quote: Byte)

  /** The parameters offered back, one for each parameter received; the tenth brings
      the window and long-packet fields with it. */
  function OfferAt(i: nat): Byte
  {
    match i
    case 0 => 94 + SPACE
    case 1 => 1 + SPACE
    case 2 => 0 + SPACE
    case 3 => 0x40
    case 4 => END_CHAR + SPACE
    case 5 => '#' as int
    case 6 => 'N' as int
    case 7 => '1' as int
    case 8 => 'N' as int
    case 9 => 2 + SPACE
    case 10 => 0 + SPACE
    case _ => 94 + SPACE
  }

  function Offered(bytes: nat): (s: seq<Byte>)
    ensures AllPrintable(s)
  {
    seq(if bytes < 10 then bytes else 13, i requires i >= 0 => OfferAt(i))
  }

  function Negotiated(parms: seq<Byte>): Peer
  {
    Peer(if |parms| >= 5 then UnToChar(parms[4]) else END_CHAR,
         if |parms| >= 3 then UnToChar(parms[2]) else 0,
         if |parms| >= 4 then KermitQuote.Ktrans(parms[3]) else 0,
         if |parms| >= 6 then parms[5] else K_ESCAPE)
  }

  /** a_b[++length] = c */
  method Offer(a: array<Byte>, length: nat, c: Byte) returns (length': nat)
    requires a.Length == 24 && 3 <= length < 16
    requires c == OfferAt(length - 3)
    requires forall k :: 4 <= k <= length ==> a[k] == OfferAt(k - 4)
    modifies a
    ensures length' == length + 1
    ensures forall k :: 4 <= k <= length' ==> a[k] == OfferAt(k - 4)
  {
    length' := length + 1;
    a[length'] := c;
  }

  /** The do-while(0) of handle_send_packet: one parameter after another, until they run out. */
  method ReadParms(a: array<Byte>, parms: seq<Byte>) returns (length: nat, peer: Peer)
    requires a.Length == 24 && |parms| < 19
    modifies a
    ensures 3 <= length <= 16 && a[4..length + 1] == Offered(|parms|)
    ensures peer == Negotiated(parms)
  {
    hide KermitQuote.Ktrans;
    length := 3;
    peer := Peer(END_CHAR, 0, 0, K_ESCAPE);
    var bytes := |parms|;
    label parse: {
      if bytes <= 0 { break parse; }
      length := Offer(a, length, ToChar(94));
      if bytes <= 1 { break parse; }
      length := Offer(a, length, ToChar(1));
      if bytes <= 2 { break parse; }
      peer := peer.(padCount := UnToChar(parms[2]));
      length := Offer(a, length, ToChar(0));
      if bytes <= 3 { break parse; }
      peer := peer.(padChar := KermitQuote.Ktrans(parms[3]));
      length := Offer(a, length, 0x40);
      if bytes <= 4 { break parse; }
      peer := peer.(eol := UnToChar(parms[4]));
      length := Offer(a, length, ToChar(END_CHAR));
      if bytes <= 5 { break parse; }
      peer := peer.(quote := parms[5]);
      length := Offer(a, length, '#' as int);
      if bytes <= 6 { break parse; }
      length := Offer(a, length, 'N' as int);
      if bytes <= 7 { break parse; }
      length := Offer(a, length, '1' as int);
      if bytes <= 8 { break parse; }
      length := Offer(a, length, 'N' as int);
      if bytes <= 9 { break parse; }
      length := Offer(a, length, ToChar(2));
      length := Offer(a, length, ToChar(0));
      length := Offer(a, length, ToChar(94));
      length := Offer(a, length, ToChar(94));
    }
  }

  /** handle_send_packet: `parms` is send_parms up to send_ptr. */
  method HandleSendPacket(a: array<Byte>, n: nat, parms: seq<Byte>) returns (peer: Peer)
    requires a.Length == 24 && n < 224 && |parms| <= 19
    modifies a
    ensures peer == Negotiated(if |parms| == 19 then parms[..18] else parms)
    ensures CString(a[..], 0) == Reply(n, ACK_TYPE, Offered(|parms|), peer.eol)
  {
    hide Reply, CString, Negotiated;
    var length;
    length, peer := ReadParms(a, if |parms| == 19 then parms[..18] else parms);
    Close(a, length, n, ACK_TYPE, peer.eol, Offered(|parms|));
  }

  /** So it is with every send-init reply, which fits the buffer with its NUL. */
  lemma OfferAccepted(n: nat, bytes: nat, eol: Byte)
    ensures var r := Reply(n, ACK_TYPE, Offered(bytes), eol);
            && |r| >= 3 && |r| + 1 <= 24 && Parse(r, 1) == Parsed(EolStatus(eol), ACK_TYPE, Offered(bytes), |r|)
            && (Parse(r, 1).status == Good <==> eol == END_CHAR)
  {
    hide Parse;
    ReplyAccepted(n, ACK_TYPE, Offered(bytes), eol);
  }

  /** A peer that asks for line feeds: its send-init packet is answered with a reply that
      the receiver's own rules refuse. */
  lemma LineFeedPeer(n: nat) returns (parms: seq<Byte>)
    ensures AllPrintable(parms) && |parms| < 19 && Negotiated(parms).eol == 10
    ensures var r := Reply(n, ACK_TYPE, Offered(|parms|), Negotiated(parms).eol);
            |r| >= 3 && Parse(r, 1).status == Bad
  {
    hide Parse, Reply, Offered;
    parms := [126, 33, 32, 64, 42];
    OfferAccepted(n, |parms|, 10);
  }
}
