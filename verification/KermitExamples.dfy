/** A short transfer character by character: what a sender puts on the line for a file of
    four bytes, what k_recv answers, and what it leaves in memory. */
module KermitExamples {
  import opened Bytes
  import opened KermitQuote
  import opened KermitFrame
  import opened KermitReply
  import opened KermitData
  import opened KermitReceiver

  // "~* @-#N1": 94 characters, ten seconds, no padding, CR, quote #, no eighth-bit quote, check type 1
  const PARMS: seq<Byte> := [126, 42, 32, 64, 45, 35, 78, 49]
  // "A#M#J##": A, CR, LF and # themselves
  const TEXT: seq<Byte> := [65, 35, 77, 35, 74, 35, 35]

  const SEND: seq<Byte> := [43, 32, 83, 126, 42, 32, 64, 45, 35, 78, 49, 86, 13]
  const DATA: seq<Byte> := [42, 33, 68, 65, 35, 77, 35, 74, 35, 35, 86, 13]
  const END_OF_FILE: seq<Byte> := [35, 34, 90, 65, 13]
  const BREAK: seq<Byte> := [35, 35, 66, 42, 13]

  lemma {:induction false} SumTo(s: seq<Byte>, k: nat)
    requires k < |s|
    ensures Sum(s[..k + 1]) == Sum(s[..k]) + s[k]
  {
    assert s[..k + 1][..k] == s[..k];
  }

  lemma SumThree(s: seq<Byte>)
    requires |s| >= 3
    ensures Sum(s[..3]) == s[0] as int + s[1] + s[2]
  {
    SumTo(s, 0);
    SumTo(s, 1);
    SumTo(s, 2);
    assert s[..0] == [];
  }

  lemma SumMore(s: seq<Byte>, k: nat)
    requires k + 4 <= |s|
    ensures Sum(s[..k + 4]) == Sum(s[..k]) + s[k] + s[k + 1] + s[k + 2] + s[k + 3]
  {
    SumTo(s, k);
    SumTo(s, k + 1);
    SumTo(s, k + 2);
    SumTo(s, k + 3);
  }

  lemma SumEleven(s: seq<Byte>)
    requires |s| == 11
    ensures Sum(s) == s[0] as int + s[1] + s[2] + s[3] + s[4] + s[5] + s[6] + s[7] + s[8] + s[9] + s[10]
  {
    hide Sum;
    SumThree(s);
    SumMore(s, 3);
    SumMore(s, 7);
    assert s[..11] == s;
  }

  lemma SumTen(s: seq<Byte>)
    requires |s| == 10
    ensures Sum(s) == s[0] as int + s[1] + s[2] + s[3] + s[4] + s[5] + s[6] + s[7] + s[8] + s[9]
  {
    hide Sum;
    SumThree(s);
    SumMore(s, 3);
    SumTo(s, 7);
    SumTo(s, 8);
    SumTo(s, 9);
    assert s[..10] == s;
  }

  /** A packet without data. */
  lemma EmptyPacket(n: nat, typ: Byte, check: Byte)
    requires n < 95 && check == ToChar(Check(35 + 32 + n + typ))
    ensures Checked(n, typ, []) == [35, 32 + n, typ, check]
  {
    hide Sum, Check;
    var b := Header(n, typ, 0) + [];
    assert b == [35, 32 + n, typ];
    SumThree(b);
    assert b[..3] == b;
  }

  lemma SendPacket()
    ensures Frame(0, SEND_TYPE, PARMS) == SEND
  {
    hide Sum;
    var b := Header(0, SEND_TYPE, 8) + PARMS;
    assert b == [43, 32, 83, 126, 42, 32, 64, 45, 35, 78, 49];
    SumEleven(b);
  }

  lemma DataPacket()
    ensures Frame(1, DATA_TYPE, TEXT) == DATA
  {
    hide Sum;
    var b := Header(1, DATA_TYPE, 7) + TEXT;
    assert b == [42, 33, 68, 65, 35, 77, 35, 74, 35, 35];
    SumTen(b);
  }

  lemma LastPackets()
    ensures Frame(2, 'Z' as int, []) == END_OF_FILE && Frame(3, BREAK_TYPE, []) == BREAK
  {
    EmptyPacket(2, 'Z' as int, 65);
    EmptyPacket(3, BREAK_TYPE, 42);
  }

  /** The break packet of an empty transfer, on its own: its sum is 133 and its check 7. */
  lemma BreakAccepted()
    ensures Parse([35, 32, 66, 39, 13], 0) == Parsed(Good, BREAK_TYPE, [], 5)
  {
    hide Parse;
    EmptyPacket(0, BREAK_TYPE, 39);
    FrameAccepted([], 0, BREAK_TYPE, [], []);
    assert [] + Frame(0, BREAK_TYPE, []) + [] == [35, 32, 66, 39, 13];
  }

  /** The header of an extended packet with 200 data characters: 201 is 2 * 95 + 11. */
  lemma ExtendedHeader()
    ensures Header(5, DATA_TYPE, 200) == [32, 37, 68, 34, 43, 57]
  {
    hide Sum;
    var h := [32, 37, 68, 34, 43];
    SumThree(h);
    SumTo(h, 3);
    SumTo(h, 4);
    assert h[..5] == h;
    assert Header(5, DATA_TYPE, 200)[..5] == h;
  }

  /** All that can be offered: the tenth parameter brings four at once. */
  lemma FullOffer(bytes: nat)
    requires bytes >= 10
    ensures Offered(bytes) == [126, 33, 32, 64, 45, 35, 78, 49, 78, 34, 32, 126, 126]
  {}

  /** What a peer asks for: three pad characters of code 1, CR, and & as its quote. */
  lemma PeerExample()
    ensures Negotiated([126, 42, 35, 65, 45, 38]) == Peer(13, 3, 1, 38)
    ensures Negotiated([]) == Peer(13, 0, 0, 35)
  {}

  /** The replies to these packets. */
  lemma Replies()
    ensures Reply(0, ACK_TYPE, Offered(|PARMS|), Negotiated(PARMS).eol)
         == [1, 43, 32, 89, 126, 33, 32, 64, 45, 35, 78, 49, 83, 13]
    ensures Reply(1, ACK_TYPE, [], 13) == [1, 35, 33, 89, 63, 13]
    ensures Reply(1, NACK_TYPE, [], 13) == [1, 35, 33, 78, 52, 13]
  {
    hide Sum, Ktrans;
    var b := Header(0, ACK_TYPE, 8) + Offered(8);
    assert b == [43, 32, 89, 126, 33, 32, 64, 45, 35, 78, 49];
    SumEleven(b);
    EmptyPacket(1, ACK_TYPE, 63);
    EmptyPacket(1, NACK_TYPE, 52);
  }

  lemma TextDecoded()
    ensures Decoded(35, false, TEXT) == [65, 13, 10, 35]
  {
    DecodePair(35, 77);
    DecodePair(35, 74);
    DecodePair(35, 35);
    DecodeSingle(35, false, 65);
    assert TEXT == [65] + [35, 77] + [35, 74] + [35, 35];
    hide Decoded, Pending;
    DecodeConcat(35, false, [65], [35, 77]);
    DecodeConcat(35, false, [65] + [35, 77], [35, 74]);
    DecodeConcat(35, false, [65] + [35, 77] + [35, 74], [35, 35]);
  }

  /** Between packets ^C ends the transfer, whatever follows it. */
  lemma Interrupt(r: Recv, rest: seq<Byte>)
    ensures Session(r, [3] + rest, 0) == Ended(r, Interrupted)
  {}

  /** One good packet of a session. */
  lemma PacketTaken(r: Recv, pre: seq<Byte>, n: nat, typ: Byte, data: seq<Byte>, rest: seq<Byte>)
    requires n < 95 && Printable(typ) && AllPrintable(data) && |data| <= SHORT_MAX
    ensures var s := pre + [START_CHAR] + Frame(n, typ, data) + rest;
            var end := |pre| + 1 + |Frame(n, typ, data)|;
            var r' := Received(r, n, Parsed(Good, typ, data, end));
            Session(r, s, |pre|) == if typ == BREAK_TYPE then Ended(r', Complete) else Session(r', s, end)
  {
    hide Parse, Received, Frame;
    var f := pre + [START_CHAR];
    var s := f + Frame(n, typ, data) + rest;
    FrameAccepted(f, n, typ, data, rest);
    FrameStarts(n, typ, data);
    assert s[|pre|] == START_CHAR && s[|f|] == Frame(n, typ, data)[0] && s[|f| + 1] == Frame(n, typ, data)[1];
  }

  lemma FrameStarts(n: nat, typ: Byte, data: seq<Byte>)
    requires n < 95 && |data| <= SHORT_MAX
    ensures |Frame(n, typ, data)| >= 2
    ensures Printable(Frame(n, typ, data)[0]) && Printable(Frame(n, typ, data)[1])
    ensures UnToChar(Frame(n, typ, data)[1]) == n
  {
    CharCodec(n);
    CharCodec(|data| + 3);
    hide Sum, Check, ToChar, UnToChar;
    assert Frame(n, typ, data)[..2] == [ToChar(|data| + 3), ToChar(n)];
  }

  /** What the receiver is left with after the four packets. */
  function AfterPackets(start: nat, mem: map<nat, Byte>): Recv
  {
    var r1 := Received(Initial(start, mem), 0, Parsed(Good, SEND_TYPE, PARMS, 14));
    var r2 := Received(r1, 1, Parsed(Good, DATA_TYPE, TEXT, 27));
    var r3 := Received(r2, 2, Parsed(Good, 'Z' as int, [], 33));
    Received(r3, 3, Parsed(Good, BREAK_TYPE, [], 39))
  }

  function Line(): seq<Byte>
  {
    [1] + SEND + [1] + DATA + [1] + END_OF_FILE + [1] + BREAK
  }

  lemma LineTaken(start: nat, mem: map<nat, Byte>)
    ensures Session(Initial(start, mem), Line(), 0) == Ended(AfterPackets(start, mem), Complete)
  {
    hide Session, Received, Initial, Frame;
    SendPacket();
    DataPacket();
    LastPackets();
    var r0 := Initial(start, mem);
    var p1, p2, p3 := [1] + SEND, [1] + SEND + [1] + DATA, [1] + SEND + [1] + DATA + [1] + END_OF_FILE;
    var s := Line();
    assert s == [] + [1] + SEND + ([1] + DATA + [1] + END_OF_FILE + [1] + BREAK);
    PacketTaken(r0, [], 0, SEND_TYPE, PARMS, [1] + DATA + [1] + END_OF_FILE + [1] + BREAK);
    var r1 := Received(r0, 0, Parsed(Good, SEND_TYPE, PARMS, 14));
    assert s == p1 + [1] + DATA + ([1] + END_OF_FILE + [1] + BREAK);
    PacketTaken(r1, p1, 1, DATA_TYPE, TEXT, [1] + END_OF_FILE + [1] + BREAK);
    var r2 := Received(r1, 1, Parsed(Good, DATA_TYPE, TEXT, 27));
    assert s == p2 + [1] + END_OF_FILE + ([1] + BREAK);
    PacketTaken(r2, p2, 2, 'Z' as int, [], [1] + BREAK);
    var r3 := Received(r2, 2, Parsed(Good, 'Z' as int, [], 33));
    assert s == p3 + [1] + BREAK + [];
    PacketTaken(r3, p3, 3, BREAK_TYPE, [], []);
  }

  lemma FileStored(start: nat, mem: map<nat, Byte>)
    ensures var c := AfterPackets(start, mem).cur;
            c.addr == start + 4 && Stores(c.mem, start, [65, 13, 10, 35]) && SameOutside(mem, c.mem, start, start + 4)
  {
    hide FeedAll, Decoded, Stores, SameOutside, Ktrans;
    TextDecoded();
    FeedStores(35, Cursor(false, start, mem), TEXT);
  }

  /** k_recv on the 39 characters above: it reports four bytes, and they are in memory. */
  method RecordedTransfer(start: nat, mem: map<nat, Byte>) returns (outcome: Outcome, size: int, r: Receiver)
    ensures outcome == Complete && size == 4
    ensures r.mem.Keys >= {start, start + 1, start + 2, start + 3}
    ensures r.mem[start] == 65 && r.mem[start + 1] == 13 && r.mem[start + 2] == 10 && r.mem[start + 3] == 35
    ensures SameOutside(mem, r.mem, start, start + 4)
  {
    hide Session, Line, AfterPackets;
    r := new Receiver(Line(), start, mem);
    LineTaken(start, mem);
    FileStored(start, mem);
    outcome, size := r.Receive();
    assert r.mem[start] == [65, 13, 10, 35][0] && r.mem[start + 1] == [65, 13, 10, 35][1];
    assert r.mem[start + 2] == [65, 13, 10, 35][2] && r.mem[start + 3] == [65, 13, 10, 35][3];
  }
}
