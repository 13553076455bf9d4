/** k_data_* and os_data_*: decoding into memory, with a checkpoint. */
module KermitData {
  import opened Bytes
  import opened KermitQuote
  import opened KermitFrame
  import opened KermitReply

  /** The write position, the quotation flag, and memory. */
  datatype Cursor = Cursor(escape: bool, addr: nat, mem: map<nat, Byte>)

  /** k_data_char into bin_data_char. */
  function Feed(q: Byte, c: Cursor, ch: Byte): Cursor
  {
    if c.escape then Cursor(false, c.addr + 1, c.mem[c.addr := Ktrans(ch)])
    else if ch == q then c.(escape := true)
    else Cursor(false, c.addr + 1, c.mem[c.addr := ch])
  }

  function FeedAll(q: Byte, c: Cursor, s: seq<Byte>): Cursor
  {
    if s == [] then c else Feed(q, FeedAll(q, c, s[..|s| - 1]), s[|s| - 1])
  }

  ghost predicate Stores(mem: map<nat, Byte>, at: nat, bytes: seq<Byte>)
  {
    forall x :: at <= x < at + |bytes| ==> x in mem && mem[x] == bytes[x - at]
  }

  ghost predicate SameOutside(m: map<nat, Byte>, m': map<nat, Byte>, lo: nat, hi: nat)
  {
    forall x :: x < lo || hi <= x ==> (x in m <==> x in m') && (x in m ==> m'[x] == m[x])
  }

  lemma DecodeSingle(q: Byte, escape: bool, ch: Byte)
    ensures Decoded(q, escape, [ch]) == if escape then [Ktrans(ch)] else if ch == q then [] else [ch]
    ensures Pending(q, escape, [ch]) == (!escape && ch == q)
  {
    assert [ch][1..] == [];
  }

  lemma StoresStep(q: Byte, c: Cursor, c1: Cursor, ch: Byte, d: seq<Byte>)
    requires c1.addr == c.addr + |d| && Stores(c1.mem, c.addr, d) && SameOutside(c.mem, c1.mem, c.addr, c1.addr)
    ensures var d1 := Decoded(q, c1.escape, [ch]);
            var c2 := Feed(q, c1, ch);
            && c2.escape == Pending(q, c1.escape, [ch]) && c2.addr == c1.addr + |d1|
            && Stores(c2.mem, c.addr, d + d1) && SameOutside(c.mem, c2.mem, c.addr, c2.addr)
  {
    hide Decoded, Pending, Ktrans;
    DecodeSingle(q, c1.escape, ch);
    var c2 := Feed(q, c1, ch);
    if !c1.escape && ch == q {
      assert d + [] == d;
    } else {
      StoreOne(c.mem, c1.mem, c.addr, d, if c1.escape then Ktrans(ch) else ch);
    }
  }

  lemma StoreOne(m: map<nat, Byte>, m1: map<nat, Byte>, at: nat, d: seq<Byte>, x: Byte)
    requires Stores(m1, at, d) && SameOutside(m, m1, at, at + |d|)
    ensures Stores(m1[at + |d| := x], at, d + [x]) && SameOutside(m, m1[at + |d| := x], at, at + |d| + 1)
  {}

  /** Feeding characters stores exactly what they decode to, and nothing else. */
  lemma {:induction false} FeedStores(q: Byte, c: Cursor, s: seq<Byte>)
    ensures var d := Decoded(q, c.escape, s);
            var c' := FeedAll(q, c, s);
            && c'.escape == Pending(q, c.escape, s) && c'.addr == c.addr + |d|
            && Stores(c'.mem, c.addr, d) && SameOutside(c.mem, c'.mem, c.addr, c'.addr)
    decreases |s|
  {
    if s == [] {
    } else {
      hide Feed, Stores, SameOutside, Decoded, Pending;
      var s0, ch := s[..|s| - 1], s[|s| - 1];
      assert s == s0 + [ch];
      FeedStores(q, c, s0);
      DecodeConcat(q, c.escape, s0, [ch]);
      StoresStep(q, c, FeedAll(q, c, s0), ch, Decoded(q, c.escape, s0));
    }
  }

  lemma FeedStep(q: Byte, c: Cursor, s: seq<Byte>, p: nat, e: nat)
    requires p <= e < |s|
    ensures FeedAll(q, c, s[p..e + 1]) == Feed(q, FeedAll(q, c, s[p..e]), s[e])
  {
    hide Feed;
    assert s[p..e + 1][..e - p] == s[p..e];
  }

  lemma SumStep(s: seq<Byte>, p: nat, e: nat)
    requires p <= e < |s|
    ensures Sum(s[p..e + 1]) == Sum(s[p..e]) + s[e]
  {
    assert s[p..e + 1][..e - p] == s[p..e];
  }

  // ---- the receiver's state, and what one packet does to it --------------------

  /** The decoder, its checkpoint, the last sequence number, and the quote character. */
  datatype Recv = Recv(cur: Cursor, savedEscape: bool, savedAddr: nat, lastN: int, quote: Byte)

  function Initial(start: nat, mem: map<nat, Byte>): Recv
  {
    Recv(Cursor(false, start, mem), false, start, -1, K_ESCAPE)
  }

  /** k_data_restore; memory is not rolled back. */
  function Restored(r: Recv): Cursor
  {
    Cursor(r.savedEscape, r.savedAddr, r.cur.mem)
  }

  /** Where a packet numbered `n` starts decoding. */
  function Base(r: Recv, n: int): Cursor
  {
    if n == r.lastN then Restored(r) else r.cur
  }

  /** The checkpoint logic that runs once the sequence number is known. */
  function Begin(r: Recv, n: int): Recv
  {
    var base := Base(r, n);
    Recv(base, base.escape, base.addr, n, r.quote)
  }

  /** send_ptr stays below the end of send_parms, and the last slot is ignored. */
  function Parms(data: seq<Byte>): seq<Byte>
  {
    if |data| < 19 then data else data[..18]
  }

  /** The rest of the packet, for a receiver at its checkpoint. */
  function Finish(r: Recv, p: Parsed): Recv
  {
    var fed := if p.typ == DATA_TYPE then FeedAll(r.quote, r.cur, p.data) else r.cur;
    var cur := if p.status == Bad then r.cur.(mem := fed.mem) else fed;
    r.(cur := cur,
       quote := if p.status == Good && p.typ == SEND_TYPE then Negotiated(Parms(p.data)).quote else r.quote)
  }

  /** A packet whose length and sequence characters were read as characters. */
  function Received(r: Recv, n: int, p: Parsed): Recv
  {
    Finish(Begin(r, n), p)
  }

  /** The receiver after a packet attempt, how it ended, and where. */
  datatype Tried = Tried(r: Recv, status: Status, end: nat)

  /** One packet attempt, its characters after START standing at `f` on the line. */
  function Attempt(r: Recv, s: seq<Byte>, f: nat): Tried
    requires f <= |s|
  {
    if f == |s| then Tried(r, Starved, f)
    else if !Printable(s[f]) then Tried(HeaderLost(r), Bad, f + 1)
    else if f + 1 == |s| then Tried(r, Starved, f + 1)
    else if !Printable(s[f + 1]) then Tried(HeaderLost(r), Bad, f + 2)
    else var p := Parse(s, f); Tried(Received(r, UnToChar(s[f + 1]), p), p.status, p.end)
  }

  /** A packet that failed before its sequence number was known. */
  function HeaderLost(r: Recv): Recv
  {
    r.(cur := Restored(r))
  }
}

/** k_recv */
module KermitReceiver {
  import opened Bytes
  import opened KermitQuote
  import opened KermitFrame
  import opened KermitReply
  import opened KermitData

  const ETX_CHAR := 0x03

  /** k_recv still waits for characters, was interrupted by ^C, or has finished. */
  datatype Outcome = Waiting | Interrupted | Complete
  datatype Ended = Ended(r: Recv, outcome: Outcome)

  /** What k_recv makes of all the characters of a line from position `p` on. */
  function Session(r: Recv, s: seq<Byte>, p: nat): Ended
    requires p <= |s|
    decreases |s| - p
  {
    if p == |s| then Ended(r, Waiting)
    else if s[p] == ETX_CHAR then Ended(r, Interrupted)
    else if s[p] != START_CHAR then Session(r, s, p + 1)
    else
      var t := Attempt(r, s, p + 1);
      AttemptMoves(r, s, p + 1);
      if t.status == Starved then Ended(t.r, Waiting)
      else if t.status == Good && Parse(s, p + 1).typ == BREAK_TYPE then Ended(t.r, Complete)
      else Session(t.r, s, t.end)
  }

  lemma AttemptMoves(r: Recv, s: seq<Byte>, f: nat)
    requires f <= |s|
    ensures f <= Attempt(r, s, f).end <= |s|
    ensures Attempt(r, s, f).status == Good ==> f + 2 <= |s|
  {
    hide FeedAll, Sum, Check;
  }

  class Receiver {
    // the serial line: characters that will arrive, and how many have been read
    const line: seq<Byte>
    var pos: nat
    // k_data and os_data state, with the saved copies
    var escape: bool
    var escapeSaved: bool
    var addr: nat
    var addrSaved: nat
    var mem: map<nat, Byte>
    const start: nat
    // k_recv's own variables
    var n: nat
    var lastN: int
    var kState: Byte
    var kStateSaved: Byte
    var peer: Peer
    const a_b: array<Byte>

    constructor (line: seq<Byte>, start: nat, mem: map<nat, Byte>)
      ensures Valid() && State() == Initial(start, mem) && fresh(a_b)
      ensures this.line == line && pos == 0 && this.start == start && kState == 0
    {
      this.line, pos := line, 0;
      escape, escapeSaved := false, false;
      addr, addrSaved, this.start, this.mem := start, start, start, mem;
      n, lastN, kState, kStateSaved := 0, -1, 0, 0;
      peer := Peer(END_CHAR, 0, 0, K_ESCAPE);
      a_b := new Byte[24];
    }

    ghost predicate Valid()
      reads this
    {
      pos <= |line| && n < 224 && lastN < 224 && a_b.Length == 24
    }

    ghost function State(): Recv
      reads this
    {
      Recv(Cursor(escape, addr, mem), escapeSaved, addrSaved, lastN, peer.quote)
    }

    method DataSave()
      modifies this`escapeSaved, this`addrSaved
      ensures escapeSaved == escape && addrSaved == addr
    {
      escapeSaved, addrSaved := escape, addr;
    }

    method DataRestore()
      modifies this`escape, this`addr
      ensures escape == escapeSaved && addr == addrSaved
    {
      escape, addr := escapeSaved, addrSaved;
    }

    /** k_data_char */
    method DataChar(ch: Byte)
      modifies this`escape, this`addr, this`mem
      ensures Cursor(escape, addr, mem) == Feed(peer.quote, old(Cursor(escape, addr, mem)), ch)
    {
      if escape {
        mem := mem[addr := Ktrans(ch)];
        addr := addr + 1;
        escape := false;
      } else if ch == peer.quote {
        escape := true;
      } else {
        mem := mem[addr := ch];
        addr := addr + 1;
      }
    }

    /** The characters last put on the line in reply. */
    ghost function Sent(): seq<Byte>
      reads this, a_b
    {
      CString(a_b[..], 0)
    }

    ghost function Where(): Cursor
      reads this`escape, this`addr, this`mem
    {
      Cursor(escape, addr, mem)
    }

    /** Passes on one character of a data packet, or keeps one of a send-init packet. */
    method Take(c: Byte, parms: seq<Byte>) returns (parms': seq<Byte>)
      modifies this`escape, this`addr, this`mem
      ensures kState == DATA_TYPE ==> Where() == Feed(peer.quote, old(Where()), c)
      ensures kState != DATA_TYPE ==> Where() == old(Where())
      ensures kState == SEND_TYPE ==> parms' == if |parms| < 19 then parms + [c] else parms
    {
      parms' := parms;
      if kState == DATA_TYPE {
        DataChar(c);
      } else if kState == SEND_TYPE {
        // *send_ptr++ = c, backing off at the end of the buffer
        if |parms| < 19 {
          parms' := parms + [c];
        }
      }
    }

    /** What the data loop has done after reading line[p..e]. */
    ghost predicate Taken(before: Cursor, p: nat, e: nat, f: nat, sum: nat, parms: seq<Byte>)
      requires f <= p <= e <= |line|
      reads this
    {
      && Where() == (if kState == DATA_TYPE then FeedAll(peer.quote, before, line[p..e]) else before)
      && sum == Sum(line[f..e])
      && (kState == SEND_TYPE ==> parms == SendParms(line[p..e]))
    }

    /** One turn of the data loop. */
    method TakeNext(sum: nat, parms: seq<Byte>, ghost before: Cursor, ghost p: nat, ghost f: nat)
      returns (sum': nat, parms': seq<Byte>)
      requires f <= p <= pos < |line| && Taken(before, p, pos, f, sum, parms)
      modifies this`pos, this`escape, this`addr, this`mem
      ensures pos == old(pos) + 1 && Taken(before, p, pos, f, sum', parms')
    {
      hide FeedAll, Feed, Sum, SendParms;
      var c := line[pos];
      SumStep(line, f, pos);
      FeedStep(peer.quote, before, line, p, pos);
      SendParmsStep(line[p..pos], c);
      assert line[p..pos + 1] == line[p..pos] + [c];
      sum' := sum + c;
      parms' := Take(c, parms);
      pos := pos + 1;
    }

    /** The data loop: reads `length - 1` characters, stopping at one below SPACE. */
    method ReadData(length0: int, sum0: nat, ghost f: nat) returns (status: Status, sum: nat, parms: seq<Byte>, ghost m: nat)
      requires Valid() && f <= pos && sum0 == Sum(line[f..pos])
      modifies this`pos, this`escape, this`addr, this`mem
      ensures Valid() && old(pos) + m <= |line|
      ensures m == PrintableRun(line, old(pos), if length0 > 1 then length0 - 1 else 0)
      ensures status == if m == (if length0 > 1 then length0 - 1 else 0) then Good
              else if old(pos) + m == |line| then Starved else Bad
      ensures pos == old(pos) + m + (if status == Bad then 1 else 0)
      ensures Taken(old(Where()), old(pos), old(pos) + m, f, sum, parms)
    {
      hide FeedAll, Feed, Sum, PrintableRun, SendParms, Receiver.Taken, Printable, AllPrintable;
      ghost var p, before := pos, Where();
      ghost var k := if length0 > 1 then length0 - 1 else 0;
      var length := length0;
      sum, parms, status, m := sum0, [], Good, 0;
      TakenNone(before, f, sum);
      while length > 1
        invariant p <= pos <= |line| && m == pos - p && m <= k
        invariant if length > 1 then length - 1 == k - m else m == k
        invariant PrintableRun(line, p, k) == m + PrintableRun(line, pos, k - m)
        invariant Taken(before, p, pos, f, sum, parms)
        decreases length
      {
        RunStep(line, pos, k - m);
        if pos == |line| {
          status := Starved;
          return;
        }
        if !Printable(line[pos]) {
          status := Bad;
          Skip(before, p, f, sum, parms);
          return;
        }
        sum, parms := TakeNext(sum, parms, before, p, f);
        length := length - 1;
        m := m + 1;
      }
      RunStep(line, pos, 0);
    }

    /** The two length characters of an extended packet and their check. */
    method ReadLong(sum0: nat, ghost f: nat) returns (status: Status, length: int, sum: nat)
      requires Valid() && f <= pos && sum0 == Sum(line[f..pos])
      modifies this`pos
      ensures Valid() && old(pos) <= pos
      ensures status == Good ==>
        sum == Sum(line[f..pos]) &&
        ParseLong(line, f, kState, old(pos)) == ParseRest(line, f, kState, pos, length)
      ensures status != Good ==> ParseLong(line, f, kState, old(pos)) == Parsed(status, kState, [], pos)
    {
      hide Sum, Check, ParseRest, ParseLong, ToChar, UnToChar, Printable;
      ghost var p := pos;
      LongCases(line, f, kState, p);
      length, sum := 0, sum0;
      if pos == |line| { return Starved, length, sum; }
      var hi := line[pos];
      pos := pos + 1;
      if !Printable(hi) { return Bad, length, sum; }
      SumStep(line, f, p);
      sum := sum + hi;
      if pos == |line| { return Starved, length, sum; }
      var lo := line[pos];
      pos := pos + 1;
      if !Printable(lo) { return Bad, length, sum; }
      SumStep(line, f, p + 1);
      sum := sum + lo;
      length := UnToChar(hi) as int * 95 + UnToChar(lo);
      if pos == |line| { return Starved, length, sum; }
      var c := line[pos];
      pos := pos + 1;
      if !Printable(c) || c != ToChar(Check(sum)) { return Bad, length, sum; }
      SumStep(line, f, p + 2);
      sum := sum + c;
      return Good, length, sum;
    }

    /** The type character and, for length 0, the extended length. */
    method ReadHead(length0: int, sum0: nat, ghost f: nat) returns (status: Status, length: int, sum: nat)
      requires Valid() && pos == f + 2 && length0 == UnToChar(line[f]) - 1 && sum0 == Sum(line[f..pos])
      modifies this`pos, this`kState
      ensures Valid() && old(pos) <= pos
      ensures status == Good ==>
        && f + 3 <= pos && kState == line[f + 2] && sum == Sum(line[f..pos])
        && Parse(line, f) == ParseRest(line, f, kState, pos, length)
      ensures status != Good ==> Parse(line, f).status == status && Parse(line, f).data == [] && Parse(line, f).end == pos
    {
      hide Sum, ParseRest, ParseLong;
      length, sum := length0, sum0;
      if pos == |line| { return Starved, length, sum; }
      var c := line[pos];
      pos := pos + 1;
      if !Printable(c) { return Bad, length, sum; }
      SumStep(line, f, f + 2);
      sum, kState := sum + c, c;
      length := length - 1;
      if length == -2 {
        status, length, sum := ReadLong(sum, f);
      } else {
        status := Good;
      }
    }

    /** The block check and the end character. */
    method ReadTail(sum: nat, ghost f: nat, ghost typ: Byte, ghost data: seq<Byte>) returns (status: Status)
      requires Valid() && f <= pos && sum == Sum(line[f..pos])
      modifies this`pos
      ensures Valid()
      ensures old(pos) <= pos && ParseTail(line, f, typ, data, old(pos)) == Parsed(status, typ, data, pos)
    {
      hide Sum, Check, ToChar;
      if pos == |line| { return Starved; }
      var c := line[pos];
      pos := pos + 1;
      if !Printable(c) || c != ToChar(Check(sum)) { return Bad; }
      if pos == |line| { return Starved; }
      c := line[pos];
      pos := pos + 1;
      if c != END_CHAR { return Bad; }
      return Good;
    }

    /** The packet after its sequence number. */
    method ReadBody(length0: int, sum0: nat, ghost f: nat) returns (status: Status, parms: seq<Byte>)
      requires Valid() && pos == f + 2 && length0 == UnToChar(line[f]) - 1 && sum0 == Sum(line[f..pos])
      modifies this`pos, this`kState, this`escape, this`addr, this`mem
      ensures Valid() && old(pos) <= pos
      ensures var p := Parse(line, f);
              && status == p.status && pos == p.end
              && Where() == (if p.typ == DATA_TYPE then FeedAll(peer.quote, old(Where()), p.data) else old(Where()))
              && (status == Good ==> kState == p.typ && (p.typ == SEND_TYPE ==> parms == SendParms(p.data)))
    {
      hide Sum, Parse, ParseTail, PrintableRun, SendParms;
      parms := [];
      var length, sum;
      status, length, sum := ReadHead(length0, sum0, f);
      if status != Good { return; }
      ghost var p := pos;
      ghost var m;
      status, sum, parms, m := ReadData(length, sum, f);
      if status != Good { return; }
      status := ReadTail(sum, f, kState, line[p..p + m]);
    }

    /** packet_error: roll back to the checkpoint and ask for the packet again. */
    method PacketError()
      requires Valid()
      modifies this`kState, this`escape, this`addr, a_b
      ensures Valid() && State() == HeaderLost(old(State()))
      ensures Sent() == Reply(n, NACK_TYPE, [], peer.eol)
    {
      kState := kStateSaved;
      DataRestore();
      SendNack(a_b, n, peer.eol);
    }

    /** Same number: restore the previous state.  New number: checkpoint. */
    method Checkpoint()
      requires Valid()
      modifies this`lastN, this`kState, this`kStateSaved, this`escape, this`addr, this`escapeSaved, this`addrSaved
      ensures Valid() && State() == Begin(old(State()), n)
    {
      if n == lastN {
        kState := kStateSaved;
        DataRestore();
      } else {
        lastN := n;
        kStateSaved := kState;
        DataSave();
      }
    }

    /** The answer to a packet that arrived whole or was found in error. */
    method Answer(status: Status, parms: seq<Byte>)
      requires Valid() && status != Starved && (kState == SEND_TYPE && status == Good ==> |parms| <= 19)
      modifies this`kState, this`escape, this`addr, this`peer, a_b
      ensures Valid()
      ensures status == Bad ==> State() == HeaderLost(old(State())) && Sent() == Reply(n, NACK_TYPE, [], peer.eol)
      ensures status == Good ==> kState == old(kState) && Where() == old(Where())
      ensures status == Good && kState != SEND_TYPE ==> peer == old(peer) && Sent() == Reply(n, ACK_TYPE, [], peer.eol)
      ensures status == Good && kState == SEND_TYPE ==>
        peer == Negotiated(if |parms| == 19 then parms[..18] else parms) &&
        Sent() == Reply(n, ACK_TYPE, Offered(|parms|), peer.eol)
    {
      if status == Bad {
        PacketError();
      } else if kState == SEND_TYPE {
        peer := HandleSendPacket(a_b, n, parms);
      } else {
        SendAck(a_b, n, peer.eol);
      }
    }

    /** The packet once its sequence character `c` has been read. */
    method Numbered(c: Byte, length: int, sum: nat, ghost f: nat) returns (status: Status)
      requires Valid() && pos == f + 2 && line[f + 1] == c && Printable(c)
      requires length == UnToChar(line[f]) && sum == Sum(line[f..pos])
      modifies this, a_b
      ensures Valid() && old(pos) <= pos && n == UnToChar(c)
      ensures status == Parse(line, f).status && pos == Parse(line, f).end &&
              State() == Received(old(State()), UnToChar(c), Parse(line, f))
      ensures status == Bad ==> Sent() == Reply(n, NACK_TYPE, [], peer.eol)
      ensures status == Good ==> kState == Parse(line, f).typ
      ensures status == Good ==>
        Sent() == Reply(n, ACK_TYPE, if kState == SEND_TYPE then Offered(|Parse(line, f).data|) else [], peer.eol)
    {
      hide Parse, Sum, FeedAll, Reply, Negotiated, Offered, CString, Parms, SendParms;
      n := UnToChar(c);
      Checkpoint();
      var parms;
      status, parms := ReadBody(length - 1, sum, f);
      SendParmsTrim(Parse(line, f).data);
      if status != Starved {
        Answer(status, parms);
      }
    }

    /** One turn of the main loop, after START. */
    method Packet() returns (status: Status)
      requires Valid()
      modifies this, a_b
      ensures Valid() && old(pos) <= pos && (status != Starved ==> old(pos) < pos)
      ensures Tried(State(), status, pos) == Attempt(old(State()), line, old(pos))
      ensures status == Bad ==> Sent() == Reply(n, NACK_TYPE, [], peer.eol)
      ensures status == Good ==> kState == Parse(line, old(pos)).typ && n == UnToChar(line[old(pos) + 1])
      ensures status == Good ==>
        Sent() == Reply(n, ACK_TYPE, if kState == SEND_TYPE then Offered(|Parse(line, old(pos)).data|) else [], peer.eol)
    {
      hide Parse, Sum, Received, HeaderLost, Reply, Offered, CString;
      ghost var f := pos;
      if pos == |line| { return Starved; }
      var c := line[pos];
      pos := pos + 1;
      if !Printable(c) {
        PacketError();
        return Bad;
      }
      var sum: nat, length: int := c, UnToChar(c);
      if pos == |line| { return Starved; }
      c := line[pos];
      pos := pos + 1;
      if !Printable(c) {
        PacketError();
        return Bad;
      }
      SumTwo(line, f);
      status := Numbered(c, length, sum + c, f);
    }

    /** k_recv, on a receiver fresh from its constructor. */
    method Receive() returns (outcome: Outcome, size: int)
      requires Valid() && pos == 0
      modifies this, a_b
      ensures Valid() && Ended(State(), outcome) == Session(old(State()), line, 0)
      ensures size == if outcome == Complete then addr - start else 0
    {
      hide Attempt, Parse, CString, Reply;
      while true
        invariant Valid()
        invariant Session(State(), line, pos) == Session(old(State()), line, 0)
        decreases |line| - pos
      {
        if pos == |line| { return Waiting, 0; }
        var c := line[pos];
        pos := pos + 1;
        if c == ETX_CHAR { return Interrupted, 0; }
        if c == START_CHAR {
          var status := Packet();
          if status == Starved { return Waiting, 0; }
          if status == Good && kState == BREAK_TYPE { return Complete, addr - start; }
        }
      }
    }

    lemma TakenNone(before: Cursor, f: nat, sum: nat)
      requires f <= pos <= |line| && before == Where() && sum == Sum(line[f..pos])
      ensures Taken(before, pos, pos, f, sum, [])
    {
      assert line[pos..pos] == [];
    }

    /** The offending character is read and dropped. */
    method Skip(ghost before: Cursor, ghost p: nat, ghost f: nat, ghost sum: nat, ghost parms: seq<Byte>)
      requires f <= p <= pos < |line| && Taken(before, p, pos, f, sum, parms)
      modifies this`pos
      ensures pos == old(pos) + 1 && Taken(before, p, old(pos), f, sum, parms)
    {
      hide FeedAll, Sum, SendParms;
      pos := pos + 1;
    }
  }

  lemma SumTwo(s: seq<Byte>, f: nat)
    requires f + 2 <= |s|
    ensures Sum(s[f..f + 2]) == s[f] as int + s[f + 1]
  {
    SumStep(s, f, f + 1);
    SumStep(s, f, f);
    assert s[f..f] == [];
  }

  predicate Stops(s: seq<Byte>, p: nat)
  {
    p >= |s| || !Printable(s[p])
  }

  /** ParseLong, one character after the other. */
  lemma LongCases(s: seq<Byte>, f: nat, typ: Byte, p: nat)
    requires f <= p <= |s|
    ensures var long := ParseLong(s, f, typ, p);
            if Stops(s, p) then long == Cut(s, p, typ, [])
            else if Stops(s, p + 1) then long == Cut(s, p + 1, typ, [])
            else if Stops(s, p + 2) || s[p + 2] != CheckChar(s, f, p + 2) then long == Cut(s, p + 2, typ, [])
            else long == ParseRest(s, f, typ, p + 3, UnToChar(s[p]) as int * 95 + UnToChar(s[p + 1]))
  {
    hide Sum, CheckChar, ParseRest, PrintableRun, UnToChar, Printable;
    RunStep(s, p, 3);
    if !Stops(s, p) {
      RunStep(s, p + 1, 2);
      if !Stops(s, p + 1) {
        RunStep(s, p + 2, 1);
        if !Stops(s, p + 2) {
          RunStep(s, p + 3, 0);
        }
      }
    }
  }

  lemma RunStep(s: seq<Byte>, p: nat, k: nat)
    requires p <= |s|
    ensures PrintableRun(s, p, k) == if k > 0 && p < |s| && Printable(s[p]) then 1 + PrintableRun(s, p + 1, k - 1) else 0
  {}

  lemma SendParmsStep(data: seq<Byte>, c: Byte)
    ensures SendParms(data + [c]) == var d := SendParms(data); if |d| < 19 then d + [c] else d
  {}

  lemma SendParmsTrim(data: seq<Byte>)
    ensures var p := SendParms(data);
            |p| <= 19 && (if |p| == 19 then p[..18] else p) == Parms(data) && Offered(|p|) == Offered(|data|)
  {}

  /** send_parms up to send_ptr. */
  function SendParms(data: seq<Byte>): seq<Byte>
  {
    if |data| < 19 then data else data[..19]
  }
}
