/** Sender, receiver and lossy line together: safety over every run. */
module KermitRun {
  import opened Bytes
  import opened KermitQuote
  import opened KermitFrame
  import opened KermitReply
  import opened KermitData
  import opened KermitReceiver

  datatype Packet = Packet(typ: Byte, data: seq<Byte>)

  /** A transfer: a send-init packet, then files and data in any order, then a break. */
  ghost predicate Transfer(ps: seq<Packet>)
  {
    && |ps| >= 2 && ps[0].typ == SEND_TYPE && ps[|ps| - 1].typ == BREAK_TYPE
    && (forall i :: 0 < i < |ps| ==> ps[i].typ != SEND_TYPE)
    && (forall i :: 0 <= i < |ps| - 1 ==> ps[i].typ != BREAK_TYPE)
    && (forall i :: 0 <= i < |ps| ==> Printable(ps[i].typ) && AllPrintable(ps[i].data) && |ps[i].data| <= LONG_MAX)
  }

  /** The quote character agreed on by the send-init packet. */
  function QuoteOf(ps: seq<Packet>): Byte
    requires |ps| > 0
  {
    Negotiated(Parms(ps[0].data)).quote
  }

  /** One transmission of the current packet and what became of it.  `gap` is what stands
      on the line before it; `chars` are the characters after START, up to the one at
      which the receiver noticed the damage. */
  datatype Event =
    | Intact(gap: seq<Byte>, acknowledged: bool)
    | Garbled(gap: seq<Byte>, chars: seq<Byte>)
    | HeaderGarbled(gap: seq<Byte>, chars: seq<Byte>)
    | Vanished(gap: seq<Byte>)

  /** The stop-and-wait sender is at packet `i`.  `dropped` is history: the packets
      whose data a header failure discarded after they had been acknowledged. */
  datatype System = System(i: nat, r: Recv, done: bool, dropped: set<int>)

  function Number(i: nat): nat { i % 64 }

  function FrameOf(ps: seq<Packet>, i: nat): seq<Byte>
    requires i < |ps|
  {
    Frame(Number(i), ps[i].typ, ps[i].data)
  }

  /** Characters that neither start a packet nor interrupt the receiver. */
  predicate Quiet(s: seq<Byte>)
  {
    START_CHAR !in s && ETX_CHAR !in s
  }

  /** The characters of the packet as they arrive. */
  function Arriving(ps: seq<Packet>, i: nat, e: Event): seq<Byte>
    requires i < |ps|
  {
    match e
    case Intact(_, _) => FrameOf(ps, i)
    case Garbled(_, chars) => chars
    case HeaderGarbled(_, chars) => chars
    case Vanished(_) => []
  }

  ghost predicate Enabled(ps: seq<Packet>, st: System, e: Event)
  {
    && st.i < |ps| && !st.done && Quiet(e.gap)
    && match e
       case Intact(_, _) => true
       case Garbled(_, chars) =>
         // length and sequence characters intact, the damage noticed at the last character
         && |chars| >= 2 && chars[..2] == FrameOf(ps, st.i)[..2]
         && Attempt(st.r, chars, 0).status == Bad && Attempt(st.r, chars, 0).end == |chars|
       case HeaderGarbled(_, chars) =>
         || (|chars| == 1 && !Printable(chars[0]))
         || (|chars| == 2 && Printable(chars[0]) && !Printable(chars[1]))
       case Vanished(_) => true
  }

  ghost function Next(ps: seq<Packet>, st: System, e: Event): System
    requires Enabled(ps, st, e)
  {
    match e
    case Intact(_, acknowledged) =>
      var done := ps[st.i].typ == BREAK_TYPE;
      System(if acknowledged && !done then st.i + 1 else st.i, Attempt(st.r, FrameOf(ps, st.i), 0).r, done, st.dropped)
    case Garbled(_, chars) => st.(r := Attempt(st.r, chars, 0).r)
    case HeaderGarbled(_, chars) =>
      st.(r := Attempt(st.r, chars, 0).r,
          dropped := if st.r.lastN == -1 || st.r.lastN == Number(st.i) then st.dropped else st.dropped + {st.i - 1})
    case Vanished(_) => st
  }

  ghost predicate Run(ps: seq<Packet>, init: System, es: seq<Event>)
    decreases |es|, 0
  {
    es == [] || (Run(ps, init, es[..|es| - 1]) && Enabled(ps, After(ps, init, es[..|es| - 1]), es[|es| - 1]))
  }

  ghost function After(ps: seq<Packet>, init: System, es: seq<Event>): System
    requires Run(ps, init, es)
    decreases |es|, 1
  {
    if es == [] then init else Next(ps, After(ps, init, es[..|es| - 1]), es[|es| - 1])
  }

  function Fresh(start: nat, mem: map<nat, Byte>): System
  {
    System(0, Initial(start, mem), false, {})
  }

  // ---- what the receiver should hold ----------------------------------------

  function DataOf(p: Packet): seq<Byte> { if p.typ == DATA_TYPE then p.data else [] }

  /** The data characters of the first `k` packets, without the dropped ones. */
  function Stream(ps: seq<Packet>, dropped: set<int>, k: nat): seq<Byte>
    requires k <= |ps|
  {
    if k == 0 then [] else Stream(ps, dropped, k - 1) + (if k - 1 in dropped then [] else DataOf(ps[k - 1]))
  }

  /** The decoder stands after the characters `s`. */
  ghost predicate Stands(q: Byte, start: nat, escape: bool, addr: nat, mem: map<nat, Byte>, s: seq<Byte>)
  {
    escape == Pending(q, false, s) && addr == start + |Decoded(q, false, s)| && Stores(mem, start, Decoded(q, false, s))
  }

  ghost predicate AtCursor(ps: seq<Packet>, st: System, start: nat, k: nat)
    requires 0 < |ps| && k <= |ps|
  {
    Stands(QuoteOf(ps), start, st.r.cur.escape, st.r.cur.addr, st.r.cur.mem, Stream(ps, st.dropped, k))
  }

  ghost predicate AtCheckpoint(ps: seq<Packet>, st: System, start: nat, k: nat)
    requires 0 < |ps| && k <= |ps|
  {
    Stands(QuoteOf(ps), start, st.r.savedEscape, st.r.savedAddr, st.r.cur.mem, Stream(ps, st.dropped, k))
  }

  /** Where the decoder and its checkpoint are, by which header arrived last. */
  ghost predicate Positions(ps: seq<Packet>, st: System, start: nat)
    requires Transfer(ps) && st.i < |ps|
  {
    if st.r.lastN == Number(st.i) then
      // the current packet has been seen: the checkpoint is before it
      AtCheckpoint(ps, st, start, st.i) && (AtCursor(ps, st, start, st.i) || AtCursor(ps, st, start, st.i + 1))
    else if st.i == 0 then
      st.r.lastN == -1 && AtCheckpoint(ps, st, start, 0) && AtCursor(ps, st, start, 0)
    else
      // the packet before it was the last one seen, and it was acknowledged
      st.r.lastN == Number(st.i - 1) && AtCheckpoint(ps, st, start, st.i - 1) && AtCursor(ps, st, start, st.i)
  }

  ghost predicate Inv(ps: seq<Packet>, st: System, start: nat)
    requires Transfer(ps)
  {
    && st.i < |ps|
    && (forall k :: k in st.dropped ==> k < st.i)
    && (st.i > 0 ==> st.r.quote == QuoteOf(ps))
    && Positions(ps, st, start)
    && (st.done ==> st.i == |ps| - 1 && AtCursor(ps, st, start, |ps|))
  }

  /** Feeding characters never touches what is already decoded; with the agreed quote
      character it extends it. */
  lemma FedStands(q: Byte, start: nat, c: Cursor, s: seq<Byte>, quote: Byte, data: seq<Byte>)
    requires Stands(q, start, c.escape, c.addr, c.mem, s)
    ensures var c' := FeedAll(quote, c, data);
            && Stands(q, start, c.escape, c.addr, c'.mem, s)
            && (quote == q ==> Stands(q, start, c'.escape, c'.addr, c'.mem, s + data))
  {
    hide FeedAll, Decoded, Pending;
    FeedStores(quote, c, data);
    DecodeConcat(q, false, s, data);
  }

  /** A packet always starts decoding after exactly the packets before it. */
  lemma BaseStands(ps: seq<Packet>, st: System, start: nat)
    requires Transfer(ps) && Inv(ps, st, start)
    ensures var b := Base(st.r, Number(st.i));
            Stands(QuoteOf(ps), start, b.escape, b.addr, b.mem, Stream(ps, st.dropped, st.i))
  {
    hide Stands, Stream, QuoteOf;
  }

  /** The receiver's step on a packet of the current number that was parsed as `p`. */
  lemma ReceivedStands(ps: seq<Packet>, st: System, start: nat, p: Parsed)
    requires Transfer(ps) && Inv(ps, st, start) && p.status != Starved
    ensures var r := Received(st.r, Number(st.i), p);
            var q := QuoteOf(ps);
            var s := Stream(ps, st.dropped, st.i);
            && r.lastN == Number(st.i)
            && Stands(q, start, r.savedEscape, r.savedAddr, r.cur.mem, s)
            && (p.status == Bad ==> r.quote == st.r.quote && Stands(q, start, r.cur.escape, r.cur.addr, r.cur.mem, s))
            && (p.status == Good && (p.typ == DATA_TYPE ==> st.i > 0) ==>
                  Stands(q, start, r.cur.escape, r.cur.addr, r.cur.mem, s + DataOf(Packet(p.typ, p.data))))
  {
    hide Stands, Stream, QuoteOf, FeedAll, Negotiated;
    BaseStands(ps, st, start);
    var b := Base(st.r, Number(st.i));
    var s := Stream(ps, st.dropped, st.i);
    FedStands(QuoteOf(ps), start, b, s, st.r.quote, p.data);
    assert s + [] == s;
  }

  lemma StreamStep(ps: seq<Packet>, dropped: set<int>, k: nat)
    requires k < |ps|
    ensures Stream(ps, dropped, k + 1) == Stream(ps, dropped, k) + (if k in dropped then [] else DataOf(ps[k]))
  {}

  /** Dropping a packet does not change the stream before it. */
  lemma {:induction false} StreamAgrees(ps: seq<Packet>, d: set<int>, d': set<int>, k: nat)
    requires k <= |ps| && forall j :: 0 <= j < k ==> (j in d <==> j in d')
    ensures Stream(ps, d, k) == Stream(ps, d', k)
  {
    if k == 0 {
    } else {
      StreamAgrees(ps, d, d', k - 1);
    }
  }

  lemma IntactParsed(ps: seq<Packet>, i: nat, r: Recv)
    requires Transfer(ps) && i < |ps|
    ensures var fr := FrameOf(ps, i);
            && |fr| >= 2 && Parse(fr, 0) == Parsed(Good, ps[i].typ, ps[i].data, |fr|)
            && Attempt(r, fr, 0) == Tried(Received(r, Number(i), Parse(fr, 0)), Good, |fr|)
  {
    hide Parse, Received, HeaderLost, Sum, Check, ToChar, UnToChar, Frame;
    var fr := FrameOf(ps, i);
    FrameAccepted([], Number(i), ps[i].typ, ps[i].data, []);
    FrameStart(Number(i), ps[i].typ, ps[i].data);
    assert [] + fr + [] == fr;
  }

  lemma FrameStart(n: nat, typ: Byte, data: seq<Byte>)
    requires n < 64 && |data| <= LONG_MAX
    ensures var fr := Frame(n, typ, data);
            && |fr| >= 3 && Printable(fr[0]) && Printable(fr[1]) && UnToChar(fr[1]) == n
  {
    hide Sum, Check, ToChar, UnToChar;
    CharCodec(n);
    CharCodec(0);
    if |data| <= SHORT_MAX { CharCodec(|data| + 3); }
  }

  lemma IntactKeeps(ps: seq<Packet>, st: System, start: nat, e: Event)
    requires Transfer(ps) && Inv(ps, st, start) && Enabled(ps, st, e) && e.Intact?
    ensures Inv(ps, Next(ps, st, e), start)
  {
    hide Stands, Stream, QuoteOf, FeedAll, Frame, Attempt, Base, Negotiated, Parse;
    IntactParsed(ps, st.i, st.r);
    var p := Parse(FrameOf(ps, st.i), 0);
    ReceivedStands(ps, st, start, p);
    StreamStep(ps, st.dropped, st.i);
    IntactQuote(ps, st, p);
  }

  lemma IntactQuote(ps: seq<Packet>, st: System, p: Parsed)
    requires Transfer(ps) && st.i < |ps| && p.status == Good && p.typ == ps[st.i].typ && p.data == ps[st.i].data
    requires st.i > 0 ==> st.r.quote == QuoteOf(ps)
    ensures Received(st.r, Number(st.i), p).quote == QuoteOf(ps)
  {
    hide FeedAll, Negotiated;
  }

  lemma GarbledKeeps(ps: seq<Packet>, st: System, start: nat, e: Event)
    requires Transfer(ps) && Inv(ps, st, start) && Enabled(ps, st, e) && e.Garbled?
    ensures Inv(ps, Next(ps, st, e), start)
  {
    hide Stands, Stream, QuoteOf, FeedAll, Parse, Frame, Received, Negotiated;
    FrameStart(Number(st.i), ps[st.i].typ, ps[st.i].data);
    assert e.chars[0] == e.chars[..2][0] && e.chars[1] == e.chars[..2][1];
    ReceivedStands(ps, st, start, Parse(e.chars, 0));
  }

  lemma HeaderKeeps(ps: seq<Packet>, st: System, start: nat, e: Event)
    requires Transfer(ps) && Inv(ps, st, start) && Enabled(ps, st, e) && e.HeaderGarbled?
    ensures Inv(ps, Next(ps, st, e), start)
  {
    hide Stands, QuoteOf, Parse, Received, Stream;
    var st' := Next(ps, st, e);
    assert st'.r == HeaderLost(st.r);
    if st.i > 0 {
      StreamAgrees(ps, st.dropped, st'.dropped, st.i - 1);
      StreamStep(ps, st'.dropped, st.i - 1);
      assert Stream(ps, st'.dropped, st.i - 1) + [] == Stream(ps, st'.dropped, st.i - 1);
    }
  }

  /** The invariant holds in every state of every run. */
  lemma {:induction false} RunKeeps(ps: seq<Packet>, start: nat, mem: map<nat, Byte>, es: seq<Event>)
    requires Transfer(ps) && Run(ps, Fresh(start, mem), es)
    ensures Inv(ps, After(ps, Fresh(start, mem), es), start)
    decreases |es|
  {
    if es == [] {
    } else {
      hide Inv, Enabled, Next;
      RunKeeps(ps, start, mem, es[..|es| - 1]);
      var st := After(ps, Fresh(start, mem), es[..|es| - 1]);
      var e := es[|es| - 1];
      match e
      case Intact(_, _) => IntactKeeps(ps, st, start, e);
      case Garbled(_, _) => GarbledKeeps(ps, st, start, e);
      case HeaderGarbled(_, _) => HeaderKeeps(ps, st, start, e);
      case Vanished(_) => assert Next(ps, st, e) == st by { NextVanished(ps, st, e); }
    }
  }

  lemma NextVanished(ps: seq<Packet>, st: System, e: Event)
    requires Enabled(ps, st, e) && e.Vanished?
    ensures Next(ps, st, e) == st
  {}

  // ---- results -------------------------------------------------------------------

  /** A packet that arrives again, whole, after it was accepted leaves the receiver,
      memory included, as it was. */
  lemma RetransmissionChangesNothing(r: Recv, n: int, p: Parsed)
    requires p.status == Good
    ensures var r1 := Received(r, n, p);
            Received(r1, n, p) == r1
  {
    hide FeedAll, Decoded, Pending, Negotiated;
    var b := Base(r, n);
    var r1 := Received(r, n, p);
    if p.typ == DATA_TYPE {
      FeedStores(r.quote, b, p.data);
      var b1 := Base(r1, n);
      FeedStores(r.quote, b1, p.data);
      assert FeedAll(r.quote, b1, p.data).mem == r1.cur.mem;
    }
  }

  /** Memory from the start address holds the file and the length is right. */
  ghost predicate Loaded(st: System, start: nat, file: seq<Byte>)
  {
    st.r.cur.addr == start + |file| && Stores(st.r.cur.mem, start, file)
  }

  /** Every run that finishes leaves exactly the kept packets' data, decoded. */
  lemma FinishedRun(ps: seq<Packet>, start: nat, mem: map<nat, Byte>, es: seq<Event>)
    requires Transfer(ps) && Run(ps, Fresh(start, mem), es)
    ensures var st := After(ps, Fresh(start, mem), es);
            st.done ==> Loaded(st, start, Decoded(QuoteOf(ps), false, Stream(ps, st.dropped, |ps|)))
  {
    hide Stream, QuoteOf, Decoded, Pending, Positions;
    RunKeeps(ps, start, mem, es);
  }

  /** The sender's data packets carry the quoted file, cut anywhere. */
  ghost predicate Carries(ps: seq<Packet>, file: seq<Byte>)
    requires |ps| > 0
  {
    Stream(ps, {}, |ps|) == QuoteAll(QuoteOf(ps), file)
  }

  // ---- what is lost, read off the events --------------------------------------------------

  /** How many packets the sender has had acknowledged. */
  function Sent(es: seq<Event>): nat
  {
    if es == [] then 0
    else Sent(es[..|es| - 1]) + (if es[|es| - 1].Intact? && es[|es| - 1].acknowledged then 1 else 0)
  }

  /** The last packet of which sequence number and more arrived was acknowledged, and
      nothing of its successor has come since. */
  predicate Exposed(es: seq<Event>)
  {
    es != [] &&
    match es[|es| - 1]
    case Intact(_, acknowledged) => acknowledged
    case Garbled(_, _) => false
    case _ => Exposed(es[..|es| - 1])
  }

  /** Event `k` discards the packet acknowledged last. */
  predicate Strikes(es: seq<Event>, k: nat)
    requires k < |es|
  {
    es[k].HeaderGarbled? && Exposed(es[..k])
  }

  lemma {:induction false} ExposedSent(es: seq<Event>)
    requires Exposed(es)
    ensures Sent(es) > 0
    decreases |es|
  {
    if es[|es| - 1].Intact? {
    } else {
      ExposedSent(es[..|es| - 1]);
    }
  }

  /** No event discards a packet with data: each header failure that comes right after an
      acknowledgement finds a packet without data acknowledged. */
  ghost predicate NothingLost(ps: seq<Packet>, es: seq<Event>)
  {
    forall k: nat :: k < |es| && Strikes(es, k) && 0 < Sent(es[..k]) <= |ps| ==> DataOf(ps[Sent(es[..k]) - 1]) == []
  }

  /** The packets that the events discard. */
  function Lost(es: seq<Event>): set<int>
  {
    if es == [] then {}
    else
      var before := es[..|es| - 1];
      Lost(before) + (if es[|es| - 1].HeaderGarbled? && Exposed(before) then {Sent(before) - 1} else {})
  }

  /** The sender's position and the discarded packets follow from the events alone. */
  lemma {:induction false} HistoryIsEvents(ps: seq<Packet>, start: nat, mem: map<nat, Byte>, es: seq<Event>)
    requires Transfer(ps) && Run(ps, Fresh(start, mem), es)
    ensures var st := After(ps, Fresh(start, mem), es);
            && st.dropped == Lost(es)
            && (!st.done ==> st.i == Sent(es) && (Exposed(es) <==> st.r.lastN != -1 && st.r.lastN != Number(st.i)))
    decreases |es|
  {
    if es == [] {
    } else {
      hide Attempt, Inv, Transfer, FrameOf, Number;
      var es0, e := es[..|es| - 1], es[|es| - 1];
      HistoryIsEvents(ps, start, mem, es0);
      var st := After(ps, Fresh(start, mem), es0);
      match e
      case Intact(_, _) =>
        IntactMoves(ps, st, e);
      case Garbled(_, _) =>
        GarbledMoves(ps, st, e);
      case HeaderGarbled(_, _) =>
        HeaderMoves(ps, st, e);
      case Vanished(_) =>
    }
  }

  lemma IntactMoves(ps: seq<Packet>, st: System, e: Event)
    requires Transfer(ps) && Enabled(ps, st, e) && e.Intact?
    ensures Next(ps, st, e).r.lastN == Number(st.i)
    ensures Number(st.i) != Number(st.i + 1) && Number(st.i) >= 0
  {
    hide Attempt, FeedAll, Parse;
    IntactParsed(ps, st.i, st.r);
  }

  lemma GarbledMoves(ps: seq<Packet>, st: System, e: Event)
    requires Transfer(ps) && Enabled(ps, st, e) && e.Garbled?
    ensures Next(ps, st, e).r.lastN == Number(st.i)
  {
    hide FeedAll, Parse, Frame;
    FrameStart(Number(st.i), ps[st.i].typ, ps[st.i].data);
    assert e.chars[0] == e.chars[..2][0] && e.chars[1] == e.chars[..2][1];
  }

  lemma HeaderMoves(ps: seq<Packet>, st: System, e: Event)
    requires Enabled(ps, st, e) && e.HeaderGarbled?
    ensures Next(ps, st, e).r.lastN == st.r.lastN
  {
    hide Parse, Received;
  }

  lemma {:induction false} LostMeans(ps: seq<Packet>, es: seq<Event>)
    requires Sent(es) <= |ps|
    ensures NothingLost(ps, es) <==> forall j :: j in Lost(es) && 0 <= j < |ps| ==> DataOf(ps[j]) == []
    decreases |es|
  {
    hide DataOf, Exposed;
    if es == [] {
    } else {
      var es0 := es[..|es| - 1];
      LostMeans(ps, es0);
      if es[|es| - 1].HeaderGarbled? && Exposed(es0) {
        ExposedSent(es0);
      }
      LastStrike(ps, es);
    }
  }

  lemma LastStrike(ps: seq<Packet>, es: seq<Event>)
    requires es != []
    ensures var es0 := es[..|es| - 1];
            var harmless := es[|es| - 1].HeaderGarbled? && Exposed(es0) && 0 < Sent(es0) <= |ps| ==>
              DataOf(ps[Sent(es0) - 1]) == [];
            NothingLost(ps, es) <==> NothingLost(ps, es0) && harmless
  {
    hide DataOf, Exposed, Sent;
    var es0 := es[..|es| - 1];
    forall k: nat | k < |es0|
      ensures es[..k] == es0[..k] && Strikes(es, k) == Strikes(es0, k)
    {
    }
    assert Strikes(es, |es| - 1) <==> es[|es| - 1].HeaderGarbled? && Exposed(es0);
    if NothingLost(ps, es) {
      forall k: nat | k < |es0| && Strikes(es0, k) && 0 < Sent(es0[..k]) <= |ps|
        ensures DataOf(ps[Sent(es0[..k]) - 1]) == []
      {
        assert Strikes(es, k) && es[..k] == es0[..k];
      }
    }
  }

  // ---- dropping data always shows ---------------------------------------------------------

  /** Only packets without data are dropped, among the first `k`. */
  ghost predicate OnlyEmptyDropped(ps: seq<Packet>, dropped: set<int>, k: nat)
    requires k <= |ps|
  {
    forall j :: 0 <= j < k && j in dropped ==> DataOf(ps[j]) == []
  }

  /** Dropping packets leaves a shorter stream of the same kind of characters, unless the
      packets were empty. */
  lemma {:induction false} DroppedShortens(ps: seq<Packet>, q: Byte, dropped: set<int>, k: nat)
    requires k <= |ps| && Plain(q, Stream(ps, {}, k))
    ensures var (d, a) := (Stream(ps, dropped, k), Stream(ps, {}, k));
            && Plain(q, d) && |d| <= |a|
            && (|d| == |a| <==> OnlyEmptyDropped(ps, dropped, k))
            && (OnlyEmptyDropped(ps, dropped, k) ==> d == a)
    decreases k
  {
    hide DataOf, Plain;
    if k == 0 {
      PlainNothing(q);
    } else {
      var x := DataOf(ps[k - 1]);
      StreamStep(ps, {}, k - 1);
      StreamStep(ps, dropped, k - 1);
      PlainParts(q, Stream(ps, {}, k - 1), x);
      DroppedShortens(ps, q, dropped, k - 1);
      PlainParts(q, Stream(ps, dropped, k - 1), x);
      OnlyEmptyStep(ps, dropped, k - 1);
      hide Stream;
      assert Stream(ps, dropped, k - 1) + [] == Stream(ps, dropped, k - 1);
      assert Stream(ps, {}, k - 1) + [] == Stream(ps, {}, k - 1);
    }
  }

  lemma PlainNothing(q: Byte)
    ensures Plain(q, [])
  {}

  lemma PlainParts(q: Byte, a: seq<Byte>, b: seq<Byte>)
    ensures Plain(q, a + b) <==> Plain(q, a) && Plain(q, b)
  {
    if Plain(q, a + b) {
      forall i | 0 <= i < |a| ensures a[i] == q || !IsControl(a[i]) { assert (a + b)[i] == a[i]; }
      forall i | 0 <= i < |b| ensures b[i] == q || !IsControl(b[i]) { assert (a + b)[|a| + i] == b[i]; }
    }
  }

  lemma OnlyEmptyStep(ps: seq<Packet>, dropped: set<int>, k: nat)
    requires k < |ps|
    ensures OnlyEmptyDropped(ps, dropped, k + 1)
       <==> OnlyEmptyDropped(ps, dropped, k) && (k in dropped ==> DataOf(ps[k]) == [])
  {}

  /** A finished transfer has loaded the file if and only if no header failure discarded a
      packet with data, whatever else is garbled or lost. */
  lemma FileLoadedExactly(ps: seq<Packet>, file: seq<Byte>, start: nat, mem: map<nat, Byte>, es: seq<Event>)
    requires Transfer(ps) && Carries(ps, file) && (Ktrans(QuoteOf(ps)) == QuoteOf(ps) || QuoteOf(ps) !in file)
    requires Run(ps, Fresh(start, mem), es)
    ensures var st := After(ps, Fresh(start, mem), es);
            st.done ==> (Loaded(st, start, file) <==> NothingLost(ps, es))
  {
    assert |ps| > 0;
    hide Stream, QuoteOf, Decoded, Pending, QuoteAll, Run, After, Ktrans, Transfer, NothingLost, OnlyEmptyDropped, Loaded, Plain;
    var st := After(ps, Fresh(start, mem), es);
    if st.done {
      FinishedRun(ps, start, mem, es);
      var q := QuoteOf(ps);
      RoundTrip(q, file);
      QuotedIsPlain(q, file);
      DroppedShortens(ps, q, st.dropped, |ps|);
      QuotedIsShortest(q, Stream(ps, st.dropped, |ps|));
      LostIsDropped(ps, start, mem, es);
      SameFile(st, start, Decoded(q, false, Stream(ps, st.dropped, |ps|)), file);
    }
  }

  lemma LostIsDropped(ps: seq<Packet>, start: nat, mem: map<nat, Byte>, es: seq<Event>)
    requires Transfer(ps) && Run(ps, Fresh(start, mem), es) && After(ps, Fresh(start, mem), es).done
    ensures NothingLost(ps, es) <==> OnlyEmptyDropped(ps, After(ps, Fresh(start, mem), es).dropped, |ps|)
  {
    hide NothingLost, Lost, Inv, Enabled, Exposed, Attempt, Next;
    assert es != [];
    var es0 := es[..|es| - 1];
    EnabledBound(ps, After(ps, Fresh(start, mem), es0), es[|es| - 1]);
    RunKeeps(ps, start, mem, es0);
    HistoryIsEvents(ps, start, mem, es0);
    HistoryIsEvents(ps, start, mem, es);
    InvBound(ps, After(ps, Fresh(start, mem), es0), start);
    LostMeans(ps, es);
  }

  lemma InvBound(ps: seq<Packet>, st: System, start: nat)
    requires Transfer(ps) && Inv(ps, st, start)
    ensures st.i < |ps|
  {}

  /** Memory holds at most one file of the reported length. */
  lemma SameFile(st: System, start: nat, a: seq<Byte>, b: seq<Byte>)
    requires Loaded(st, start, a)
    ensures Loaded(st, start, b) <==> a == b
  {
    if Loaded(st, start, b) {
      assert |a| == |b|;
      forall i | 0 <= i < |a| ensures a[i] == b[i] {
        assert st.r.cur.mem[start + i] == a[i];
      }
    }
  }

  // ---- the same run on one line, as k_recv reads it --------------------------------------

  /** What an event puts on the line. */
  function Piece(ps: seq<Packet>, i: nat, e: Event): seq<Byte>
    requires i < |ps|
  {
    if e.Vanished? then e.gap else e.gap + [START_CHAR] + Arriving(ps, i, e)
  }

  /** All that a run puts on the line. */
  ghost function LineOf(ps: seq<Packet>, init: System, es: seq<Event>): seq<Byte>
    requires Run(ps, init, es)
  {
    if es == [] then []
    else LineOf(ps, init, es[..|es| - 1]) + Piece(ps, After(ps, init, es[..|es| - 1]).i, es[|es| - 1])
  }

  /** Characters before START are passed over. */
  lemma {:induction false} GapSkipped(r: Recv, s: seq<Byte>, p: nat, n: nat)
    requires p + n <= |s| && Quiet(s[p..p + n])
    ensures Session(r, s, p) == Session(r, s, p + n)
    decreases n
  {
    hide Attempt, Parse;
    if n == 0 {
    } else {
      assert s[p] == s[p..p + n][0] && s[p + 1..p + n] == s[p..p + n][1..];
      GapSkipped(r, s, p + 1, n - 1);
    }
  }

  lemma EndForgotten(r: Recv, n: int, p: Parsed, end: nat)
    ensures Received(r, n, p) == Received(r, n, p.(end := end))
  {
    hide FeedAll, Negotiated;
  }

  /** A packet attempt depends only on the characters up to where it ends. */
  lemma AttemptLocal(r: Recv, s: seq<Byte>, f: nat, t: seq<Byte>, g: nat)
    requires f <= |s| && Attempt(r, s, f).status != Starved && SameText(s, f, t, g, Attempt(r, s, f).end - f)
    ensures var a := Attempt(r, s, f);
            && f <= a.end && g <= |t| && Attempt(r, t, g) == a.(end := a.end - f + g)
            && (a.status == Good ==> f + 2 <= |s| && g + 2 <= |t| && Parse(t, g).typ == Parse(s, f).typ)
  {
    hide Parse, SameText, Received, HeaderLost, Printable, UnToChar;
    var n := Attempt(r, s, f).end - f;
    if f + 2 <= |s| && Printable(s[f]) && Printable(s[f + 1]) {
      ParseMoves(s, f);
      ParseLocal(s, f, t, g);
      SameAt(s, f, t, g, n, 1);
      EndForgotten(r, UnToChar(s[f + 1]), Parse(s, f), Parse(t, g).end);
    } else if Printable(s[f]) {
      SameAt(s, f, t, g, n, 1);
    }
    SameAt(s, f, t, g, n, 0);
  }

  /** One packet attempt on the line: k_recv goes on after it, or is done. */
  lemma PacketRead(r: Recv, s: seq<Byte>, p: nat, chars: seq<Byte>)
    requires p + 1 + |chars| <= |s| && s[p] == START_CHAR && s[p + 1..p + 1 + |chars|] == chars
    requires Attempt(r, chars, 0).status != Starved && Attempt(r, chars, 0).end == |chars|
    ensures var a := Attempt(r, chars, 0);
            && (a.status == Good ==> |chars| >= 2)
            && Session(r, s, p) == if a.status == Good && Parse(chars, 0).typ == BREAK_TYPE then Ended(a.r, Complete)
                                   else Session(a.r, s, p + 1 + |chars|)
  {
    hide Attempt, Parse;
    SliceIsSame(chars, s, p + 1);
    AttemptLocal(r, chars, 0, s, p + 1);
  }

  lemma SliceIsSame(chars: seq<Byte>, s: seq<Byte>, p: nat)
    requires p + |chars| <= |s| && s[p..p + |chars|] == chars
    ensures SameText(chars, 0, s, p, |chars|)
  {
    assert forall j :: 0 <= j < |chars| ==> chars[j] == s[p..p + |chars|][j];
  }

  /** One event on the line: k_recv makes of its characters what the event says. */
  lemma EventRead(ps: seq<Packet>, st: System, e: Event, s: seq<Byte>, p: nat)
    requires Transfer(ps) && Enabled(ps, st, e)
    requires var piece := Piece(ps, st.i, e); p + |piece| <= |s| && s[p..p + |piece|] == piece
    ensures var st' := Next(ps, st, e);
            Session(st.r, s, p) == if st'.done then Ended(st'.r, Complete) else Session(st'.r, s, p + |Piece(ps, st.i, e)|)
  {
    hide Session, Attempt, Parse, FrameOf, Transfer, Quiet;
    var piece, gap := Piece(ps, st.i, e), e.gap;
    if e.Vanished? {
      GapSkipped(st.r, s, p, |gap|);
    } else {
      var chars := Arriving(ps, st.i, e);
      PieceParts(s, p, gap, START_CHAR, chars);
      GapSkipped(st.r, s, p, |gap|);
      EventEnds(ps, st, e);
      PacketRead(st.r, s, p + |gap|, chars);
    }
  }

  lemma PieceParts(s: seq<Byte>, p: nat, gap: seq<Byte>, c: Byte, chars: seq<Byte>)
    requires var piece := gap + [c] + chars; p + |piece| <= |s| && s[p..p + |piece|] == piece
    ensures s[p..p + |gap|] == gap && s[p + |gap|] == c
    ensures s[p + |gap| + 1..p + |gap| + 1 + |chars|] == chars
  {
    var piece := gap + [c] + chars;
    var t := s[p..p + |piece|];
    assert forall i :: 0 <= i < |t| ==> t[i] == s[p + i];
    assert t[..|gap|] == gap && t[|gap|] == c && t[|gap| + 1..] == chars;
    assert s[p..p + |gap|] == t[..|gap|];
    assert s[p + |gap| + 1..p + |gap| + 1 + |chars|] == t[|gap| + 1..];
  }

  /** How the receiver's attempt at the characters of an event ends. */
  lemma EventEnds(ps: seq<Packet>, st: System, e: Event)
    requires Transfer(ps) && Enabled(ps, st, e) && !e.Vanished?
    ensures var chars := Arriving(ps, st.i, e);
            var a := Attempt(st.r, chars, 0);
            && a.status == (if e.Intact? then Good else Bad) && a.end == |chars| && a.r == Next(ps, st, e).r
            && (e.Intact? ==> |chars| >= 2 && Parse(chars, 0).typ == ps[st.i].typ)
  {
    hide Parse, Received, FrameOf;
    match e
    case Intact(_, _) =>
      hide Attempt;
      IntactParsed(ps, st.i, st.r);
    case Garbled(_, _) =>
    case HeaderGarbled(_, _) =>
    case Vanished(_) =>
  }

  /** k_recv on a line that carries a run, and anything after it: when the run is finished
      k_recv is, in the state of the run; otherwise it goes on from that state. */
  lemma {:induction false} SessionFollowsRun(ps: seq<Packet>, start: nat, mem: map<nat, Byte>, es: seq<Event>, rest: seq<Byte>)
    requires Transfer(ps) && Run(ps, Fresh(start, mem), es)
    ensures var st := After(ps, Fresh(start, mem), es);
            var line := LineOf(ps, Fresh(start, mem), es);
            Session(Initial(start, mem), line + rest, 0)
            == if st.done then Ended(st.r, Complete) else Session(st.r, line + rest, |line|)
    decreases |es|
  {
    hide Session, Next, Enabled, Initial, Piece, Transfer;
    if es == [] {
      FreshState(start, mem);
    } else {
      var init := Fresh(start, mem);
      var es0, e := es[..|es| - 1], es[|es| - 1];
      var st, line := After(ps, init, es0), LineOf(ps, init, es0);
      EnabledBound(ps, st, e);
      var piece := Piece(ps, st.i, e);
      SessionFollowsRun(ps, start, mem, es0, piece + rest);
      assert line + (piece + rest) == (line + piece) + rest;
      var s := (line + piece) + rest;
      assert s[|line|..|line| + |piece|] == piece;
      EventRead(ps, st, e, s, |line|);
    }
  }

  lemma FreshState(start: nat, mem: map<nat, Byte>)
    ensures Fresh(start, mem).r == Initial(start, mem) && !Fresh(start, mem).done
  {}

  lemma EnabledBound(ps: seq<Packet>, st: System, e: Event)
    requires Enabled(ps, st, e)
    ensures st.i < |ps| && !st.done
  {}

  /** k_recv itself, on a line that carries a finished run of a transfer of `file`, with
      anything after it: it reports the length of the file, which is in memory from the
      start address on, if and only if no header failure discarded a packet with data. */
  method ReceiveFile(line: seq<Byte>, start: nat, mem: map<nat, Byte>,
      ghost ps: seq<Packet>, ghost file: seq<Byte>, ghost es: seq<Event>, ghost rest: seq<Byte>)
    returns (size: int, mem': map<nat, Byte>)
    requires Transfer(ps) && Carries(ps, file) && (Ktrans(QuoteOf(ps)) == QuoteOf(ps) || QuoteOf(ps) !in file)
    requires Run(ps, Fresh(start, mem), es) && After(ps, Fresh(start, mem), es).done
    requires line == LineOf(ps, Fresh(start, mem), es) + rest
    ensures size == |file| && Stores(mem', start, file) <==> NothingLost(ps, es)
  {
    hide Transfer, Carries, QuoteOf, Ktrans, Run, After, LineOf, NothingLost, Session, Stores;
    SessionFollowsRun(ps, start, mem, es, rest);
    FileLoadedExactly(ps, file, start, mem, es);
    var k := new Receiver(line, start, mem);
    var outcome;
    outcome, size := k.Receive();
    mem' := k.mem;
  }

  /** Without header failures it always does. */
  lemma NoHeaderFailure(ps: seq<Packet>, es: seq<Event>)
    requires forall e :: e in es ==> !e.HeaderGarbled?
    ensures NothingLost(ps, es)
  {
    hide DataOf, Sent, Exposed;
    forall k: nat | k < |es| ensures !Strikes(es, k) { assert es[k] in es; }
  }

  /** Whatever packets are garbled after their sequence number and whatever packets or
      replies are lost, a finished transfer has loaded the file. */
  lemma FileLoaded(ps: seq<Packet>, file: seq<Byte>, start: nat, mem: map<nat, Byte>, es: seq<Event>)
    requires Transfer(ps) && Carries(ps, file) && (Ktrans(QuoteOf(ps)) == QuoteOf(ps) || QuoteOf(ps) !in file)
    requires Run(ps, Fresh(start, mem), es) && forall e :: e in es ==> !e.HeaderGarbled?
    ensures var st := After(ps, Fresh(start, mem), es);
            st.done ==> Loaded(st, start, file)
  {
    hide Transfer, Carries, QuoteOf, Ktrans, Run, After, NothingLost, Loaded;
    NoHeaderFailure(ps, es);
    FileLoadedExactly(ps, file, start, mem, es);
  }

  // ---- progress -----------------------------------------------------------------------

  /** From wherever a run has got, it finishes once the remaining packets arrive and are
      acknowledged. */
  lemma {:induction false} Progress(ps: seq<Packet>, start: nat, mem: map<nat, Byte>, es: seq<Event>) returns (more: seq<Event>)
    requires Transfer(ps) && Run(ps, Fresh(start, mem), es) && !After(ps, Fresh(start, mem), es).done
    ensures forall e :: e in more ==> e == Intact([], true)
    ensures Run(ps, Fresh(start, mem), es + more) && After(ps, Fresh(start, mem), es + more).done
    ensures |more| == |ps| - After(ps, Fresh(start, mem), es).i
    decreases |ps| - After(ps, Fresh(start, mem), es).i
  {
    hide Inv, Attempt, Run, After;
    var init, e := Fresh(start, mem), Intact([], true);
    var st := After(ps, init, es);
    RunKeeps(ps, start, mem, es);
    InvBound(ps, st, start);
    assert Enabled(ps, st, e);
    Extend(ps, init, es, e);
    if st.i == |ps| - 1 {
      more := [e];
    } else {
      var rest := Progress(ps, start, mem, es + [e]);
      more := [e] + rest;
      assert es + [e] + rest == es + more;
    }
  }

  // ---- a header failure that loses a byte -------------------------------------------------

  lemma Extend(ps: seq<Packet>, init: System, es: seq<Event>, e: Event)
    requires Run(ps, init, es) && Enabled(ps, After(ps, init, es), e)
    ensures Run(ps, init, es + [e]) && After(ps, init, es + [e]) == Next(ps, After(ps, init, es), e)
  {
    assert (es + [e])[..|es|] == es;
  }

  /** One byte is sent, acknowledged, and lost: k_recv completes without it. */
  lemma HeaderFailureLoses(start: nat) returns (ps: seq<Packet>, es: seq<Event>)
    ensures Transfer(ps) && Carries(ps, [65]) && Run(ps, Fresh(start, map[]), es)
    ensures var st := After(ps, Fresh(start, map[]), es);
            && st.done && !Loaded(st, start, [65])
            && Session(Initial(start, map[]), LineOf(ps, Fresh(start, map[]), es), 0) == Ended(st.r, Complete)
  {
    ps := [Packet(SEND_TYPE, []), Packet(DATA_TYPE, [65]), Packet(BREAK_TYPE, [])];
    var ok, bad := Intact([], true), HeaderGarbled([], [0]);
    OneByteTransfer(ps);
    var st0 := Fresh(start, map[]);
    assert Enabled(ps, st0, ok);
    var st1 := Next(ps, st0, ok);
    assert Enabled(ps, st1, ok);
    var st2 := Next(ps, st1, ok);
    assert Enabled(ps, st2, bad);
    var st3 := Next(ps, st2, bad);
    assert Enabled(ps, st3, ok) && Next(ps, st3, ok).done;
    hide *;
    Extend(ps, st0, [], ok);
    Extend(ps, st0, [] + [ok], ok);
    Extend(ps, st0, [] + [ok] + [ok], bad);
    Extend(ps, st0, [] + [ok] + [ok] + [bad], ok);
    es := [] + [ok] + [ok] + [bad] + [ok];
    FileLoadedExactly(ps, [65], start, map[], es);
    OneByteLost(ps, es);
    SessionFollowsRun(ps, start, map[], es, []);
    assert LineOf(ps, st0, es) + [] == LineOf(ps, st0, es);
  }

  lemma OneByteLost(ps: seq<Packet>, es: seq<Event>)
    requires |ps| == 3 && DataOf(ps[1]) != []
    requires |es| == 4 && es[0].Intact? && es[0].acknowledged && es[1].Intact? && es[1].acknowledged && es[2].HeaderGarbled?
    ensures !NothingLost(ps, es)
  {
    assert es[..2][..1] == es[..1] && es[..1][..0] == [];
    assert Sent(es[..1]) == 1 && Sent(es[..2]) == 2;
    assert Strikes(es, 2);
  }

  lemma OneByteTransfer(ps: seq<Packet>)
    requires ps == [Packet(SEND_TYPE, []), Packet(DATA_TYPE, [65]), Packet(BREAK_TYPE, [])]
    ensures Transfer(ps) && Carries(ps, [65]) && Ktrans(QuoteOf(ps)) == QuoteOf(ps)
  {
    assert QuoteOf(ps) == K_ESCAPE;
    OneByteCarried(ps);
  }

  lemma OneByteCarried(ps: seq<Packet>)
    requires ps == [Packet(SEND_TYPE, []), Packet(DATA_TYPE, [65]), Packet(BREAK_TYPE, [])]
    requires QuoteOf(ps) == K_ESCAPE
    ensures Carries(ps, [65])
  {
    hide QuoteOf;
    assert Stream(ps, {}, 1) == [] && Stream(ps, {}, 2) == [65] && Stream(ps, {}, 3) == [65];
    assert QuoteAll(K_ESCAPE, [65]) == Quoted(K_ESCAPE, 65) + QuoteAll(K_ESCAPE, []);
    assert [65][1..] == [];
  }
}
