/** fdc_read_data: reading a run of blocks, one track side at a time, with retries. */
module Floppy {
  import opened Division
  import opened Bytes

  /** Sectors per track side, heads, tracks, bytes per sector. */
  datatype Geometry = Geometry(sect: nat, heads: nat, tracks: nat, size: nat)

  /** What the command bytes can express. */
  ghost predicate Usable(g: Geometry)
  {
    0 < g.sect < 256 && 0 < g.heads <= 2 && g.tracks <= 256 && g.size > 0
  }

  /** Track, head and sector; sectors count from 1. */
  datatype Chs = Chs(track: nat, head: nat, sector: nat)

  /** The address part of fdc_issue_cmd. */
  function ToChs(g: Geometry, blnr: nat): Chs
    requires g.sect > 0 && g.heads > 0
  {
    var perTrack := g.sect * g.heads;
    var rest := blnr % perTrack;
    Chs(blnr / perTrack, rest / g.sect, rest % g.sect + 1)
  }

  /** The block that a track, head and sector name. */
  function ToBlock(g: Geometry, c: Chs): int
  {
    (c.track * g.heads + c.head) * g.sect + (c.sector - 1)
  }

  /** The triple is in range and inverts back to the block number. */
  lemma ChsInverse(g: Geometry, blnr: nat)
    requires g.sect > 0 && g.heads > 0 && blnr < g.tracks * (g.sect * g.heads)
    ensures var c := ToChs(g, blnr);
            && c.track < g.tracks && c.head < g.heads && 1 <= c.sector <= g.sect
            && ToBlock(g, c) == blnr
            && c.sector - 1 == blnr % g.sect
  {
    var perTrack := g.sect * g.heads;
    var t, rest := blnr / perTrack, blnr % perTrack;
    DivMod(blnr, perTrack, g.tracks);
    DivMod(rest, g.sect, g.heads);
    Recompose(g, t, rest / g.sect, rest % g.sect, rest, blnr);
  }

  lemma Recompose(g: Geometry, t: nat, h: nat, s: nat, rest: nat, blnr: nat)
    requires g.sect > 0 && s < g.sect
    requires rest == h * g.sect + s && blnr == t * (g.sect * g.heads) + rest
    ensures blnr == (t * g.heads + h) * g.sect + s && blnr % g.sect == s
  {
    assert t * (g.sect * g.heads) == (t * g.heads) * g.sect;
    assert (t * g.heads) * g.sect + h * g.sect == (t * g.heads + h) * g.sect;
    ModUnique(blnr, g.sect, t * g.heads + h, s);
  }

  /** Quotient and remainder, and the bound on the quotient. */
  lemma DivMod(x: nat, d: nat, n: nat)
    requires d > 0 && x < n * d
    ensures x == (x / d) * d + x % d && x % d < d && x / d < n
  {
    MulOrder(n, x / d, d);
  }

  lemma DivUnique(x: nat, d: nat, q: nat, r: nat)
    requires d > 0 && r < d && x == q * d + r
    ensures x / d == q && x % d == r
  {
    ModUnique(x, d, q, r);
    var k := x / d;
    assert k * d == q * d;
    MulOrder(k + 1, q, d);
    MulOrder(q + 1, k, d);
    assert (k + 1) * d == k * d + d && (q + 1) * d == q * d + d;
  }

  /** Every triple in range is the address of the block it names. */
  lemma ChsOf(g: Geometry, c: Chs)
    requires g.sect > 0 && g.heads > 0 && c.head < g.heads && 1 <= c.sector <= g.sect
    ensures ToBlock(g, c) >= 0 && ToChs(g, ToBlock(g, c)) == c
  {
    var s := c.sector - 1;
    var rest := c.head * g.sect + s;
    MulOrder(c.head + 1, g.heads, g.sect);
    assert (c.head + 1) * g.sect == c.head * g.sect + g.sect;
    assert g.heads * g.sect == g.sect * g.heads;
    SplitTrack(c.track, g.heads, c.head, g.sect);
    DivUnique(ToBlock(g, c), g.sect * g.heads, c.track, rest);
    DivUnique(rest, g.sect, c.head, s);
  }

  lemma SplitTrack(t: nat, heads: nat, h: nat, sect: nat)
    ensures (t * heads + h) * sect == t * (sect * heads) + h * sect
  {}

  /** The sector after this one: on the same side, on the next side, or on the next track. */
  function Following(g: Geometry, c: Chs): Chs
  {
    if c.sector < g.sect then c.(sector := c.sector + 1)
    else if c.head + 1 < g.heads then Chs(c.track, c.head + 1, 1)
    else Chs(c.track + 1, 0, 1)
  }

  lemma BlockNext(g: Geometry, c: Chs)
    requires c.head < g.heads && 1 <= c.sector <= g.sect
    ensures ToBlock(g, Following(g, c)) == ToBlock(g, c) + 1
  {
    if c.sector == g.sect {
      NextSide(c.track * g.heads + c.head, g.sect);
      NextSide(c.track, g.heads);
    }
  }

  lemma NextSide(n: nat, sect: nat)
    ensures n * sect + sect == (n + 1) * sect
  {}

  lemma SomewhereOn(g: Geometry, blnr: nat)
    requires g.sect > 0 && g.heads > 0
    ensures blnr < (blnr + 1) * (g.sect * g.heads)
  {
    assert g.sect * g.heads > 0;
    MulOrder(1, g.sect * g.heads, blnr + 1);
  }

  /** Blocks run through the sectors of a side, then the sides of a track, then the tracks,
      from sector 1 of track 0 on. */
  lemma ChsNext(g: Geometry, blnr: nat)
    requires g.sect > 0 && g.heads > 0
    ensures ToChs(g, blnr + 1) == Following(g, ToChs(g, blnr)) && ToChs(g, 0) == Chs(0, 0, 1)
  {
    ChsOf(g, Chs(0, 0, 1));
    SomewhereOn(g, blnr);
    ChsInverse(g.(tracks := blnr + 1), blnr);
    var c := ToChs(g, blnr);
    assert ToBlock(g, Chs(0, 0, 1)) == 0 && ToChs(g.(tracks := blnr + 1), blnr) == c;
    hide ToChs, ToBlock;
    SameBlock(g, blnr + 1, c);
    BlockNext(g, c);
    ChsOf(g, Following(g, c));
  }

  lemma SameBlock(g: Geometry, tracks: nat, c: Chs)
    ensures ToBlock(g.(tracks := tracks), c) == ToBlock(g, c)
  {}

  // ---- the transfer loop ------------------------------------------------------------------

  type Results = s: seq<Byte> | |s| == 7 witness [0, 0, 0, 0, 0, 0, 0]

  /** What the controller does with a READ: it delivers all that is asked for, or it breaks
      off at a byte and goes on with its seven result bytes. */
  datatype Answer = Whole | Broken(at: nat, result: Results)

  /** One look at the status register once it is no longer busy: a byte is ready (0xC0), or
      the controller waits for a command (0x80). */
  datatype Poll = Ready(byte: Byte) | Idle

  /** The `i`-th poll of a transfer of the disk bytes `part`.  Result bytes are announced
      just like data. */
  function Polled(part: seq<Byte>, ans: Answer, i: nat): Poll
    requires i < |part|
  {
    match ans
    case Whole => Ready(part[i])
    case Broken(at, result) => if i < at then Ready(part[i]) else if i - at < 7 then Ready(result[i - at]) else Idle
  }

  /** The break is seen: the results are over before the transfer is. */
  predicate Noticed(ans: Answer, len: nat)
  {
    ans.Broken? && ans.at + 7 < len
  }

  /** What is stored when no break is seen. */
  function Stored(part: seq<Byte>, ans: Answer): (s: seq<Byte>)
    requires !Noticed(ans, |part|)
    ensures |s| == |part|
  {
    if ans.Whole? || ans.at >= |part| then part else part[..ans.at] + ans.result[..|part| - ans.at]
  }

  /** A break within the last seven bytes is harmless only if the result bytes happen to be
      the bytes of the disk. */
  predicate Harmless(part: seq<Byte>, ans: Answer)
  {
    ans.Broken? && ans.at < |part| <= ans.at + 7 ==> ans.result[..|part| - ans.at] == part[ans.at..]
  }

  lemma StoredExactly(part: seq<Byte>, ans: Answer)
    requires !Noticed(ans, |part|)
    ensures Stored(part, ans) == part <==> Harmless(part, ans)
  {
    if ans.Broken? && ans.at < |part| {
      var n := ans.at;
      assert part == part[..n] + part[n..];
      SameTails(part[..n], ans.result[..|part| - n], part[n..]);
    }
  }

  lemma SameTails<T>(a: seq<T>, b: seq<T>, c: seq<T>)
    ensures a + b == a + c <==> b == c
  {
    assert (a + b)[|a|..] == b && (a + c)[|a|..] == c;
  }

  /** The byte loop: stores whatever is ready, until the controller is idle.  On a break
      the result registers are taken back out of the buffer. */
  method Transfer(part: seq<Byte>, ans: Answer, buffer: array<Byte>, offset: nat) returns (ok: bool, result: seq<Byte>)
    requires offset + |part| <= buffer.Length
    modifies buffer
    ensures buffer[..offset] == old(buffer[..offset])
    ensures ok <==> !Noticed(ans, |part|)
    ensures ok ==> buffer[offset..offset + |part|] == Stored(part, ans)
    ensures !ok ==> result == ans.result
  {
    result := [];
    for i := 0 to |part|
      invariant buffer[..offset] == old(buffer[..offset])
      invariant forall k :: 0 <= k < i ==> Polled(part, ans, k) == Ready(buffer[offset + k])
    {
      var poll := Polled(part, ans, i);
      if poll.Idle? {
        if i > 6 {
          result := buffer[offset + i - 7..offset + i];
        }
        ReadBack(part, ans, buffer[offset..offset + i]);
        return false, result;
      }
      buffer[offset + i] := poll.byte;
    }
    AllStored(part, ans, buffer[offset..offset + |part|]);
    return true, result;
  }

  lemma ReadBack(part: seq<Byte>, ans: Answer, taken: seq<Byte>)
    requires |taken| < |part| && Polled(part, ans, |taken|).Idle?
    requires forall k :: 0 <= k < |taken| ==> Polled(part, ans, k) == Ready(taken[k])
    ensures Noticed(ans, |part|) && |taken| >= 7 && taken[|taken| - 7..] == ans.result
  {
    assert |taken| > 0 ==> Polled(part, ans, |taken| - 1) == Ready(taken[|taken| - 1]);
    forall k | 0 <= k < 7
      ensures taken[|taken| - 7..][k] == ans.result[k]
    {
      assert Polled(part, ans, ans.at + k) == Ready(taken[ans.at + k]);
    }
  }

  lemma AllStored(part: seq<Byte>, ans: Answer, taken: seq<Byte>)
    requires |taken| == |part|
    requires forall k :: 0 <= k < |taken| ==> Polled(part, ans, k) == Ready(taken[k])
    ensures !Noticed(ans, |part|) && taken == Stored(part, ans)
  {
    if |part| > 0 {
      assert Polled(part, ans, |part| - 1) == Ready(taken[|part| - 1]);
    }
    var s := Stored(part, ans);
    forall k | 0 <= k < |part|
      ensures taken[k] == s[k]
    {
      assert Polled(part, ans, k) == Ready(taken[k]);
    }
  }

  // ---- the commands -----------------------------------------------------------------------

  /** The outside world: whether a command, a seek or a recalibration succeeds, and what
      the controller does with each READ, by their numbers of order. */
  datatype World = World(issues: nat -> bool, seeks: nat -> bool, recals: nat -> bool, answers: nat -> Answer)

  /** A READ command: where it starts and how many sectors are taken from it. */
  datatype Read = Read(chs: Chs, count: nat)

  /** A READ stays on one side of one track. */
  predicate OnOneSide(g: Geometry, r: Read)
  {
    r.chs.track < g.tracks && r.chs.head < g.heads && 1 <= r.chs.sector && r.chs.sector - 1 + r.count <= g.sect
  }

  function Total(g: Geometry): nat { g.tracks * (g.sect * g.heads) }

  lemma SideOnDisk(g: Geometry, r: Read)
    requires OnOneSide(g, r)
    ensures 0 <= ToBlock(g, r.chs) && ToBlock(g, r.chs) + r.count <= Total(g)
  {
    SideFits(r.chs.track, r.chs.head, g.tracks, g.heads, g.sect);
  }

  lemma SideFits(t: nat, h: nat, tracks: nat, heads: nat, sect: nat)
    requires t < tracks && h < heads
    ensures 0 <= (t * heads + h) * sect && (t * heads + h) * sect + sect <= tracks * (sect * heads)
  {
    var n := t * heads + h;
    MulOrder(t + 1, tracks, heads);
    NextSide(t, heads);
    MulOrder(n + 1, tracks * heads, sect);
    NextSide(n, sect);
    Regrouped(tracks, heads, sect);
  }

  lemma Regrouped(a: nat, b: nat, c: nat)
    ensures (a * b) * c == a * (c * b)
  {}

  /** The disk bytes of `blocks` blocks from `blnr` on; `image` holds all of them. */
  function Blocks(g: Geometry, image: seq<Byte>, blnr: nat, blocks: nat): (s: seq<Byte>)
    requires |image| == Total(g) * g.size && blnr + blocks <= Total(g)
    ensures |s| == blocks * g.size
  {
    BlocksFit(g, blnr, blocks);
    image[blnr * g.size..(blnr + blocks) * g.size]
  }

  lemma BlocksFit(g: Geometry, blnr: nat, blocks: nat)
    requires blnr + blocks <= Total(g)
    ensures 0 <= blnr * g.size <= (blnr + blocks) * g.size <= Total(g) * g.size
    ensures (blnr + blocks) * g.size == blnr * g.size + blocks * g.size
  {
    MulOrder(blnr + blocks, Total(g), g.size);
  }

  lemma BlocksJoin(g: Geometry, image: seq<Byte>, blnr: nat, a: nat, b: nat)
    requires |image| == Total(g) * g.size && blnr + a + b <= Total(g)
    ensures Blocks(g, image, blnr, a + b) == Blocks(g, image, blnr, a) + Blocks(g, image, blnr + a, b)
  {
    BlocksFit(g, blnr, a);
    BlocksFit(g, blnr + a, b);
    BlocksFit(g, blnr, a + b);
  }

  /** The disk bytes that a READ addresses. */
  function Addressed(g: Geometry, image: seq<Byte>, r: Read): (s: seq<Byte>)
    requires |image| == Total(g) * g.size && OnOneSide(g, r)
    ensures |s| == r.count * g.size
  {
    SideOnDisk(g, r);
    Blocks(g, image, ToBlock(g, r.chs), r.count)
  }

  predicate AllOnOneSide(g: Geometry, commands: seq<Read>)
  {
    forall i :: 0 <= i < |commands| ==> OnOneSide(g, commands[i])
  }

  /** The sectors taken from the READs whose transfer was not seen to break off. */
  function Taken(g: Geometry, w: World, commands: seq<Read>): nat
  {
    if commands == [] then 0
    else
      var n := |commands| - 1;
      Taken(g, w, commands[..n]) + (if Noticed(w.answers(n), commands[n].count * g.size) then 0 else commands[n].count)
  }

  /** The number of transfers that were seen to break off. */
  function Failures(g: Geometry, w: World, commands: seq<Read>): nat
  {
    if commands == [] then 0
    else
      var n := |commands| - 1;
      Failures(g, w, commands[..n]) + (if Noticed(w.answers(n), commands[n].count * g.size) then 1 else 0)
  }

  /** No READ was spoilt by a break within the last seven bytes of its transfer. */
  ghost predicate Unspoilt(g: Geometry, image: seq<Byte>, w: World, commands: seq<Read>)
    requires |image| == Total(g) * g.size && AllOnOneSide(g, commands)
  {
    forall i :: 0 <= i < |commands| ==> Harmless(Addressed(g, image, commands[i]), w.answers(i))
  }

  lemma CommandAdded(g: Geometry, image: seq<Byte>, w: World, commands: seq<Read>, r: Read)
    requires |image| == Total(g) * g.size && AllOnOneSide(g, commands) && OnOneSide(g, r)
    ensures var more := commands + [r];
            var noticed := Noticed(w.answers(|commands|), r.count * g.size);
            && AllOnOneSide(g, more)
            && Taken(g, w, more) == Taken(g, w, commands) + (if noticed then 0 else r.count)
            && Failures(g, w, more) == Failures(g, w, commands) + (if noticed then 1 else 0)
            && (Unspoilt(g, image, w, more) <==>
                Unspoilt(g, image, w, commands) && Harmless(Addressed(g, image, r), w.answers(|commands|)))
  {
    hide Noticed, OnOneSide, Addressed, Harmless, Unspoilt, Total;
    var more := commands + [r];
    assert more[..|commands|] == commands && more[|commands|] == r;
    UnspoiltAdded(g, image, w, commands, r);
  }

  lemma UnspoiltAdded(g: Geometry, image: seq<Byte>, w: World, commands: seq<Read>, r: Read)
    requires |image| == Total(g) * g.size && AllOnOneSide(g, commands) && OnOneSide(g, r)
    ensures AllOnOneSide(g, commands + [r])
    ensures Unspoilt(g, image, w, commands + [r]) <==>
            Unspoilt(g, image, w, commands) && Harmless(Addressed(g, image, r), w.answers(|commands|))
  {
    hide OnOneSide, Addressed, Harmless, Total;
    var more := commands + [r];
    assert more[|commands|] == r && forall i :: 0 <= i < |commands| ==> more[i] == commands[i];
    if Unspoilt(g, image, w, more) {
      forall i | 0 <= i < |commands|
        ensures Harmless(Addressed(g, image, commands[i]), w.answers(i))
      {
        assert more[i] == commands[i];
      }
    }
  }

  /** Each READ starts at the first block that is still missing. */
  ghost predicate InOrder(g: Geometry, w: World, blnr0: nat, commands: seq<Read>)
  {
    forall i :: 0 <= i < |commands| ==> ToBlock(g, commands[i].chs) == blnr0 + Taken(g, w, commands[..i])
  }

  lemma OrderAdded(g: Geometry, w: World, blnr0: nat, commands: seq<Read>, r: Read)
    requires InOrder(g, w, blnr0, commands) && ToBlock(g, r.chs) == blnr0 + Taken(g, w, commands)
    ensures InOrder(g, w, blnr0, commands + [r])
  {
    hide ToBlock, Taken;
    var more := commands + [r];
    forall i | 0 <= i < |more|
      ensures ToBlock(g, more[i].chs) == blnr0 + Taken(g, w, more[..i])
    {
      if i < |commands| {
        assert more[..i] == commands[..i] && more[i] == commands[i];
      } else {
        assert more[..i] == commands;
      }
    }
  }

  /** The disk, the buffer and the next READ fit each other. */
  ghost predicate Fits(g: Geometry, image: seq<Byte>, buffer: array<Byte>, blnr0: nat, blocks0: nat, done: nat, readblk: nat)
  {
    && Usable(g) && |image| == Total(g) * g.size && blnr0 < Total(g) && blnr0 + blocks0 <= Total(g)
    && done <= blocks0 && blocks0 * g.size <= buffer.Length && 0 <= done * g.size <= buffer.Length
    && readblk <= blocks0 - done && (readblk > 0 || done == blocks0) && blnr0 + done < Total(g)
    && readblk <= g.sect - (blnr0 + done) % g.sect
  }

  /** One READ attempt at block blnr0 + done. */
  method Attempt(g: Geometry, image: seq<Byte>, buffer: array<Byte>, blnr0: nat, blocks0: nat, done: nat,
                 readblk: nat, ans: Answer)
    returns (ok: bool, command: Read)
    requires Fits(g, image, buffer, blnr0, blocks0, done, readblk)
    modifies buffer
    ensures OnOneSide(g, command) && ToBlock(g, command.chs) == blnr0 + done && command.count == readblk
    ensures ok <==> !Noticed(ans, readblk * g.size)
    ensures 0 <= done * g.size <= (done + readblk) * g.size <= buffer.Length
    ensures buffer[..done * g.size] == old(buffer[..done * g.size])
    ensures ok ==> buffer[..(done + readblk) * g.size] == old(buffer[..done * g.size]) + Stored(Addressed(g, image, command), ans)
  {
    var blnr := blnr0 + done;
    ChsInverse(g, blnr);
    command := Read(ToChs(g, blnr), readblk);
    SideOnDisk(g, command);
    ghost var (a, b) := (done * g.size, (done + readblk) * g.size);
    BlocksFit(g, blnr0, done);
    BlocksFit(g, blnr0, done + readblk);
    BlocksFit(g, blnr, readblk);
    MulOrder(done + readblk, blocks0, g.size);
    assert b == a + readblk * g.size by { assert (done + readblk) * g.size == done * g.size + readblk * g.size; }
    hide ToChs, ToBlock, Total, Noticed, Stored;
    var result;
    ok, result := Transfer(Addressed(g, image, command), ans, buffer, done * g.size);
    if ok {
      assert buffer[..b] == buffer[..a] + buffer[a..b];
    }
  }

  lemma NextChunk(g: Geometry, blnr: nat, readblk: nat, blocks: nat)
    requires g.sect > 0 && readblk <= blocks
    requires readblk == g.sect - blnr % g.sect || readblk == blocks
    ensures readblk < blocks ==> (blnr + readblk) % g.sect == 0
  {
    if readblk < blocks {
      var q := blnr / g.sect;
      assert blnr + readblk == q * g.sect + g.sect;
      assert q * g.sect + g.sect == (q + 1) * g.sect;
      ModUnique(blnr + readblk, g.sect, q + 1, 0);
    }
  }

  /** After an accepted READ the front of the buffer is right exactly when it was before
      and the READ was not spoilt. */
  lemma FrontGrows(g: Geometry, image: seq<Byte>, blnr0: nat, done: nat, r: Read, ans: Answer, front: seq<Byte>)
    requires |image| == Total(g) * g.size && OnOneSide(g, r) && ToBlock(g, r.chs) == blnr0 + done
    requires |front| == done * g.size && !Noticed(ans, r.count * g.size) && blnr0 + done + r.count <= Total(g)
    ensures var part := Addressed(g, image, r);
            front + Stored(part, ans) == Blocks(g, image, blnr0, done + r.count)
            <==> front == Blocks(g, image, blnr0, done) && Harmless(part, ans)
  {
    hide ToBlock, Total, Noticed, Stored, Blocks;
    var part := Addressed(g, image, r);
    BlocksJoin(g, image, blnr0, done, r.count);
    StoredExactly(part, ans);
    SameHalves(front, Stored(part, ans), Blocks(g, image, blnr0, done), part);
  }

  lemma SameHalves<T>(a: seq<T>, b: seq<T>, c: seq<T>, d: seq<T>)
    requires |a| == |c|
    ensures a + b == c + d <==> a == c && b == d
  {
    assert (a + b)[..|a|] == a && (c + d)[..|a|] == c;
    assert (a + b)[|a|..] == b && (c + d)[|a|..] == d;
  }

  const RW_RETRIES := 3
  const CAL_RETRIES := 3

  /** fdc_read_data.  `errors` counts the transfers that were seen to break off. */
  method ReadData(g: Geometry, image: seq<Byte>, w: World, blnr0: nat, blocks0: nat, buffer: array<Byte>)
    returns (ok: bool, commands: seq<Read>, errors: nat)
    requires Usable(g) && |image| == Total(g) * g.size && blnr0 < Total(g) && blnr0 + blocks0 <= Total(g)
    requires blocks0 * g.size <= buffer.Length
    modifies buffer
    ensures AllOnOneSide(g, commands) && InOrder(g, w, blnr0, commands)
    ensures ok ==> Taken(g, w, commands) == blocks0
    ensures ok ==> 0 <= blocks0 * g.size
    ensures ok ==> (buffer[..blocks0 * g.size] == Blocks(g, image, blnr0, blocks0) <==> Unspoilt(g, image, w, commands))
    ensures errors == Failures(g, w, commands) <= 25 && (errors == 25 ==> !ok)
    ensures !ok && (forall k: nat :: w.issues(k) && w.seeks(k) && w.recals(k)) ==> errors == 25
  {
    hide OnOneSide, ToBlock, Total, Blocks, Noticed, Addressed, Unspoilt, AllOnOneSide, InOrder, Taken, Failures;
    commands, errors := [], 0;
    NothingRead(g, image, w, blnr0, buffer, blocks0);
    var retriesrw, retriescal, seeks: nat, recals: nat := 0, 0, 0, 0;
    var done, blocks := 0, blocks0;
    if !w.seeks(seeks) {
      return false, commands, errors;
    }
    var readblk := g.sect - blnr0 % g.sect;
    if readblk > blocks {
      readblk := blocks;
    }
    while true
      invariant 0 <= done && blocks == blocks0 - done && 0 <= readblk
      invariant Fits(g, image, buffer, blnr0, blocks0, done, readblk)
      invariant readblk == g.sect - (blnr0 + done) % g.sect || readblk == blocks
      invariant errors == 5 * retriescal + retriesrw && 0 <= retriesrw <= 4 && 0 <= retriescal <= 4
      invariant AllOnOneSide(g, commands) && InOrder(g, w, blnr0, commands)
      invariant done == Taken(g, w, commands) && errors == Failures(g, w, commands)
      invariant buffer[..done * g.size] == Blocks(g, image, blnr0, done) <==> Unspoilt(g, image, w, commands)
      decreases blocks, 25 - errors
    {
      if !w.issues(|commands|) {
        return false, commands, errors;
      }
      ghost var front := buffer[..done * g.size];
      ghost var ans := w.answers(|commands|);
      var command;
      ok, command := Attempt(g, image, buffer, blnr0, blocks0, done, readblk, w.answers(|commands|));
      CommandAdded(g, image, w, commands, command);
      OrderAdded(g, w, blnr0, commands, command);
      NoticedHarmless(g, image, command, ans);
      commands := commands + [command];
      if !ok {
        errors := errors + 1;
        retriesrw := retriesrw + 1;
        if retriesrw - 1 > RW_RETRIES {
          retriescal := retriescal + 1;
          if retriescal - 1 > CAL_RETRIES {
            return false, commands, errors;
          }
          if !w.recals(recals) {
            return false, commands, errors;
          }
          recals := recals + 1;
          retriesrw := 0;
          // retrycal: a seek, then the same READ again
          seeks := seeks + 1;
          if !w.seeks(seeks) {
            return false, commands, errors;
          }
        }
      } else {
        FrontGrows(g, image, blnr0, done, command, ans, front);
        NextChunk(g, blnr0 + done, readblk, blocks);
        done := done + readblk;
        blocks := blocks - readblk;
        if blocks == 0 {
          break;
        }
        readblk := g.sect;
        if readblk > blocks {
          readblk := blocks;
        }
        seeks := seeks + 1;
        if !w.seeks(seeks) {
          return false, commands, errors;
        }
      }
    }
    ok := true;
  }

  lemma NoticedHarmless(g: Geometry, image: seq<Byte>, r: Read, ans: Answer)
    requires |image| == Total(g) * g.size && OnOneSide(g, r)
    ensures Noticed(ans, r.count * g.size) ==> Harmless(Addressed(g, image, r), ans)
  {}

  lemma NothingRead(g: Geometry, image: seq<Byte>, w: World, blnr0: nat, buffer: array<Byte>, blocks0: nat)
    requires Usable(g) && |image| == Total(g) * g.size && blnr0 < Total(g) && blnr0 + blocks0 <= Total(g) &&
             blocks0 * g.size <= buffer.Length
    ensures var r := g.sect - blnr0 % g.sect;
            Fits(g, image, buffer, blnr0, blocks0, 0, if r > blocks0 then blocks0 else r)
    ensures Blocks(g, image, blnr0, 0) == [] && AllOnOneSide(g, []) && InOrder(g, w, blnr0, [])
    ensures Taken(g, w, []) == 0 == Failures(g, w, []) && Unspoilt(g, image, w, [])
  {
    BlocksFit(g, blnr0, 0);
    MulOrder(0, blocks0, g.size);
  }

  /** One sector is asked for, and the drive breaks off at its last byte: the call succeeds
      with the first result byte in the place of that byte. */
  method LateBreak(buffer: array<Byte>) returns (ok: bool)
    requires buffer.Length == 128
    modifies buffer
    ensures ok && buffer[..] != seq(128, _ => 0)
  {
    var g := Geometry(1, 1, 1, 128);
    var image: seq<Byte> := seq(128, _ => 0);
    var ans := Broken(127, [0x40, 1, 0, 0, 0, 1, 0]);
    var w := World(_ => true, _ => true, _ => true, _ => ans);
    assert Total(g) == 1;
    var commands, errors;
    ok, commands, errors := ReadData(g, image, w, 0, 1, buffer);
    OneSector(g, image, w, commands);
    assert buffer[..1 * g.size] == buffer[..];
    assert Blocks(g, image, 0, 1) == image;
  }

  lemma OneSector(g: Geometry, image: seq<Byte>, w: World, commands: seq<Read>)
    requires g == Geometry(1, 1, 1, 128) && |image| == 128 == Total(g) * g.size && image[127] == 0
    requires AllOnOneSide(g, commands) && forall k :: w.answers(k) == Broken(127, [0x40, 1, 0, 0, 0, 1, 0])
    ensures Failures(g, w, commands) == 0
    ensures Taken(g, w, commands) == 1 ==> !Unspoilt(g, image, w, commands)
    decreases |commands|
  {
    if commands == [] {
    } else {
      var n := |commands| - 1;
      var r := commands[n];
      assert OnOneSide(g, r) && r.count <= 1;
      OneSector(g, image, w, commands[..n]);
      assert commands == commands[..n] + [r];
      CommandAdded(g, image, w, commands[..n], r);
      if r.count == 1 {
        SpoiltSector(Addressed(g, image, r), w.answers(n));
      }
    }
  }

  lemma SpoiltSector(part: seq<Byte>, ans: Answer)
    requires |part| == 128 && part[127] == 0
    requires ans == Broken(127, [0x40, 1, 0, 0, 0, 1, 0])
    ensures !Harmless(part, ans)
  {
    assert ans.result[..1][0] == 0x40 && part[127..][0] == 0;
  }
}
