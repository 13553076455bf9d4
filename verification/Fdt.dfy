/** Arguments of a command: reading through them with one cursor. */
module Arguments {
  import opened Sequences
  import opened Strto

  predicate CString(s: string)
  {
    NUL !in s
  }

  predicate CStrings(args: seq<string>)
  {
    forall i :: 0 <= i < |args| ==> CString(args[i])
  }

  /** The character under the cursor: `rest` is what is left of the current argument and
      the arguments after it, `past` what is read once all of them are used up. */
  function Head(rest: seq<string>, past: char): char
  {
    if rest == [] then past else At(rest[0], 0)
  }

  function Drop(rest: seq<string>, n: nat): (r: seq<string>)
    requires rest != [] && n <= |rest[0]|
    ensures |r| == |rest| && r[0] == rest[0][n..]
  {
    [rest[0][n..]] + rest[1..]
  }

  /** The number of spaces `s` starts with. */
  function Blanks(s: string): (n: nat)
    ensures n <= |s| && (n < |s| ==> s[n] != ' ')
  {
    if s != [] && s[0] == ' ' then 1 + Blanks(s[1..]) else 0
  }

  /** The arguments with a single space between neighbours. A text is split into
      arguments at any of its spaces exactly when their join is the text. */
  function Join(rest: seq<string>): string
  {
    if rest == [] then "" else if |rest| == 1 then rest[0] else rest[0] + " " + Join(rest[1..])
  }

  lemma JoinDrop(rest: seq<string>, n: nat)
    requires rest != [] && n <= |rest[0]|
    ensures n <= |Join(rest)| && Join(rest)[..n] == rest[0][..n]
    ensures Join(Drop(rest, n)) == Join(rest)[n..]
  {
    var d := Drop(rest, n);
    if |rest| > 1 {
      assert d[1..] == rest[1..];
      var tail := " " + Join(rest[1..]);
      assert Join(rest) == rest[0] + tail;
      assert Join(d) == rest[0][n..] + tail;
      TakeDrop(rest[0], tail, n);
    }
  }

  /** A stretch without spaces lies in one argument. */
  lemma FirstReaches(rest: seq<string>, n: nat)
    requires rest != [] && n <= |Join(rest)|
    requires forall i :: 0 <= i < n ==> Join(rest)[i] != ' '
    ensures n <= |rest[0]|
  {
    if |rest| > 1 {
      assert Join(rest)[|rest[0]|] == ' ';
    }
  }

  /** What follows a token and one space, wherever the text was split. */
  lemma AfterToken(rest: seq<string>, token: string, more: string)
    requires rest != [] && ' ' !in token
    requires Join(rest) == token + " " + more
    requires more != [] && more[0] != ' '
    ensures token <= rest[0]
    ensures |rest[0]| > |token| ==> rest[0][|token|] == ' '
    ensures var left := Drop(rest, |token|);
            || (left[0] == "" && |rest| > 1 && Join(left[1..]) == more)
            || (left[0] != "" && Blanks(left[0]) == 1 && Join(Drop(left, 1)) == more)
  {
    var text := Join(rest);
    assert text[..|token|] == token;
    FirstReaches(rest, |token|);
    JoinDrop(rest, |token|);
    var left := Drop(rest, |token|);
    assert Join(left) == " " + more;
    if left[0] == "" {
      assert left[1..] == rest[1..];
      NextArgument(left, more);
    } else {
      JoinDrop(left, 1);
      assert Join(left)[..1] == left[0][..1];
      assert left[0][0] == left[0][..1][0] == ' ';
      assert Join(left)[1..] == more;
      OneBlank(left, more);
    }
  }

  lemma NextArgument(left: seq<string>, more: string)
    requires left != [] && left[0] == "" && Join(left) == " " + more
    ensures |left| > 1 && Join(left[1..]) == more
  {
    assert |left| > 1;
    assert Join(left)[1..] == Join(left[1..]);
  }

  lemma OneBlank(left: seq<string>, more: string)
    requires left != [] && left[0] != "" && left[0][0] == ' '
    requires more != [] && more[0] != ' '
    requires Join(Drop(left, 1)) == more
    ensures Blanks(left[0]) == 1
  {
    var next := Drop(left, 1);
    if next[0] != "" {
      JoinDrop(next, 1);
      assert Join(next)[..1][0] == next[0][0];
      assert left[0][1] != ' ';
    }
  }

  /** A token closed by a terminator. */
  lemma AtEnd(rest: seq<string>, token: string, end: char)
    requires rest != [] && ' ' !in token && end != ' '
    requires Join(rest) == token + [end]
    ensures token <= rest[0] && |rest[0]| > |token| && rest[0][|token|] == end
  {
    var text := Join(rest);
    assert text[..|text|] == text;
    FirstReaches(rest, |text|);
    JoinDrop(rest, |text|);
    assert rest[0][..|text|] == token + [end];
    assert rest[0][..|token|] == token;
  }
}

/** fdt_parse_prop: the arguments of "fdt set" turned into property bytes. */
module FdtParse {
  import opened Endian
  import opened Strto
  import opened Arguments

  const WORD := 0x1_0000_0000

  /** What becomes of one byte of the data area: written, or left as it was. */
  datatype Octet = Put(c: char) | Same

  datatype Parsed = Parsed(ok: bool, data: seq<Octet>)

  function Puts(data: seq<char>): (octets: seq<Octet>)
    ensures |octets| == |data|
  {
    seq(|data|, i requires 0 <= i < |data| => Put(data[i]))
  }

  function Byte(n: nat): (c: char)
    ensures c as int == n % 256
  {
    (n % 256) as char
  }

  /** A word as the four bytes of a cell. */
  function CellBytes(word: nat): (data: seq<char>)
    ensures |data| == 4
  {
    var b := BigEndian(word, 4);
    [b[0] as char, b[1] as char, b[2] as char, b[3] as char]
  }

  /** One cell at the start of `cp`: a number, or ? for a cell that keeps its bytes. */
  function CellOctets(cp: string): (octets: seq<Octet>)
    ensures |octets| == 4
  {
    if At(cp, 0) == '?' then [Same, Same, Same, Same] else Puts(CellBytes(Reading(cp, 0) % WORD))
  }

  function CellLength(cp: string): (n: nat)
    requires cp != []
    ensures n <= |cp|
  {
    if At(cp, 0) == '?' then 1 else Advance(cp, 0)
  }

  function ParseCells(rest: seq<string>, past: char): Parsed
    requires CStrings(rest)
    decreases |rest|, if rest == [] then 0 else |rest[0]|
  {
    if rest == [] || Head(rest, past) == '>' then Parsed(Head(rest, past) == '>', [])
    else if rest[0] == [] then ParseCells(rest[1..], past)
    else
      var n := CellLength(rest[0]);
      if n == 0 then Parsed(false, CellOctets(rest[0]))
      else
        var tail := ParseCells(Drop(rest, n + Blanks(rest[0][n..])), past);
        Parsed(tail.ok, CellOctets(rest[0]) + tail.data)
  }

  function ByteOctet(s: string): Octet
  {
    Put(Byte(Reading(s, 16) % WORD))
  }

  function ParseBytes(rest: seq<string>, past: char): Parsed
    requires CStrings(rest)
    decreases |rest|, if rest == [] then 0 else |rest[0]|
  {
    if rest == [] || Head(rest, past) == ']' then Parsed(Head(rest, past) == ']', [])
    else
      var here := Drop(rest, Blanks(rest[0]));
      if here[0] == [] then ParseBytes(rest[1..], past)
      else if DigitValue(here[0][0]) >= 16 then Parsed(here[0][0] == ']', [])
      else
        AdvancesOnDigit(here[0]);
        var tail := ParseBytes(Drop(here, Advance(here[0], 16)), past);
        Parsed(tail.ok, [ByteOctet(here[0])] + tail.data)
  }

  lemma AdvancesOnDigit(s: string)
    requires s != [] && DigitValue(s[0]) < 16
    ensures Advance(s, 16) > 0
  {}

  /** Strings with their terminators, one after the other. */
  function Terminated(strings: seq<string>): string
  {
    if strings == [] then [] else strings[0] + [NUL] + Terminated(strings[1..])
  }

  function Parse(args: seq<string>, past: char): Parsed
    requires args != [] && CStrings(args)
  {
    if At(args[0], 0) == '<' then ParseCells(Drop(args, 1), past)
    else if At(args[0], 0) == '[' then ParseBytes(Drop(args, 1), past)
    else Parsed(true, Puts(Terminated(args)))
  }

  /** Memory from where `data` points; the source puts no bound on it. */
  class DataArea {
    var bytes: map<nat, char>

    constructor ()
      ensures bytes == map[]
    {
      bytes := map[];
    }

    /** A copy to offset `at`. */
    method Store(at: nat, t: seq<char>)
      modifies this
      ensures forall i: nat :: Peek(bytes, i) == if at <= i < at + |t| then t[i - at] else Peek(old(bytes), i)
    {
      hide Peek;
      var k := 0;
      while k < |t|
        invariant 0 <= k <= |t|
        invariant forall i: nat :: Peek(bytes, i) == if at <= i < at + k then t[i - at] else Peek(old(bytes), i)
      {
        PeekSet(bytes, bytes[at + k := t[k]], at + k, t[k]);
        bytes := bytes[at + k := t[k]];
        k := k + 1;
      }
    }
  }

  function Peek(m: map<nat, char>, i: nat): char
  {
    if i in m then m[i] else NUL
  }

  lemma PeekSet(m: map<nat, char>, m': map<nat, char>, a: nat, c: char)
    requires m' == m[a := c]
    ensures forall i: nat :: Peek(m', i) == if i == a then c else Peek(m, i)
  {
    forall i: nat
      ensures Peek(m', i) == if i == a then c else Peek(m, i)
    {
      assert i in m' <==> i == a || i in m;
    }
  }

  /** Memory after `octets` went into the start of the data area. */
  ghost predicate Holds(now: map<nat, char>, was: map<nat, char>, octets: seq<Octet>)
  {
    forall i: nat :: Peek(now, i) == if i < |octets| && octets[i].Put? then octets[i].c else Peek(was, i)
  }

  /** What is left of the arguments with the cursor at character `p` of argument `i`. */
  function Rest(args: seq<string>, i: nat, p: nat): (r: seq<string>)
    requires i <= |args| && p <= (if i < |args| then |args[i]| else 0)
    requires CStrings(args)
    ensures CStrings(r)
  {
    if i == |args| then [] else [args[i][p..]] + args[i + 1..]
  }

  lemma RestDrop(args: seq<string>, i: nat, p: nat, n: nat)
    requires i < |args| && p + n <= |args[i]| && CStrings(args)
    ensures Rest(args, i, p + n) == Drop(Rest(args, i, p), n)
  {
    assert args[i][p..][n..] == args[i][p + n..];
  }

  lemma RestNext(args: seq<string>, i: nat, p: nat)
    requires i < |args| && p <= |args[i]| && CStrings(args)
    ensures Rest(args, i, p)[1..] == Rest(args, i + 1, 0)
  {
    if i + 1 < |args| {
      assert args[i + 1][0..] == args[i + 1];
      assert args[i + 1..] == [args[i + 1]] + args[i + 2..];
    }
  }

  lemma Extend(now: map<nat, char>, later: map<nat, char>, was: map<nat, char>, done: seq<Octet>, t: seq<char>)
    requires Holds(now, was, done)
    requires forall i: nat :: Peek(later, i) == if |done| <= i < |done| + |t| then t[i - |done|] else Peek(now, i)
    ensures Holds(later, was, done + Puts(t))
  {
    hide Peek;
  }

  lemma ExtendSame(now: map<nat, char>, was: map<nat, char>, done: seq<Octet>, more: seq<Octet>)
    requires Holds(now, was, done) && forall i :: 0 <= i < |more| ==> more[i] == Same
    ensures Holds(now, was, done + more)
  {
    hide Peek;
  }

  lemma NoDigitAtQuery(cp: string)
    requires At(cp, 0) == '?'
    ensures Advance(cp, 0) == 0
  {}

  /** One cell: convert, and store unless it reads ?. */
  method StoreCell(data: DataArea, at: nat, cp: string, ghost was: map<nat, char>, ghost done: seq<Octet>) returns (n: nat)
    requires cp != [] && at == |done|
    requires Holds(data.bytes, was, done)
    modifies data
    ensures n == CellLength(cp)
    ensures Holds(data.bytes, was, done + CellOctets(cp))
  {
    hide Holds, Peek;
    ghost var now := data.bytes;
    var tmp, end := SimpleStrtoul(cp, 0, WORD);
    if At(cp, 0) != '?' {
      n := end;
      data.Store(at, CellBytes(tmp));
      Extend(now, data.bytes, was, done, CellBytes(tmp));
    } else {
      NoDigitAtQuery(cp);
      n := end + 1;
      ExtendSame(now, was, done, CellOctets(cp));
    }
  }

  method SkipBlanks(s: string, p: nat) returns (q: nat)
    requires p <= |s|
    ensures q == p + Blanks(s[p..])
  {
    q := p;
    while q < |s| && s[q] == ' '
      invariant p <= q <= |s|
      invariant p + Blanks(s[p..]) == q + Blanks(s[q..])
    {
      assert s[q..][1..] == s[q + 1..];
      q := q + 1;
    }
  }

  lemma CellStep(rest: seq<string>, past: char)
    requires CStrings(rest) && rest != [] && Head(rest, past) != '>'
    ensures rest[0] == [] ==> ParseCells(rest, past) == ParseCells(rest[1..], past)
    ensures rest[0] != [] && CellLength(rest[0]) == 0 ==> ParseCells(rest, past) == Parsed(false, CellOctets(rest[0]))
    ensures rest[0] != [] && CellLength(rest[0]) != 0 ==>
      var n := CellLength(rest[0]);
      var tail := ParseCells(Drop(rest, n + Blanks(rest[0][n..])), past);
      ParseCells(rest, past) == Parsed(tail.ok, CellOctets(rest[0]) + tail.data)
  {
    hide CellOctets, CellLength, Blanks;
  }

  /** The loop for <...>, entered with the cursor after the bracket. */
  method ReadCells(args: seq<string>, past: char, data: DataArea) returns (ret: nat, len: nat)
    requires CStrings(args) && args != [] && args[0] != []
    modifies data
    ensures var r := ParseCells(Rest(args, 0, 1), past);
            && ret == (if r.ok then 0 else 1) && len == |r.data|
            && Holds(data.bytes, old(data.bytes), r.data)
  {
    hide ParseCells, CellOctets, CellLength, Holds, Rest, Blanks;
    ghost var goal := ParseCells(Rest(args, 0, 1), past);
    ghost var done: seq<Octet> := [];
    HoldsNothing(data.bytes);
    len := 0;
    var i: nat, p: nat := 0, 1;
    while i < |args| && At(args[i], p) != '>'
      invariant i <= |args| && p <= (if i < |args| then |args[i]| else 0)
      invariant len == |done| && Holds(data.bytes, old(data.bytes), done)
      invariant var r := ParseCells(Rest(args, i, p), past); goal == Parsed(r.ok, done + r.data)
      decreases |args| - i, if i < |args| then |args[i]| - p else 0
    {
      RestHead(args, i, p, past);
      CellStep(Rest(args, i, p), past);
      if p == |args[i]| {
        RestNext(args, i, p);
        i, p := i + 1, 0;
        continue;
      }
      var cp := args[i][p..];
      var n := StoreCell(data, len, cp, old(data.bytes), done);
      done := done + CellOctets(cp);
      len := len + 4;
      if n == 0 {
        return 1, len;
      }
      var q := SkipBlanks(args[i], p + n);
      assert cp[n..] == args[i][p + n..];
      RestDrop(args, i, p, q - p);
      p := q;
    }
    RestHead(args, i, p, past);
    CellsEnd(Rest(args, i, p), past);
    assert done + [] == done;
    ret := if i == |args| && past != '>' then 1 else 0;
  }

  lemma BlankStep(rest: seq<string>, past: char)
    requires CStrings(rest) && rest != [] && Head(rest, past) != ']'
    ensures var here := Drop(rest, Blanks(rest[0]));
            && (here[0] == [] ==> ParseBytes(rest, past) == ParseBytes(rest[1..], past))
            && (here[0] != [] && DigitValue(here[0][0]) >= 16 ==> ParseBytes(rest, past) == Parsed(here[0][0] == ']', []))
  {}

  lemma ByteStep(rest: seq<string>, past: char)
    requires CStrings(rest) && rest != [] && Head(rest, past) != ']'
    ensures var here := Drop(rest, Blanks(rest[0]));
            here[0] != [] && DigitValue(here[0][0]) < 16 ==>
              var tail := ParseBytes(Drop(here, Advance(here[0], 16)), past);
              ParseBytes(rest, past) == Parsed(tail.ok, [ByteOctet(here[0])] + tail.data)
  {}

  method StoreByte(data: DataArea, at: nat, s: string, ghost was: map<nat, char>, ghost done: seq<Octet>) returns (n: nat)
    requires at == |done|
    requires Holds(data.bytes, was, done)
    modifies data
    ensures n == Advance(s, 16)
    ensures Holds(data.bytes, was, done + [ByteOctet(s)])
  {
    hide Holds, Peek;
    ghost var now := data.bytes;
    var tmp, end := SimpleStrtoul(s, 16, WORD);
    n := end;
    data.Store(at, [Byte(tmp)]);
    Extend(now, data.bytes, was, done, [Byte(tmp)]);
    assert Puts([Byte(tmp)]) == [ByteOctet(s)];
  }

  /** The loop for [...], entered with the cursor after the bracket. */
  method ReadBytes(args: seq<string>, past: char, data: DataArea) returns (ret: nat, len: nat)
    requires CStrings(args) && args != [] && args[0] != []
    modifies data
    ensures var r := ParseBytes(Rest(args, 0, 1), past);
            && ret == (if r.ok then 0 else 1) && len == |r.data|
            && Holds(data.bytes, old(data.bytes), r.data)
  {
    hide ParseBytes, ByteOctet, Holds, Rest, Blanks, Advance, DigitValue;
    ghost var goal := ParseBytes(Rest(args, 0, 1), past);
    ghost var done: seq<Octet> := [];
    HoldsNothing(data.bytes);
    len := 0;
    var i: nat, p: nat := 0, 1;
    while i < |args| && At(args[i], p) != ']'
      invariant i <= |args| && p <= (if i < |args| then |args[i]| else 0)
      invariant len == |done| && Holds(data.bytes, old(data.bytes), done)
      invariant var r := ParseBytes(Rest(args, i, p), past); goal == Parsed(r.ok, done + r.data)
      decreases |args| - i, if i < |args| then |args[i]| - p else 0
    {
      RestHead(args, i, p, past);
      BlankStep(Rest(args, i, p), past);
      ByteStep(Rest(args, i, p), past);
      var q := SkipBlanks(args[i], p);
      RestDrop(args, i, p, q - p);
      RestHead(args, i, q, past);
      if q == |args[i]| {
        RestNext(args, i, p);
        i, p := i + 1, 0;
        continue;
      }
      if DigitValue(args[i][q]) >= 16 {
        assert done + [] == done;
        return if args[i][q] == ']' then 0 else 1, len;
      }
      var s := args[i][q..];
      AdvancesOnDigit(s);
      var n := StoreByte(data, len, s, old(data.bytes), done);
      RestDrop(args, i, q, n);
      done := done + [ByteOctet(s)];
      len := len + 1;
      p := q + n;
    }
    RestHead(args, i, p, past);
    BytesEnd(Rest(args, i, p), past);
    assert done + [] == done;
    ret := if i == |args| && past != ']' then 1 else 0;
  }

  lemma BytesEnd(rest: seq<string>, past: char)
    requires CStrings(rest) && (rest == [] || Head(rest, past) == ']')
    ensures ParseBytes(rest, past) == Parsed(Head(rest, past) == ']', [])
  {}

  lemma TerminatedNext(args: seq<string>, i: nat)
    requires i < |args|
    ensures Terminated(args[i..]) == args[i] + [NUL] + Terminated(args[i + 1..])
  {
    assert args[i..][1..] == args[i + 1..];
  }

  /** strcpy into the data area. */
  method StoreString(data: DataArea, at: nat, s: string, ghost was: map<nat, char>, ghost done: seq<Octet>)
    requires at == |done|
    requires Holds(data.bytes, was, done)
    modifies data
    ensures Holds(data.bytes, was, done + Puts(s + [NUL]))
  {
    hide Holds, Peek;
    ghost var now := data.bytes;
    data.Store(at, s + [NUL]);
    Extend(now, data.bytes, was, done, s + [NUL]);
  }

  /** The strings case. */
  method ReadStrings(args: seq<string>, data: DataArea) returns (len: nat)
    modifies data
    ensures len == |Terminated(args)|
    ensures Holds(data.bytes, old(data.bytes), Puts(Terminated(args)))
  {
    hide Terminated, Holds;
    len := 0;
    ghost var done: string := [];
    HoldsNothing(data.bytes);
    assert args[0..] == args && Puts(done) == [];
    var i := 0;
    while i < |args|
      invariant 0 <= i <= |args| && len == |done|
      invariant Holds(data.bytes, old(data.bytes), Puts(done))
      invariant Terminated(args) == done + Terminated(args[i..])
    {
      TerminatedNext(args, i);
      StoreString(data, len, args[i], old(data.bytes), Puts(done));
      assert Puts(done) + Puts(args[i] + [NUL]) == Puts(done + (args[i] + [NUL]));
      assert Terminated(args) == (done + (args[i] + [NUL])) + Terminated(args[i + 1..]);
      done := done + (args[i] + [NUL]);
      len := len + |args[i]| + 1;
      i := i + 1;
    }
    TerminatedNone(args[i..]);
    assert done + [] == done;
  }

  lemma TerminatedNone(args: seq<string>)
    requires args == []
    ensures Terminated(args) == []
  {}

  /** fdt_parse_prop */
  method FdtParseProp(newval: seq<string>, past: char, data: DataArea) returns (ret: nat, len: nat)
    requires newval != [] && CStrings(newval)
    modifies data
    ensures var r := Parse(newval, past);
            && ret == (if r.ok then 0 else 1) && len == |r.data|
            && Holds(data.bytes, old(data.bytes), r.data)
  {
    hide Holds, ParseCells, ParseBytes;
    if At(newval[0], 0) == '<' {
      assert Rest(newval, 0, 1) == Drop(newval, 1);
      ret, len := ReadCells(newval, past, data);
    } else if At(newval[0], 0) == '[' {
      assert Rest(newval, 0, 1) == Drop(newval, 1);
      ret, len := ReadBytes(newval, past, data);
    } else {
      ret := 0;
      len := ReadStrings(newval, data);
    }
  }

  lemma RestHead(args: seq<string>, i: nat, p: nat, past: char)
    requires i <= |args| && p <= (if i < |args| then |args[i]| else 0) && CStrings(args)
    ensures i < |args| ==> |Rest(args, i, p)| > 0 && Rest(args, i, p)[0] == args[i][p..]
    ensures i < |args| ==> Head(Rest(args, i, p), past) == At(args[i], p)
    ensures i == |args| ==> Rest(args, i, p) == []
  {}

  lemma CellsEnd(rest: seq<string>, past: char)
    requires CStrings(rest) && (rest == [] || Head(rest, past) == '>')
    ensures ParseCells(rest, past) == Parsed(Head(rest, past) == '>', [])
  {}

  lemma HoldsNothing(now: map<nat, char>)
    ensures Holds(now, now, [])
  {}
}

/** The character table of lib/ctype.c. */
module Ctype {
  /** The classes of sixteen characters: control (C), control and white space (S), blank ( ),
      punctuation (P), digit (D), upper case (U, or X for A to F), lower case (L, or x for a
      to f), or none (0). */
  function Row(r: nat): (s: string)
    requires r < 16
    ensures |s| == 16
  {
    match r
    case 0 => "CCCCCCCCCSSSSSCC"
    case 1 => "CCCCCCCCCCCCCCCC"
    case 2 => " PPPPPPPPPPPPPPP"
    case 3 => "DDDDDDDDDDPPPPPP"
    case 4 => "PXXXXXXUUUUUUUUU"
    case 5 => "UUUUUUUUUUUPPPPP"
    case 6 => "PxxxxxxLLLLLLLLL"
    case 7 => "LLLLLLLLLLLPPPPC"
    case 8 => "0000000000000000"
    case 9 => "0000000000000000"
    case 10 => " PPPPPPPPPPPPPPP"
    case 11 => "PPPPPPPPPPPPPPPP"
    case 12 => "UUUUUUUUUUUUUUUU"
    case 13 => "UUUUUUUPUUUUUUUL"
    case 14 => "LLLLLLLLLLLLLLLL"
    case _ => "LLLLLLLPLLLLLLLL"
  }

  /** A `char` is looked up as an unsigned one. */
  function Class(c: char): char
  {
    Row(c as int % 256 / 16)[c as int % 16]
  }

  predicate IsPrint(c: char)
  {
    Class(c) in "PUXLxD "
  }

  predicate IsSpace(c: char)
  {
    Class(c) in "S "
  }

  /** Shown as text: white space, the graphic characters of ASCII, and Latin-1 from 160 on. */
  predicate Shown(c: char)
  {
    var n := c as int % 256;
    9 <= n <= 13 || 32 <= n <= 126 || 160 <= n
  }

  lemma Rows0(r: nat, k: nat)
    requires 0 <= r < 4 && k < 16
    ensures Row(r)[k] in "PUXLxDS " <==> 9 <= 16 * r + k <= 13 || 32 <= 16 * r + k <= 126 || 160 <= 16 * r + k
  {}

  lemma Rows4(r: nat, k: nat)
    requires 4 <= r < 8 && k < 16
    ensures Row(r)[k] in "PUXLxDS " <==> 9 <= 16 * r + k <= 13 || 32 <= 16 * r + k <= 126 || 160 <= 16 * r + k
  {}

  lemma Rows8(r: nat, k: nat)
    requires 8 <= r < 12 && k < 16
    ensures Row(r)[k] in "PUXLxDS " <==> 9 <= 16 * r + k <= 13 || 32 <= 16 * r + k <= 126 || 160 <= 16 * r + k
  {}

  lemma Rows12(r: nat, k: nat)
    requires 12 <= r < 16 && k < 16
    ensures Row(r)[k] in "PUXLxDS " <==> 9 <= 16 * r + k <= 13 || 32 <= 16 * r + k <= 126 || 160 <= 16 * r + k
  {}

  lemma ShownIs(c: char)
    ensures IsPrint(c) || IsSpace(c) <==> Shown(c)
  {
    var n := c as int % 256;
    var r, k := n / 16, n % 16;
    assert c as int % 16 == k;
    hide Row;
    if r < 4 {
      Rows0(r, k);
    } else if r < 8 {
      Rows4(r, k);
    } else if r < 12 {
      Rows8(r, k);
    } else {
      Rows12(r, k);
    }
  }
}

/** print_data, and what its output parses back to. */
module FdtPrint {
  import opened Endian
  import opened Strto
  import opened Arguments
  import opened Ctype
  import opened FdtParse

  const MAX_DUMP := 64

  predicate Octets(data: seq<char>)
  {
    forall i :: 0 <= i < |data| ==> data[i] as int < 256
  }

  /** `after` is the byte that follows the value in memory. */
  ghost predicate Printable(data: seq<char>, after: char)
  {
    && data != []
    && (data[|data| - 1] == NUL || (data[|data| - 1] == '\n' && after == NUL))
    && (forall i :: 0 <= i < |data| ==> data[i] == NUL || Shown(data[i]))
    && (forall i :: 0 <= i < |data| - 1 ==> data[i] != NUL || data[i + 1] != NUL)
  }

  /** is_printable_string, reading one byte past the value when all of it is shown. */
  method IsPrintableString(data: seq<char>, after: char) returns (yes: bool)
    ensures yes == Printable(data, after)
  {
    hide IsPrint, IsSpace, Shown;
    var len := |data|;
    if len == 0 {
      return false;
    }
    if data[len - 1] != NUL && data[len - 1] != '\n' {
      return false;
    }
    var memory := data + [after];
    var s := 0;
    ShownIs(memory[s]);
    while (memory[s] == NUL || IsPrint(memory[s]) || IsSpace(memory[s])) && len > 0
      invariant 0 <= s <= |data| && len == |data| - s
      invariant forall i :: 0 <= i < s ==> data[i] == NUL || Shown(data[i])
      invariant forall i :: 0 <= i < s && i < |data| - 1 ==> data[i] != NUL || data[i + 1] != NUL
      invariant s == |data| ==> data[s - 1] == '\n'
      invariant IsPrint(memory[s]) || IsSpace(memory[s]) <==> Shown(memory[s])
    {
      if memory[s] == NUL {
        if len == 1 {
          return true;
        }
        if memory[s + 1] == NUL {
          return false;
        }
      }
      s := s + 1;
      len := len - 1;
      ShownIs(memory[s]);
    }
    return !(memory[s] != NUL || len != 0);
  }

  /** strlen, for a string inside the value. */
  function StrLen(s: string): (n: nat)
    ensures n <= |s| && NUL !in s[..n] && (n < |s| ==> s[n] == NUL)
  {
    if s == [] || s[0] == NUL then 0 else 1 + StrLen(s[1..])
  }

  /** Where the string after the one at the start begins. */
  function Next(s: string): (n: nat)
    requires s != []
    ensures 0 < n <= |s|
  {
    if StrLen(s) < |s| then StrLen(s) + 1 else |s|
  }

  /** The strings a value is made of. */
  function Strings(data: seq<char>): (strings: seq<string>)
    ensures CStrings(strings) && (data != [] ==> strings != [])
  {
    if data == [] then [] else [data[..StrLen(data)]] + Strings(data[Next(data)..])
  }

  const SEPARATOR := "\", \""

  function StringsText(strings: seq<string>): string
  {
    if strings == [] then ""
    else if |strings| == 1 then strings[0]
    else strings[0] + SEPARATOR + StringsText(strings[1..])
  }

  function WordOf(data: seq<char>): (w: nat)
    requires |data| >= 4 && Octets(data)
    ensures w < Sixteens(8)
  {
    WordBound();
    ((data[0] as int * 256 + data[1] as int) * 256 + data[2] as int) * 256 + data[3] as int
  }

  lemma WordBound()
    ensures Sixteens(2) == 256 && Sixteens(8) == 0x1_0000_0000
  {
    assert Sixteens(4) == 65536;
  }

  function CellText(data: seq<char>): string
    requires |data| >= 4 && Octets(data)
  {
    "0x" + Fixed(WordOf(data), 8)
  }

  function Gap(more: bool): string
  {
    if more then " " else ""
  }

  function CellsText(data: seq<char>): string
    requires |data| % 4 == 0 && Octets(data)
  {
    if |data| == 0 then "" else CellText(data) + (Gap(|data| > 4) + CellsText(data[4..]))
  }

  function ByteText(c: char): string
    requires c as int < 256
  {
    WordBound();
    Fixed(c as int, 2)
  }

  function BytesText(data: seq<char>): string
    requires Octets(data)
  {
    if |data| == 0 then "" else ByteText(data[0]) + (Gap(|data| > 1) + BytesText(data[1..]))
  }

  /** What print_data shows; `address` is the text of the pointer. */
  ghost function Shows(data: seq<char>, after: char, address: string): string
    requires Octets(data) && |data| < WORD
  {
    if data == [] then ""
    else if Printable(data, after) then "\"" + StringsText(Strings(data)) + "\""
    else if |data| > MAX_DUMP then Summary(|data|, address)
    else if |data| % 4 == 0 then "<" + CellsText(data) + ">"
    else "[" + BytesText(data) + "]"
  }

  function Summary(len: nat, address: string): string
    requires len < WORD
  {
    WordBound();
    "* 0x" + address + " [0x" + Fixed(len, 8) + "]"
  }

  /** The part of the strings' text from `rest` on, its separator included. */
  function Owed(rest: seq<char>, first: bool): string
  {
    if rest == [] then "" else Comma(first) + StringsText(Strings(rest))
  }

  function Comma(first: bool): string
  {
    if first then "" else SEPARATOR
  }

  lemma OwedStep(rest: seq<char>, first: bool)
    requires rest != []
    ensures Owed(rest, first) == Comma(first) + (rest[..StrLen(rest)] + Owed(rest[Next(rest)..], false))
  {
    var s, more := rest[..StrLen(rest)], rest[Next(rest)..];
    assert Strings(rest)[1..] == Strings(more);
    if more != [] {
      assert s + SEPARATOR + StringsText(Strings(more)) == s + (SEPARATOR + StringsText(Strings(more)));
    }
  }

  lemma Collect(a: string, b: string, c: string, d: string)
    ensures a + (b + (c + d)) == ((a + b) + c) + d
  {}

  method PrintStrings(data: seq<char>) returns (out: string)
    requires data != []
    ensures out == StringsText(Strings(data))
  {
    hide StrLen, Next, Owed, Comma, Strings, StringsText;
    OwedEnds(data);
    out := "";
    var j := 0;
    assert data[0..] == data;
    while j < |data|
      invariant 0 <= j <= |data|
      invariant Owed(data, true) == out + Owed(data[j..], j == 0)
    {
      var here := data[j..];
      OwedStep(here, j == 0);
      Collect(out, Comma(j == 0), here[..StrLen(here)], Owed(here[Next(here)..], false));
      out := out + Comma(j == 0) + here[..StrLen(here)];
      assert here[Next(here)..] == data[j + Next(here)..];
      j := j + Next(here);
    }
    assert data[j..] == [];
  }

  lemma OwedEnds(data: seq<char>)
    requires data != []
    ensures Owed(data, true) == StringsText(Strings(data)) && Owed([], false) == ""
  {}

  lemma CellsStep(data: seq<char>)
    requires |data| >= 4 && |data| % 4 == 0 && Octets(data)
    ensures CellsText(data) == CellText(data) + (Gap(|data| > 4) + CellsText(data[4..]))
  {}

  method PrintCells(data: seq<char>) returns (out: string)
    requires |data| % 4 == 0 && Octets(data)
    ensures out == CellsText(data)
  {
    hide CellText, CellsText, Gap;
    out := "";
    assert data[0..] == data;
    var j := 0;
    while j < |data| / 4
      invariant 0 <= j <= |data| / 4
      invariant CellsText(data) == out + CellsText(data[4 * j..])
    {
      var here := data[4 * j..];
      CellsStep(here);
      assert here[4..] == data[4 * (j + 1)..];
      var gap := Gap(j < |data| / 4 - 1);
      Collect(out, CellText(here), gap, CellsText(here[4..]));
      out := out + CellText(here) + gap;
      j := j + 1;
    }
    TextEnds();
  }

  lemma TextEnds()
    ensures CellsText([]) == "" && BytesText([]) == ""
  {}

  lemma BytesStep(data: seq<char>)
    requires data != [] && Octets(data)
    ensures BytesText(data) == ByteText(data[0]) + (Gap(|data| > 1) + BytesText(data[1..]))
  {}

  method PrintBytes(data: seq<char>) returns (out: string)
    requires Octets(data)
    ensures out == BytesText(data)
  {
    hide ByteText, BytesText, Gap;
    out := "";
    assert data[0..] == data;
    var j := 0;
    while j < |data|
      invariant 0 <= j <= |data|
      invariant BytesText(data) == out + BytesText(data[j..])
    {
      var here := data[j..];
      BytesStep(here);
      assert here[1..] == data[j + 1..];
      var gap := Gap(j < |data| - 1);
      Collect(out, ByteText(data[j]), gap, BytesText(here[1..]));
      out := out + ByteText(data[j]) + gap;
      j := j + 1;
    }
    TextEnds();
  }

  method PrintData(data: seq<char>, after: char, address: string) returns (out: string)
    requires Octets(data) && |data| < WORD
    ensures out == Shows(data, after, address)
  {
    hide Printable, StringsText, Strings, CellsText, BytesText, Summary;
    if |data| == 0 {
      return "";
    }
    var printable := IsPrintableString(data, after);
    if printable {
      var text := PrintStrings(data);
      return "\"" + text + "\"";
    }
    if |data| % 4 == 0 {
      if |data| > MAX_DUMP {
        return Summary(|data|, address);
      }
      var text := PrintCells(data);
      return "<" + text + ">";
    } else {
      if |data| > MAX_DUMP {
        return Summary(|data|, address);
      }
      var text := PrintBytes(data);
      return "[" + text + "]";
    }
  }

  // ---- round trips ------------------------------------------------------------------------

  lemma Over8(w: nat, hi: nat, lo: nat)
    requires w == hi * 0x100 + lo && lo < 0x100
    ensures w / 0x100 == hi && w % 0x100 == lo
  {}

  lemma Over16(w: nat, hi: nat, lo: nat)
    requires w == hi * 0x1_0000 + lo && lo < 0x1_0000
    ensures w / 0x1_0000 == hi
  {}

  lemma Over24(w: nat, hi: nat, lo: nat)
    requires w == hi * 0x100_0000 + lo && lo < 0x100_0000
    ensures w / 0x100_0000 == hi
  {}

  lemma WordDigits(a: nat, b: nat, c: nat, d: nat, w: nat)
    requires a < 256 && b < 256 && c < 256 && d < 256
    requires w == ((a * 256 + b) * 256 + c) * 256 + d
    ensures w / 0x100_0000 % 256 == a && w / 0x1_0000 % 256 == b && w / 0x100 % 256 == c && w % 256 == d
  {
    Over8(w, (a * 256 + b) * 256 + c, d);
    Over16(w, a * 256 + b, c * 256 + d);
    Over24(w, a, (b * 256 + c) * 256 + d);
    Over8(a * 256 + b, a, b);
    Over8((a * 256 + b) * 256 + c, a * 256 + b, c);
  }

  lemma WordCodec(data: seq<char>)
    requires |data| >= 4 && Octets(data)
    ensures CellBytes(WordOf(data)) == data[..4]
  {
    hide Sixteens, BigEndian;
    WordDigits(data[0] as int, data[1] as int, data[2] as int, data[3] as int, WordOf(data));
    FourDigits(WordOf(data));
  }

  lemma ReadDigits(s: string, digits: string)
    requires |digits| == 8 && AllDigits(digits, 16) && "0x" + digits <= s
    requires |s| > 10 ==> DigitValue(s[10]) >= 16
    ensures s[0] == '0' && CellLength(s) == 10
    ensures CellOctets(s) == Puts(CellBytes(Number(digits, 16) % WORD))
  {
    hide Advance, Reading, CellBytes, Number, DigitValue;
    assert s[0] == ("0x" + digits)[0];
    assert s[..2] == ("0x" + digits)[..2] == "0x" && s[2..10] == ("0x" + digits)[2..10] == digits;
    ReadsPrefixed(s, digits);
  }

  /** A printed cell at the start of an argument is one cell, with the same bytes. */
  lemma ReadCell(s: string, data: seq<char>)
    requires |data| >= 4 && Octets(data) && CellText(data) <= s
    requires |s| > 10 ==> DigitValue(s[10]) >= 16
    ensures s[0] == '0' && CellLength(s) == 10 && CellOctets(s) == Puts(data[..4])
  {
    hide Advance, Reading, CellBytes, WordOf, CellLength, CellOctets, Fixed, Puts, Number, DigitValue;
    WordBound();
    ReadDigits(s, Fixed(WordOf(data), 8));
    WordCodec(data);
  }

  lemma CellTextForm(data: seq<char>)
    requires |data| >= 4 && Octets(data)
    ensures |CellText(data)| == 10 && ' ' !in CellText(data) && CellText(data)[0] == '0'
  {
    hide WordOf;
  }

  /** A cell printed before others, wherever the text was split. */
  lemma CellTaken(data: seq<char>, rest: seq<string>, past: char, more: string) returns (next: seq<string>)
    requires |data| >= 4 && Octets(data) && rest != [] && CStrings(rest)
    requires Join(rest) == CellText(data) + " " + more && more != [] && more[0] != ' '
    ensures next != [] && CStrings(next) && Join(next) == more
    ensures var tail := ParseCells(next, past);
            ParseCells(rest, past) == Parsed(tail.ok, Puts(data[..4]) + tail.data)
  {
    hide CellText, CellOctets, CellLength, Join, WordOf, Puts, ParseCells, Octets;
    CellTextForm(data);
    AfterToken(rest, CellText(data), more);
    ReadCell(rest[0], data);
    CellStep(rest, past);
    var left := Drop(rest, 10);
    DropTwice(rest, 10, Blanks(left[0]));
    next := Drop(left, Blanks(left[0]));
    if left[0] == "" {
      CellStep(next, past);
      assert next[1..] == left[1..];
      next := left[1..];
    }
  }

  lemma LastCell(data: seq<char>, rest: seq<string>, past: char)
    requires |data| == 4 && Octets(data) && rest != [] && CStrings(rest)
    requires Join(rest) == CellText(data) + ">"
    ensures ParseCells(rest, past) == Parsed(true, Puts(data))
  {
    hide CellText, CellOctets, CellLength, Join, WordOf, Puts, ParseCells, Octets;
    CellTextForm(data);
    AtEnd(rest, CellText(data), '>');
    ReadCell(rest[0], data);
    CellStep(rest, past);
    CellsEnd(Drop(rest, 10), past);
    assert data[..4] == data;
  }

  /** Printed cells, split into arguments at any of the spaces, parse to the same bytes. */
  lemma {:induction false} CellsRoundTrip(data: seq<char>, rest: seq<string>, past: char)
    requires |data| % 4 == 0 && data != [] && Octets(data)
    requires rest != [] && CStrings(rest) && Join(rest) == CellsText(data) + ">"
    ensures ParseCells(rest, past) == Parsed(true, Puts(data))
    decreases |data|
  {
    hide CellText, Join, WordOf, Puts, ParseCells, CellsText;
    CellsStep(data);
    TextEnds();
    if |data| == 4 {
      assert CellText(data) + ("" + "") == CellText(data);
      LastCell(data, rest, past);
    } else {
      var more := CellsText(data[4..]) + ">";
      CellsStep(data[4..]);
      CellTextForm(data[4..]);
      Close(CellText(data), CellsText(data[4..]), ">");
      var next := CellTaken(data, rest, past, more);
      CellsRoundTrip(data[4..], next, past);
      PutsSplit(data, 4);
    }
  }

  lemma Close(a: string, b: string, end: string)
    ensures (a + (" " + b)) + end == a + " " + (b + end)
  {}

  lemma DropTwice(rest: seq<string>, n: nat, m: nat)
    requires rest != [] && n + m <= |rest[0]|
    ensures Drop(Drop(rest, n), m) == Drop(rest, n + m)
  {
    assert rest[0][n..][m..] == rest[0][n + m..];
  }

  lemma PutsSplit(data: seq<char>, n: nat)
    requires n <= |data|
    ensures Puts(data[..n]) + Puts(data[n..]) == Puts(data)
  {}

  lemma ByteTextForm(c: char)
    requires c as int < 256
    ensures |ByteText(c)| == 2 && ' ' !in ByteText(c) && AllDigits(ByteText(c), 16) && Number(ByteText(c), 16) == c as int
  {
    hide Fixed, Number;
  }

  /** A printed byte at the start of an argument is one byte, the same. */
  lemma ReadByte(s: string, c: char)
    requires c as int < 256 && ByteText(c) <= s
    requires |s| > 2 ==> DigitValue(s[2]) >= 16
    ensures |s| >= 2 && DigitValue(s[0]) < 16 && Advance(s, 16) == 2 && ByteOctet(s) == Put(c)
  {
    hide Advance, Reading, ByteText, Number;
    ByteTextForm(c);
    assert s[0] == ByteText(c)[0];
    ReadsPlain(s, ByteText(c));
  }

  lemma DigitIsNoBlank(s: string)
    requires s != [] && DigitValue(s[0]) < 16
    ensures s[0] != ' ' && s[0] != ']' && s[0] != NUL && Blanks(s) == 0
  {}

  lemma DropNone(rest: seq<string>)
    requires rest != []
    ensures Drop(rest, 0) == rest
  {
    assert rest[0][0..] == rest[0];
  }

  lemma BlanksOnce(s: string)
    ensures Blanks(s[Blanks(s)..]) == 0
  {}

  /** Leading spaces make no difference to the byte loop. */
  lemma BlankSkipped(rest: seq<string>, past: char)
    requires rest != [] && CStrings(rest) && rest[0] != [] && rest[0][0] == ' '
    ensures ParseBytes(rest, past) == ParseBytes(Drop(rest, Blanks(rest[0])), past)
  {
    hide ParseBytes, ByteOctet, Blanks, DigitValue;
    var here := Drop(rest, Blanks(rest[0]));
    BlankStep(rest, past);
    ByteStep(rest, past);
    BlanksOnce(rest[0]);
    DropNone(here);
    assert here[1..] == rest[1..];
    if Head(here, past) == ']' {
      DigitValueOfBracket();
      BytesEnd(here, past);
    } else {
      BlankStep(here, past);
      ByteStep(here, past);
    }
  }

  lemma DigitValueOfBracket()
    ensures DigitValue(']') >= 16 && DigitValue(' ') >= 16 && DigitValue('>') >= 16
  {}

  lemma ByteTaken(c: char, rest: seq<string>, past: char, more: string) returns (next: seq<string>)
    requires c as int < 256 && rest != [] && CStrings(rest)
    requires Join(rest) == ByteText(c) + " " + more && more != [] && more[0] != ' '
    ensures next != [] && CStrings(next) && Join(next) == more
    ensures var tail := ParseBytes(next, past);
            ParseBytes(rest, past) == Parsed(tail.ok, [Put(c)] + tail.data)
  {
    hide ByteText, ByteOctet, Advance, Join, ParseBytes, DigitValue;
    ByteTextForm(c);
    DigitValueOfBracket();
    AfterToken(rest, ByteText(c), more);
    ReadByte(rest[0], c);
    DigitIsNoBlank(rest[0]);
    DropNone(rest);
    ByteStep(rest, past);
    var left := Drop(rest, 2);
    if left[0] == "" {
      BlankStep(left, past);
      DropNone(left);
      next := left[1..];
    } else {
      BlankSkipped(left, past);
      next := Drop(left, 1);
    }
  }

  lemma LastByte(c: char, rest: seq<string>, past: char)
    requires c as int < 256 && rest != [] && CStrings(rest)
    requires Join(rest) == ByteText(c) + "]"
    ensures ParseBytes(rest, past) == Parsed(true, [Put(c)])
  {
    hide ByteText, ByteOctet, Advance, Join, ParseBytes, DigitValue;
    ByteTextForm(c);
    DigitValueOfBracket();
    AtEnd(rest, ByteText(c), ']');
    ReadByte(rest[0], c);
    DigitIsNoBlank(rest[0]);
    DropNone(rest);
    ByteStep(rest, past);
    BytesEnd(Drop(rest, 2), past);
  }

  /** Printed bytes, split into arguments at any of the spaces, parse to the same bytes. */
  lemma {:induction false} BytesRoundTrip(data: seq<char>, rest: seq<string>, past: char)
    requires data != [] && Octets(data)
    requires rest != [] && CStrings(rest) && Join(rest) == BytesText(data) + "]"
    ensures ParseBytes(rest, past) == Parsed(true, Puts(data))
    decreases |data|
  {
    hide ByteText, Join, ParseBytes, BytesText;
    BytesStep(data);
    TextEnds();
    if |data| == 1 {
      assert data[1..] == [] && ByteText(data[0]) + ("" + "") == ByteText(data[0]);
      LastByte(data[0], rest, past);
    } else {
      var more := BytesText(data[1..]) + "]";
      BytesStep(data[1..]);
      ByteTextForm(data[1]);
      Close(ByteText(data[0]), BytesText(data[1..]), "]");
      var next := ByteTaken(data[0], rest, past, more);
      BytesRoundTrip(data[1..], next, past);
      PutsSplit(data, 1);
      assert data[..1] == [data[0]];
    }
  }

  lemma Opened(args: seq<string>, open: char, text: string)
    requires args != [] && open != ' ' && Join(args) == [open] + text
    ensures args[0] != [] && At(args[0], 0) == open && Join(Drop(args, 1)) == text
  {
    FirstReaches(args, 1);
    JoinDrop(args, 1);
    assert args[0][0] == Join(args)[..1][0];
    assert Join(args)[1..] == text;
  }

  /** Whatever print_data shows in full as cells or bytes, however it is split at its
      spaces into arguments, fdt_parse_prop turns back into the same value. */
  lemma DumpReturns(data: seq<char>, after: char, address: string, args: seq<string>, past: char)
    requires Octets(data) && 0 < |data| <= 64 && !Printable(data, after)
    requires args != [] && CStrings(args) && Join(args) == Shows(data, after, address)
    ensures Parse(args, past) == Parsed(true, Puts(data))
  {
    hide Join, Printable, CellsText, BytesText, ParseCells, ParseBytes;
    if |data| % 4 == 0 {
      assert Join(args) == ['<'] + (CellsText(data) + ">");
      Opened(args, '<', CellsText(data) + ">");
      CellsRoundTrip(data, Drop(args, 1), past);
    } else {
      assert Join(args) == ['['] + (BytesText(data) + "]");
      Opened(args, '[', BytesText(data) + "]");
      BytesRoundTrip(data, Drop(args, 1), past);
    }
  }

  /** More than 64 bytes that are not text are shown by address and length only. */
  lemma LongIsSummed(data: seq<char>, after: char, address: string)
    requires Octets(data) && 64 < |data| < WORD && !Printable(data, after)
    ensures |data| < Sixteens(8) && Shows(data, after, address) == "* 0x" + address + " [0x" + Fixed(|data|, 8) + "]"
  {
    WordBound();
  }

  /** The terminator a value lacks when it does not end in NUL. */
  function Missing(data: seq<char>): string
  {
    if data == [] || data[|data| - 1] == NUL then [] else [NUL]
  }

  lemma FirstString(data: seq<char>)
    requires data != []
    ensures Terminated(Strings(data)) == data[..StrLen(data)] + [NUL] + Terminated(Strings(data[Next(data)..]))
  {
    hide StrLen, Next;
    assert Strings(data)[1..] == Strings(data[Next(data)..]);
  }

  lemma CutAt(data: seq<char>, n: nat)
    requires n < |data| && data[n] == NUL
    ensures data[..n] + [NUL] + (data[n + 1..] + Missing(data[n + 1..])) == data + Missing(data)
  {
    var rest := data[n + 1..];
    assert data[..n] + [NUL] + rest == data;
    assert Missing(rest) == Missing(data);
  }

  /** Splitting a value into strings loses nothing; a value that does not end in NUL
      gains one. */
  lemma {:induction false} StringsTerminated(data: seq<char>)
    ensures Terminated(Strings(data)) == data + Missing(data)
    decreases |data|
  {
    hide StrLen, Missing, Terminated, Strings;
    if data == [] {
      NothingTerminated();
    } else {
      FirstString(data);
      StringsTerminated(data[Next(data)..]);
      if StrLen(data) < |data| {
        CutAt(data, StrLen(data));
      } else {
        NothingTerminated();
        Unterminated(data);
      }
    }
  }

  lemma NothingTerminated()
    ensures Terminated(Strings([])) == [] && Missing([]) == []
  {}

  lemma Unterminated(data: seq<char>)
    requires data != [] && NUL !in data
    ensures Missing(data) == [NUL]
  {
    assert data[|data| - 1] in data;
  }

  /** Strings given back as arguments, one each, unless the first starts with a bracket:
      exactly the values that end in NUL come back unchanged. */
  lemma StringsKept(data: seq<char>, past: char)
    requires data != [] && data[0] != '<' && data[0] != '['
    ensures Parse(Strings(data), past).ok
    ensures Parse(Strings(data), past).data == Puts(data) <==> data[|data| - 1] == NUL
  {
    hide Terminated;
    StringsTerminated(data);
    FirstCharacter(data);
    assert |Terminated(Strings(data))| == |data| ==> Terminated(Strings(data)) == data;
  }

  lemma FirstCharacter(data: seq<char>)
    requires data != []
    ensures At(Strings(data)[0], 0) == data[0]
  {}
}

/** Cells typed in by hand: numbers in any of the forms of C. */
module FdtNumbers {
  import opened Endian
  import opened Strto
  import opened Arguments
  import opened FdtParse
  import opened FdtPrint

  datatype Numeral = Numeral(form: Form, n: nat)

  /** The numbers with one space between neighbours. */
  function NumbersText(xs: seq<Numeral>): string
  {
    if xs == [] then "" else Text(xs[0].form, xs[0].n) + (Gap(|xs| > 1) + NumbersText(xs[1..]))
  }

  /** One cell after the other, most significant byte first; what exceeds 32 bits is lost. */
  function Cells(xs: seq<Numeral>): seq<char>
  {
    if xs == [] then [] else CellBytes(xs[0].n % WORD) + Cells(xs[1..])
  }

  lemma NumbersStep(xs: seq<Numeral>)
    requires xs != []
    ensures NumbersText(xs) == Text(xs[0].form, xs[0].n) + (Gap(|xs| > 1) + NumbersText(xs[1..]))
    ensures Cells(xs) == CellBytes(xs[0].n % WORD) + Cells(xs[1..])
    ensures |xs| == 1 ==> NumbersText(xs) == Text(xs[0].form, xs[0].n) && Cells(xs) == CellBytes(xs[0].n % WORD)
  {
    hide Text, CellBytes;
  }

  lemma DigitIsPlain(c: char)
    requires DigitValue(c) < 16
    ensures c != ' ' && c != '?' && c != '>' && c != NUL
  {}

  lemma TextForm(form: Form, n: nat)
    ensures var t := Text(form, n); t != [] && ' ' !in t && t[0] != '?' && t[0] != '>' && t[0] != ' '
  {
    var d := Written(n, BaseOf(form));
    hide Written, DigitValue;
    forall i | 0 <= i < |d|
      ensures d[i] != ' ' && d[i] != '?' && d[i] != '>'
    {
      DigitIsPlain(d[i]);
    }
  }

  lemma BlankEnds(s: string, at: nat, form: Form, n: nat)
    requires at <= |s| && (at < |s| ==> s[at] == ' ' || s[at] == '>')
    ensures EndsThere(s, at, form, n)
  {}

  lemma ReadNumber(s: string, x: Numeral)
    requires var t := Text(x.form, x.n); t <= s && (|s| > |t| ==> s[|t|] == ' ' || s[|t|] == '>')
    ensures s != [] && At(s, 0) != '?' && CellLength(s) == |Text(x.form, x.n)| > 0
    ensures CellOctets(s) == Puts(CellBytes(x.n % WORD))
  {
    hide Text, CellBytes, Reading, Advance, EndsThere, Puts;
    TextForm(x.form, x.n);
    BlankEnds(s, |Text(x.form, x.n)|, x.form, x.n);
    ReadsText(s, x.form, x.n);
    assert s[0] == Text(x.form, x.n)[0];
  }

  /** A number before others, wherever the text was split. */
  lemma NumberTaken(x: Numeral, rest: seq<string>, past: char, more: string) returns (next: seq<string>)
    requires rest != [] && CStrings(rest)
    requires Join(rest) == Text(x.form, x.n) + " " + more && more != [] && more[0] != ' '
    ensures next != [] && CStrings(next) && Join(next) == more
    ensures var tail := ParseCells(next, past);
            ParseCells(rest, past) == Parsed(tail.ok, Puts(CellBytes(x.n % WORD)) + tail.data)
  {
    hide Text, CellOctets, CellLength, Join, Puts, ParseCells, CellBytes;
    TextForm(x.form, x.n);
    var k := |Text(x.form, x.n)|;
    AfterToken(rest, Text(x.form, x.n), more);
    ReadNumber(rest[0], x);
    assert rest[0][0] == Text(x.form, x.n)[0];
    CellStep(rest, past);
    var left := Drop(rest, k);
    DropTwice(rest, k, Blanks(left[0]));
    next := Drop(left, Blanks(left[0]));
    if left[0] == "" {
      CellStep(next, past);
      assert next[1..] == left[1..];
      next := left[1..];
    }
  }

  lemma LastNumber(x: Numeral, rest: seq<string>, past: char)
    requires rest != [] && CStrings(rest) && Join(rest) == Text(x.form, x.n) + ">"
    ensures ParseCells(rest, past) == Parsed(true, Puts(CellBytes(x.n % WORD)))
  {
    hide Text, CellOctets, CellLength, Join, Puts, ParseCells, CellBytes;
    TextForm(x.form, x.n);
    var k := |Text(x.form, x.n)|;
    AtEnd(rest, Text(x.form, x.n), '>');
    ReadNumber(rest[0], x);
    assert rest[0][0] == Text(x.form, x.n)[0];
    CellStep(rest, past);
    CellsEnd(Drop(rest, k), past);
  }

  lemma {:induction false} NumbersParse(xs: seq<Numeral>, rest: seq<string>, past: char)
    requires xs != [] && rest != [] && CStrings(rest) && Join(rest) == NumbersText(xs) + ">"
    ensures ParseCells(rest, past) == Parsed(true, Puts(Cells(xs)))
    decreases |xs|
  {
    hide Text, Join, Puts, ParseCells, CellBytes, NumbersText, Cells;
    NumbersStep(xs);
    if |xs| == 1 {
      LastNumber(xs[0], rest, past);
    } else {
      var t, more := Text(xs[0].form, xs[0].n), NumbersText(xs[1..]) + ">";
      NumbersStep(xs[1..]);
      TextForm(xs[1].form, xs[1].n);
      Close(t, NumbersText(xs[1..]), ">");
      var next := NumberTaken(xs[0], rest, past, more);
      NumbersParse(xs[1..], next, past);
      PutsJoined(CellBytes(xs[0].n % WORD), Cells(xs[1..]));
    }
  }

  lemma PutsJoined(a: seq<char>, b: seq<char>)
    ensures Puts(a) + Puts(b) == Puts(a + b)
  {}

  /** "fdt set" with numbers between < and >, each decimal, octal after 0 or hexadecimal after
      0x, split into arguments at any of the spaces, stores these numbers, one cell each. */
  lemma NumbersStored(xs: seq<Numeral>, args: seq<string>, past: char)
    requires xs != [] && args != [] && CStrings(args) && Join(args) == "<" + NumbersText(xs) + ">"
    ensures Parse(args, past) == Parsed(true, Puts(Cells(xs)))
  {
    hide Join, NumbersText, ParseCells, ParseBytes, Puts, Cells;
    assert Join(args) == ['<'] + (NumbersText(xs) + ">");
    Opened(args, '<', NumbersText(xs) + ">");
    NumbersParse(xs, Drop(args, 1), past);
  }

  /** A single cell. */
  lemma NumberStored(x: Numeral, past: char)
    ensures var args := ["<" + Text(x.form, x.n) + ">"];
            CStrings(args) && Parse(args, past) == Parsed(true, Puts(CellBytes(x.n % WORD)))
  {
    hide Puts, ParseCells, ParseBytes, CellBytes, Join, Text;
    NumbersStep([x]);
    var args := ["<" + Text(x.form, x.n) + ">"];
    assert Join(args) == args[0] by {
      OneArgument(args[0]);
    }
    NoNul(x.form, x.n);
    NumbersStored([x], args, past);
  }

  lemma OneArgument(s: string)
    ensures Join([s]) == s
  {}

  lemma NoNul(form: Form, n: nat)
    ensures NUL !in Text(form, n)
  {
    var d := Written(n, BaseOf(form));
    hide Written, DigitValue;
    forall i | 0 <= i < |d|
      ensures d[i] != NUL
    {
      DigitIsPlain(d[i]);
    }
  }

  lemma SmallCell(n: nat)
    requires n < 256
    ensures CellBytes(n % WORD) == [NUL, NUL, NUL, n as char]
  {
    hide BigEndian;
    FourDigits(n);
  }

  lemma Tens()
    ensures Text(Decimal, 10) == "10" && Text(Octal, 8) == "010" && Text(Hexadecimal, 16) == "0x10"
  {
    assert Written(10, 10) == "10" && Written(8, 8) == "10" && Written(16, 16) == "10";
  }

  /** <10>, <010> and <0x10> store ten, eight and sixteen. */
  lemma ThreeForms(past: char)
    ensures Parse(["<10>"], past) == Parsed(true, Puts([NUL, NUL, NUL, 10 as char]))
    ensures Parse(["<010>"], past) == Parsed(true, Puts([NUL, NUL, NUL, 8 as char]))
    ensures Parse(["<0x10>"], past) == Parsed(true, Puts([NUL, NUL, NUL, 16 as char]))
  {
    hide Text, Parse, CellBytes, Puts;
    Tens();
    SmallCell(10);
    SmallCell(8);
    SmallCell(16);
    NumberStored(Numeral(Decimal, 10), past);
    NumberStored(Numeral(Octal, 8), past);
    NumberStored(Numeral(Hexadecimal, 16), past);
    assert "<" + "10" + ">" == "<10>" && "<" + "010" + ">" == "<010>" && "<" + "0x10" + ">" == "<0x10>";
  }
}

/** What starts with a bracket never parses to printable text of its own length. */
module FdtBound {
  import opened Division
  import opened Endian
  import opened Strto
  import opened Arguments
  import opened FdtParse
  import KeyList

  /** The characters of the arguments before the first comma. */
  function Before(args: seq<string>): nat
  {
    if args == [] then 0
    else
      var n := KeyList.Find(args[0], ',');
      if n < |args[0]| then n else n + Before(args[1..])
  }

  lemma BeforeDrop(rest: seq<string>, m: nat)
    requires rest != [] && m <= |rest[0]| && ',' !in rest[0][..m]
    ensures Before(rest) == m + Before(Drop(rest, m))
  {
    KeyList.FindOver(rest[0][..m], rest[0][m..], ',');
    assert rest[0] == rest[0][..m] + rest[0][m..];
    assert Drop(rest, m)[1..] == rest[1..];
  }

  /** No two NULs next to each other. */
  predicate Tight(data: seq<char>)
  {
    forall i :: 0 <= i < |data| - 1 ==> data[i] != NUL || data[i + 1] != NUL
  }

  // ---- cells ------------------------------------------------------------------------------

  lemma {:induction false} NumberBound(digits: string, base: nat)
    requires base <= 16 && AllDigits(digits, base)
    ensures Number(digits, base) < Sixteens(|digits|)
    decreases |digits|
  {
    if digits == [] {
    } else {
      var n := |digits| - 1;
      NumberBound(digits[..n], base);
      Step(Number(digits[..n], base), Sixteens(n), base, DigitValue(digits[n]));
    }
  }

  lemma Step(a: nat, s: nat, base: nat, d: nat)
    requires a < s && d < base <= 16
    ensures a * base + d < 16 * s
  {
    MulOrder(a + 1, s, base);
    assert (a + 1) * base == a * base + base;
    MulOrder(base, 16, s);
    assert s * base == base * s;
  }

  /** A number of at most three characters is below 2^16. */
  lemma ShortNumber(s: string)
    requires Advance(s, 0) <= 3
    ensures Reading(s, 0) < 0x1_0000
  {
    var r := FixupRadix(s, 0);
    var n := Leading(s[r.skip..], r.base);
    var digits := s[r.skip..r.skip + n];
    assert digits == s[r.skip..][..n];
    hide Number, Leading, FixupRadix;
    NumberBound(digits, r.base);
    Thousands(|digits|);
  }

  lemma Thousands(n: nat)
    requires n <= 3
    ensures Sixteens(n) <= 4096
  {
    assert Sixteens(0) == 1 && Sixteens(1) == 16 && Sixteens(2) == 256 && Sixteens(3) == 4096;
  }

  lemma SmallWord(word: nat)
    requires word < 0x1_0000
    ensures CellBytes(word)[0] == NUL && CellBytes(word)[1] == NUL
  {
    hide BigEndian;
    FourDigits(word);
  }

  /** No character of a number is a comma or a blank. */
  lemma NoComma(s: string, base: nat)
    requires base == 0 || 2 <= base <= 16
    ensures ',' !in s[..Advance(s, base)]
  {
    var r := FixupRadix(s, base);
    var n := Advance(s, base);
    forall i | 0 <= i < n
      ensures s[i] != ','
    {
      if i >= r.skip {
        assert s[i] == s[r.skip..][..n - r.skip][i - r.skip];
      }
    }
  }

  lemma {:induction false} NoCommaInBlanks(s: string)
    ensures ',' !in s[..Blanks(s)]
    decreases |s|
  {
    if s == [] || s[0] != ' ' {
    } else {
      NoCommaInBlanks(s[1..]);
      assert s[..Blanks(s)] == [s[0]] + s[1..][..Blanks(s[1..])];
    }
  }

  /** A cell that stands for bytes of tight text takes four characters or more. */
  lemma CellIsLong(s: string, chunk: seq<char>)
    requires s != [] && |chunk| == 4 && CellOctets(s) == Puts(chunk) && (chunk[0] != NUL || chunk[1] != NUL)
    ensures CellLength(s) >= 4 && CellLength(s) == Advance(s, 0)
  {
    hide Advance, Reading, CellBytes;
    assert Puts(chunk)[0] == Put(chunk[0]) && Puts(chunk)[1] == Put(chunk[1]);
    if At(s, 0) != '?' {
      var w := Reading(s, 0) % WORD;
      assert Puts(CellBytes(w))[0] == Put(CellBytes(w)[0]) && Puts(CellBytes(w))[1] == Put(CellBytes(w)[1]);
      if CellLength(s) < 4 {
        ShortNumber(s);
        Below(Reading(s, 0));
        SmallWord(w);
      }
    }
  }

  lemma Below(n: nat)
    requires n < 0x1_0000
    ensures n % WORD < 0x1_0000
  {}

  lemma TightParts(data: seq<char>, n: nat)
    requires Tight(data) && n <= |data|
    ensures Tight(data[n..]) && (|data| >= 2 ==> data[0] != NUL || data[1] != NUL)
  {
    var t := data[n..];
    forall i | 0 <= i < |t| - 1
      ensures t[i] != NUL || t[i + 1] != NUL
    {
      assert data[n + i] != NUL || data[n + i + 1] != NUL;
    }
    assert |data| >= 2 ==> data[0] != NUL || data[0 + 1] != NUL;
  }

  lemma PutsApart(head: seq<Octet>, rest: seq<Octet>, data: seq<char>)
    requires head + rest == Puts(data)
    ensures |head| <= |data| && head == Puts(data[..|head|]) && rest == Puts(data[|head|..])
  {
    var p := Puts(data);
    assert |p| == |head| + |rest|;
    assert p[..|head|] == head && p[|head|..] == rest;
    assert p[..|head|] == Puts(data[..|head|]) && p[|head|..] == Puts(data[|head|..]);
  }

  lemma {:induction false} CellsBound(rest: seq<string>, past: char, data: seq<char>)
    requires CStrings(rest) && ParseCells(rest, past) == Parsed(true, Puts(data)) && Tight(data)
    ensures |data| <= Before(rest)
    decreases |rest|, if rest == [] then 0 else |rest[0]|
  {
    hide CellOctets, CellLength, Tight, Puts, Before, ParseCells, Blanks, Drop, CStrings;
    CellsCases(rest, past);
    if rest == [] || Head(rest, past) == '>' {
      NoOctets(data);
    } else if rest[0] == [] {
      CellsBound(rest[1..], past, data);
      BeforeNext(rest);
    } else {
      var n := CellLength(rest[0]);
      var b := Blanks(rest[0][n..]);
      var next := Drop(rest, n + b);
      CellStep(rest[0], ParseCells(next, past).data, data);
      CellsBound(next, past, data[4..]);
      BeforeDrop(rest, n + b);
    }
  }

  /** The cases of parsing cells to the end. */
  lemma CellsCases(rest: seq<string>, past: char)
    requires CStrings(rest) && ParseCells(rest, past).ok
    ensures rest == [] || Head(rest, past) == '>' ==> ParseCells(rest, past).data == []
    ensures rest != [] && Head(rest, past) != '>' && rest[0] == [] ==>
            CStrings(rest[1..]) && ParseCells(rest, past) == ParseCells(rest[1..], past)
    ensures rest != [] && Head(rest, past) != '>' && rest[0] != [] ==>
            var n := CellLength(rest[0]);
            var next := Drop(rest, n + Blanks(rest[0][n..]));
            && |next| == |rest| && |next[0]| < |rest[0]| && CStrings(next) && ParseCells(next, past).ok
            && ParseCells(rest, past).data == CellOctets(rest[0]) + ParseCells(next, past).data
  {
    hide CellOctets, CellLength;
  }

  /** One cell takes four octets of the value, at least four characters and no comma. */
  lemma CellStep(s: string, tail: seq<Octet>, data: seq<char>)
    requires s != [] && Tight(data) && CellOctets(s) + tail == Puts(data)
    ensures var n := CellLength(s);
            && |data| >= 4 && tail == Puts(data[4..]) && Tight(data[4..])
            && n >= 4 && ',' !in s[..n + Blanks(s[n..])]
  {
    hide CellOctets, CellLength, Tight, Puts, Blanks;
    PutsApart(CellOctets(s), tail, data);
    TightParts(data, 4);
    assert data[..4][0] == data[0] && data[..4][1] == data[1];
    CellIsLong(s, data[..4]);
    var n := CellLength(s);
    Consumed(s, n, Blanks(s[n..]), 0);
  }

  lemma NoOctets(data: seq<char>)
    requires Puts(data) == []
    ensures data == []
  {}

  lemma BeforeNext(rest: seq<string>)
    requires rest != [] && rest[0] == []
    ensures Before(rest) == Before(rest[1..])
  {}

  /** A number and the blanks after it hold no comma. */
  lemma Consumed(s: string, n: nat, b: nat, base: nat)
    requires (base == 0 || 2 <= base <= 16) && n == Advance(s, base) && b == Blanks(s[n..])
    ensures ',' !in s[..n + b]
  {
    hide Advance, Blanks;
    NoComma(s, base);
    NoCommaInBlanks(s[n..]);
    assert s[..n + b] == s[..n] + s[n..][..b];
  }

  // ---- bytes ------------------------------------------------------------------------------

  lemma {:induction false} BytesBound(rest: seq<string>, past: char)
    requires CStrings(rest) && ParseBytes(rest, past).ok
    ensures |ParseBytes(rest, past).data| <= Before(rest)
    decreases |rest|, if rest == [] then 0 else |rest[0]|
  {
    hide Before, ByteOctet, Advance, DigitValue;
    if rest == [] || Head(rest, past) == ']' {
    } else {
      var b := Blanks(rest[0]);
      var here := Drop(rest, b);
      NoCommaInBlanks(rest[0]);
      BeforeDrop(rest, b);
      if here[0] == [] {
        BytesBound(rest[1..], past);
        BeforeNext(here);
        assert here[1..] == rest[1..];
      } else if DigitValue(here[0][0]) >= 16 {
      } else {
        AdvancesOnDigit(here[0]);
        var n := Advance(here[0], 16);
        BytesBound(Drop(here, n), past);
        NoComma(here[0], 16);
        BeforeDrop(here, n);
      }
    }
  }

  /** Arguments that start with a bracket and have no more characters than a tight value do
      not parse to that value. */
  lemma NeverItself(args: seq<string>, past: char, data: seq<char>)
    requires args != [] && CStrings(args) && (At(args[0], 0) == '<' || At(args[0], 0) == '[')
    requires Tight(data) && Before(args) <= |data|
    ensures Parse(args, past) != Parsed(true, Puts(data))
  {
    hide ParseCells, ParseBytes, Before, Tight, Puts;
    assert args[0][..1] == [args[0][0]];
    BeforeDrop(args, 1);
    if Parse(args, past) == Parsed(true, Puts(data)) {
      if At(args[0], 0) == '<' {
        CellsBound(Drop(args, 1), past, data);
      } else {
        BytesBound(Drop(args, 1), past);
      }
    }
  }

  lemma {:induction false} BeforeStrings(strings: seq<string>)
    ensures Before(strings) <= |Terminated(strings)| - |strings|
    decreases |strings|
  {
    if strings == [] {
    } else {
      BeforeStrings(strings[1..]);
    }
  }
}

/** A value printed as strings and typed in again as shown, commas and all. */
module FdtRetype {
  import opened Strto
  import opened Arguments
  import opened FdtParse
  import opened FdtPrint
  import opened FdtBound
  import KeyList

  const QUOTE := '"'

  /** How a command line falls apart: blanks outside quotes separate the arguments and
      the quotes go. `open` says whether a quote is open, `some` whether the argument
      `current` has begun. */
  function Split(text: string, open: bool, current: string, some: bool): seq<string>
  {
    if text == [] then (if some then [current] else [])
    else if text[0] == QUOTE then Split(text[1..], !open, current, true)
    else if text[0] == ' ' && !open then
      (if some then [current] else []) + Split(text[1..], false, "", false)
    else Split(text[1..], open, current + [text[0]], true)
  }

  /** The commas between the quoted strings stay with the strings before them. */
  function WithCommas(strings: seq<string>): (r: seq<string>)
    requires CStrings(strings)
    ensures |r| == |strings| && CStrings(r)
    ensures |strings| > 0 ==> r[0] == strings[0] || r[0] == strings[0] + ","
  {
    if |strings| <= 1 then strings else [strings[0] + ","] + WithCommas(strings[1..])
  }

  lemma {:induction false} QuotedRun(s: string, t: string, current: string)
    requires QUOTE !in s
    ensures Split(s + t, true, current, true) == Split(t, true, current + s, true)
    decreases |s|
  {
    if s == [] {
      assert s + t == t && current + s == current;
    } else {
      assert (s + t)[1..] == s[1..] + t;
      assert current + [s[0]] + s[1..] == current + s;
      QuotedRun(s[1..], t, current + [s[0]]);
    }
  }

  lemma Separated(current: string, rest: string)
    ensures Split(SEPARATOR + rest, true, current, true) == [current + ","] + Split(rest, true, "", true)
  {
    var t := SEPARATOR + rest;
    assert t[0] == QUOTE && t[1] == ',' && t[2] == ' ' && t[3] == QUOTE;
    assert t[1..][1..] == t[2..] && t[2..][1..] == t[3..] && t[3..][1..] == rest;
    assert Split(t[3..], false, "", false) == Split(rest, true, "", true);
    assert Split(t[2..], false, current + ",", true) == [current + ","] + Split(t[3..], false, "", false);
    assert Split(t[1..], false, current, true) == Split(t[2..], false, current + ",", true);
  }

  lemma {:induction false} InQuotes(strings: seq<string>)
    requires strings != [] && CStrings(strings)
    requires forall i :: 0 <= i < |strings| ==> QUOTE !in strings[i]
    ensures Split(StringsText(strings) + [QUOTE], true, "", true) == WithCommas(strings)
    decreases |strings|
  {
    hide Split;
    var s := strings[0];
    if |strings| == 1 {
      QuotedRun(s, [QUOTE], "");
      Closed(s);
      assert "" + s == s;
    } else {
      var rest := StringsText(strings[1..]) + [QUOTE];
      assert StringsText(strings) + [QUOTE] == s + (SEPARATOR + rest);
      QuotedRun(s, SEPARATOR + rest, "");
      assert "" + s == s;
      Separated(s, rest);
      InQuotes(strings[1..]);
    }
  }

  lemma Closed(s: string)
    ensures Split([QUOTE], true, s, true) == [s]
  {}

  /** What the printed text turns into as a command line. */
  lemma Retyped(data: seq<char>, after: char, address: string)
    requires Octets(data) && |data| < WORD && Printable(data, after) && QUOTE !in data
    ensures Split(Shows(data, after, address), false, "", false) == WithCommas(Strings(data))
  {
    hide Split, Strings, StringsText, WithCommas;
    var text := StringsText(Strings(data));
    NoQuotes(data);
    InQuotes(Strings(data));
    assert "\"" + text + "\"" == [QUOTE] + (text + [QUOTE]);
    Begun(text + [QUOTE]);
  }

  lemma Begun(t: string)
    ensures Split([QUOTE] + t, false, "", false) == Split(t, true, "", true)
  {
    assert ([QUOTE] + t)[1..] == t;
  }

  lemma {:induction false} NoQuotes(data: seq<char>)
    requires QUOTE !in data
    ensures forall i :: 0 <= i < |Strings(data)| ==> QUOTE !in Strings(data)[i]
    decreases |data|
  {
    hide StrLen, Next;
    if data == [] {
    } else {
      NoQuotes(data[Next(data)..]);
    }
  }

  /** Each comma makes the value one byte longer. */
  lemma {:induction false} CommasCount(strings: seq<string>)
    requires CStrings(strings) && strings != []
    ensures |Terminated(WithCommas(strings))| == |Terminated(strings)| + |strings| - 1
    decreases |strings|
  {
    if |strings| <= 1 {
    } else {
      assert WithCommas(strings)[1..] == WithCommas(strings[1..]);
      CommasCount(strings[1..]);
    }
  }

  /** The characters before the first comma, without quotes. */
  function Limit(t: string): nat
  {
    if t == [] || t[0] == ',' then 0 else (if t[0] == QUOTE then 0 else 1) + Limit(t[1..])
  }

  lemma {:induction false} LimitConcat(a: string, b: string)
    ensures Limit(a + b) <= |a| + Limit(b)
    decreases |a|
  {
    if a == [] {
      assert a + b == b;
    } else {
      assert (a + b)[1..] == a[1..] + b;
      LimitConcat(a[1..], b);
    }
  }

  /** Splitting adds no character before the first comma. */
  lemma {:induction false} SplitBefore(t: string, open: bool, current: string, some: bool)
    requires !some ==> current == ""
    ensures Before(Split(t, open, current, some))
         <= if ',' in current then KeyList.Find(current, ',') else |current| + Limit(t)
    decreases |t|
  {
    hide Before;
    if t == [] {
      BeforeCons(current, []);
      BeforeNone();
      assert [current] + [] == [current];
    } else if t[0] == QUOTE {
      SplitBefore(t[1..], !open, current, true);
    } else if t[0] == ' ' && !open {
      SplitBefore(t[1..], false, "", false);
      BeforeCons(current, Split(t[1..], false, "", false));
      assert [current] + Split(t[1..], false, "", false) == Split(t, open, current, some) || !some;
      assert [] + Split(t[1..], false, "", false) == Split(t[1..], false, "", false);
    } else {
      SplitBefore(t[1..], open, current + [t[0]], true);
      FindSnoc(current, t[0]);
    }
  }

  lemma BeforeNone()
    ensures Before([]) == 0
  {}

  lemma BeforeCons(s: string, rest: seq<string>)
    ensures Before([s] + rest) == if ',' in s then KeyList.Find(s, ',') else |s| + Before(rest)
  {
    assert ([s] + rest)[1..] == rest;
    if ',' !in s {
      KeyList.FindNone(s, ',');
    } else {
      FindSome(s);
    }
  }

  lemma FindSome(s: string)
    requires ',' in s
    ensures KeyList.Find(s, ',') < |s|
  {
    var n := KeyList.Find(s, ',');
    assert s == s[..n] + s[n..];
  }

  lemma FindKept(s: string, c: char)
    requires ',' in s
    ensures ',' in s + [c] && KeyList.Find(s + [c], ',') == KeyList.Find(s, ',')
  {
    FindSome(s);
    var n := KeyList.Find(s, ',');
    var head, tail := s[..n], s[n..] + [c];
    KeyList.FindOver(head, tail, ',');
    assert tail[0] == ',';
    assert s + [c] == head + tail;
  }

  lemma FindSnoc(s: string, c: char)
    ensures ',' in s ==> ',' in s + [c] && KeyList.Find(s + [c], ',') == KeyList.Find(s, ',')
    ensures ',' !in s && c == ',' ==> KeyList.Find(s + [c], ',') == |s| && ',' in s + [c]
    ensures ',' !in s && c != ',' ==> ',' !in s + [c]
  {
    hide KeyList.Find;
    if ',' in s {
      FindKept(s, c);
    } else if c == ',' {
      KeyList.FindAt(s, ',', []);
      assert s + [','] + [] == s + [c];
    }
  }

  lemma {:induction false} SplitForm(t: string, open: bool, current: string, some: bool)
    requires QUOTE !in current && CString(current) && CString(t)
    ensures var args := Split(t, open, current, some);
            && (some ==> args != []) && CStrings(args) && forall i :: 0 <= i < |args| ==> QUOTE !in args[i]
    decreases |t|
  {
    if t == [] {
    } else if t[0] == QUOTE {
      SplitForm(t[1..], !open, current, true);
    } else if t[0] == ' ' && !open {
      SplitForm(t[1..], false, "", false);
    } else {
      SplitForm(t[1..], open, current + [t[0]], true);
    }
  }

  lemma {:induction false} TerminatedWithout(strings: seq<string>)
    requires forall i :: 0 <= i < |strings| ==> QUOTE !in strings[i]
    ensures QUOTE !in Terminated(strings)
    decreases |strings|
  {
    if strings == [] {
    } else {
      TerminatedWithout(strings[1..]);
    }
  }

  lemma {:induction false} TextIsCString(strings: seq<string>)
    requires CStrings(strings)
    ensures CString(StringsText(strings))
    decreases |strings|
  {
    if |strings| <= 1 {
    } else {
      TextIsCString(strings[1..]);
    }
  }

  /** The command line made of a printed value: its arguments, and how far the first comma is. */
  lemma Typed(data: seq<char>, after: char, address: string)
    requires Octets(data) && |data| < WORD && Printable(data, after)
    ensures var args := Split(Shows(data, after, address), false, "", false);
            && args != [] && CStrings(args) && (forall i :: 0 <= i < |args| ==> QUOTE !in args[i])
            && Before(args) <= |data|
  {
    assert data != [];
    hide Split, Strings, StringsText, Before, Limit, StrLen;
    var strings := Strings(data);
    var text := StringsText(strings);
    assert "\"" + text + "\"" == [QUOTE] + (text + [QUOTE]);
    Begun(text + [QUOTE]);
    TextIsCString(strings);
    SplitForm(text + [QUOTE], true, "", true);
    SplitBefore(text + [QUOTE], true, "", true);
    FirstLimit(strings);
    FirstStringFits(data);
  }

  lemma FirstStringFits(data: seq<char>)
    requires data != []
    ensures |Strings(data)[0]| <= |data|
  {
    hide StrLen;
  }

  /** The first comma comes at the latest after the first string. */
  lemma FirstLimit(strings: seq<string>)
    requires strings != []
    ensures Limit(StringsText(strings) + [QUOTE]) <= |strings[0]|
  {
    var s := strings[0];
    var rest := if |strings| == 1 then [QUOTE] else SEPARATOR + (StringsText(strings[1..]) + [QUOTE]);
    assert StringsText(strings) + [QUOTE] == s + rest;
    LimitConcat(s, rest);
    assert rest[0] == QUOTE && (|strings| > 1 ==> rest[1..][0] == ',');
    assert |strings| == 1 ==> rest[1..] == [];
  }

  lemma PrintableIsTight(data: seq<char>, after: char)
    requires Printable(data, after)
    ensures Tight(data)
  {}

  /** The printed strings typed in as shown come back unchanged if and only if there is one
      string, it ends in NUL, holds no quote and does not start with a bracket.  Otherwise
      commas become part of the value, quotes are lost, or numbers are read. */
  lemma RetypedReturns(data: seq<char>, after: char, address: string, past: char)
    requires Octets(data) && |data| < WORD && Printable(data, after)
    ensures var args := Split(Shows(data, after, address), false, "", false);
            && args != [] && CStrings(args)
            && (Parse(args, past) == Parsed(true, Puts(data)) <==>
                |Strings(data)| == 1 && data[|data| - 1] == NUL && QUOTE !in data && data[0] != '<' && data[0] != '[')
  {
    assert data != [];
    hide Split, Strings, Shows, Printable, Parse, Tight, Before, WithCommas;
    var args := Split(Shows(data, after, address), false, "", false);
    Typed(data, after, address);
    PrintableIsTight(data, after);
    if At(args[0], 0) == '<' || At(args[0], 0) == '[' {
      NeverItself(args, past, data);
      if QUOTE !in data {
        Retyped(data, after, address);
        FirstTyped(data);
      }
    } else {
      TypedStrings(data, after, address, past);
    }
  }

  /** Without quotes the first character typed is the first of the value. */
  lemma FirstTyped(data: seq<char>)
    requires data != []
    ensures var c := At(WithCommas(Strings(data))[0], 0); c == data[0] || (c == ',' && data[0] == NUL)
  {
    hide Strings;
    FirstCharacter(data);
  }

  lemma TypedStrings(data: seq<char>, after: char, address: string, past: char)
    requires Octets(data) && |data| < WORD && Printable(data, after)
    requires var args := Split(Shows(data, after, address), false, "", false);
             && args != [] && CStrings(args) && (forall i :: 0 <= i < |args| ==> QUOTE !in args[i])
             && At(args[0], 0) != '<' && At(args[0], 0) != '['
    ensures Parse(Split(Shows(data, after, address), false, "", false), past) == Parsed(true, Puts(data)) <==>
            |Strings(data)| == 1 && data[|data| - 1] == NUL && QUOTE !in data && data[0] != '<' && data[0] != '['
  {
    assert data != [];
    hide Split, Strings, Shows, Terminated, Printable;
    var args, strings := Split(Shows(data, after, address), false, "", false), Strings(data);
    assert Parse(args, past) == Parsed(true, Puts(Terminated(args)));
    SamePuts(Terminated(args), data);
    if QUOTE in data {
      TerminatedWithout(args);
    } else {
      Retyped(data, after, address);
      FirstTyped(data);
      CommasCount(strings);
      StringsTerminated(data);
      if |strings| == 1 && data[|data| - 1] == NUL {
        assert data + [] == data;
      } else {
        assert |Terminated(WithCommas(strings))| > |data|;
      }
    }
  }

  lemma SamePuts(a: seq<char>, b: seq<char>)
    ensures Puts(a) == Puts(b) <==> a == b
  {
    if Puts(a) == Puts(b) {
      forall i | 0 <= i < |a| ensures a[i] == b[i] {
        assert Puts(a)[i] == Puts(b)[i];
      }
    }
  }

  /** The printed strings given back as arguments, one each: exactly the values that end in
      NUL and do not start with a bracket come back unchanged. */
  lemma StringsReturn(data: seq<char>, after: char, past: char)
    requires Printable(data, after)
    ensures Parse(Strings(data), past) == Parsed(true, Puts(data)) <==>
            data[|data| - 1] == NUL && data[0] != '<' && data[0] != '['
  {
    assert data != [];
    hide Strings, Printable, Parse, Tight, Before, Terminated, Missing;
    FirstCharacter(data);
    if data[0] == '<' || data[0] == '[' {
      PrintableIsTight(data, after);
      BeforeStrings(Strings(data));
      StringsTerminated(data);
      AtMostOne(data);
      NeverItself(Strings(data), past, data);
    } else {
      StringsKept(data, past);
    }
  }

  lemma AtMostOne(data: seq<char>)
    ensures |Missing(data)| <= 1
  {}

  /** Two one-letter strings do not survive being retyped. */
  lemma TwoStringsLost(after: char, address: string, past: char)
    ensures var data := ['a', NUL, 'b', NUL];
            var args := Split(Shows(data, after, address), false, "", false);
            && args != [] && CStrings(args)
            && Parse(args, past) != Parsed(true, Puts(data))
  {
    hide Split, Shows, Parse;
    var data := ['a', NUL, 'b', NUL];
    TwoStrings(data);
    RetypedReturns(data, after, address, past);
  }

  /** Neither does a string with a quote in it. */
  lemma QuoteLost(after: char, address: string, past: char)
    ensures var data := ['a', QUOTE, NUL];
            var args := Split(Shows(data, after, address), false, "", false);
            && args != [] && CStrings(args)
            && Parse(args, past) != Parsed(true, Puts(data))
  {
    hide Split, Shows, Parse, Strings;
    var data := ['a', QUOTE, NUL];
    assert data[1] == QUOTE;
    RetypedReturns(data, after, address, past);
  }

  lemma TwoStrings(data: seq<char>)
    requires data == ['a', NUL, 'b', NUL]
    ensures |Strings(data)| > 1
  {
    assert StrLen(data) == 1 by {
      assert data[1..][0] == NUL;
    }
    assert Next(data) == 2 && data[2..] != [];
  }
}
