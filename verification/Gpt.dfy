/** strsep and the key=value lists of cmd/gpt.c. */
module KeyList {
  import opened Options

  /** The index of the first `c` in `s`, or the length of `s`. */
  function Find(s: string, c: char): (n: nat)
    ensures n <= |s| && c !in s[..n] && (n < |s| ==> s[n] == c)
  {
    if s == [] || s[0] == c then 0 else 1 + Find(s[1..], c)
  }

  /** strsep: the token before the first delimiter, and what is left after it. */
  function Token(s: string, c: char): string
  {
    s[..Find(s, c)]
  }

  function After(s: string, c: char): (rest: Option<string>)
    ensures rest.Some? ==> |rest.value| < |s|
  {
    if Find(s, c) < |s| then Some(s[Find(s, c) + 1..]) else None
  }

  /** All the tokens repeated calls of strsep yield. */
  function Fields(s: string, c: char): (fields: seq<string>)
    ensures fields != []
    decreases |s|
  {
    match After(s, c)
    case None => [s]
    case Some(rest) => [Token(s, c)] + Fields(rest, c)
  }

  function Pending(rest: Option<string>, c: char): seq<string>
  {
    match rest case None => [] case Some(s) => Fields(s, c)
  }

  /** The value of the first field whose text before = is the key; none if that field
      has no =. */
  function Value(fields: seq<string>, key: string): Option<string>
  {
    if fields == [] then None
    else if Token(fields[0], '=') == key then After(fields[0], '=')
    else Value(fields[1..], key)
  }

  lemma FieldsStep(s: string, c: char)
    ensures Fields(s, c) == [Token(s, c)] + Pending(After(s, c), c)
  {
    if After(s, c).None? {
      assert Token(s, c) == s;
    }
  }

  method ExtractVal(str: string, key: string) returns (r: Option<string>)
    ensures r == Value(Fields(str, ','), key)
  {
    hide Token, After, Fields;
    var s := Some(str);
    while s.Some?
      invariant Value(Fields(str, ','), key) == Value(Pending(s, ','), key)
      decreases match s case None => 0 case Some(t) => 1 + |t|
    {
      FieldsStep(s.value, ',');
      var v := Token(s.value, ',');
      s := After(s.value, ',');
      if Token(v, '=') == key {
        return After(v, '=');
      }
      assert ([v] + Pending(s, ','))[1..] == Pending(s, ',');
    }
    return None;
  }

  method FoundKey(str: string, key: string) returns (result: bool)
    ensures result == (key in Fields(str, ','))
  {
    hide Token, After, Fields;
    var s := Some(str);
    while s.Some?
      invariant key in Fields(str, ',') <==> key in Pending(s, ',')
      decreases match s case None => 0 case Some(t) => 1 + |t|
    {
      FieldsStep(s.value, ',');
      var k := Token(s.value, ',');
      s := After(s.value, ',');
      if k == key {
        return true;
      }
    }
    return false;
  }

  function Joined(fields: seq<string>, c: char): string
  {
    if fields == [] then "" else if |fields| == 1 then fields[0] else fields[0] + [c] + Joined(fields[1..], c)
  }

  predicate Without(fields: seq<string>, c: char)
  {
    forall i :: 0 <= i < |fields| ==> c !in fields[i]
  }

  lemma {:induction false} FindAt(a: string, c: char, b: string)
    requires c !in a
    ensures Find(a + [c] + b, c) == |a|
    decreases |a|
  {
    if a == [] {
    } else {
      assert (a + [c] + b)[1..] == a[1..] + [c] + b;
      FindAt(a[1..], c, b);
    }
  }

  lemma {:induction false} FindNone(a: string, c: char)
    requires c !in a
    ensures Find(a, c) == |a|
    decreases |a|
  {
    if a == [] {
    } else {
      FindNone(a[1..], c);
    }
  }

  lemma {:induction false} FindOver(a: string, rest: string, c: char)
    requires c !in a
    ensures Find(a + rest, c) == |a| + Find(rest, c)
    decreases |a|
  {
    if a == [] {
      assert a + rest == rest;
    } else {
      assert (a + rest)[1..] == a[1..] + rest;
      FindOver(a[1..], rest, c);
    }
  }

  lemma TokenAt(a: string, c: char, b: string)
    requires c !in a
    ensures Token(a + [c] + b, c) == a && After(a + [c] + b, c) == Some(b)
  {
    FindAt(a, c, b);
    var s := a + [c] + b;
    assert s[..|a|] == a && s[|a| + 1..] == b;
  }

  lemma NoneLeft(a: string, c: char)
    requires c !in a
    ensures Token(a, c) == a && After(a, c) == None
  {
    FindNone(a, c);
  }

  /** Fields without the delimiter, joined by it, come apart again. */
  lemma {:induction false} FieldsOfJoined(fields: seq<string>, c: char)
    requires fields != [] && Without(fields, c)
    ensures Fields(Joined(fields, c), c) == fields
    decreases |fields|
  {
    hide Token, After;
    if |fields| == 1 {
      NoneLeft(fields[0], c);
    } else {
      TokenAt(fields[0], c, Joined(fields[1..], c));
      FieldsOfJoined(fields[1..], c);
    }
  }

  function Count(s: string, c: char): nat
  {
    if s == [] then 0 else (if s[|s| - 1] == c then 1 else 0) + Count(s[..|s| - 1], c)
  }

  lemma {:induction false} CountConcat(a: string, b: string, c: char)
    ensures Count(a + b, c) == Count(a, c) + Count(b, c)
    decreases |b|
  {
    if b == [] {
      assert a + b == a;
    } else {
      assert (a + b)[..|a + b| - 1] == a + b[..|b| - 1];
      CountConcat(a, b[..|b| - 1], c);
    }
  }

  lemma {:induction false} CountNone(s: string, c: char)
    requires c !in s
    ensures Count(s, c) == 0
  {
    if s == [] {
    } else {
      CountNone(s[..|s| - 1], c);
    }
  }

  lemma CountOne(c: char, d: char)
    ensures Count([d], c) == if c == d then 1 else 0
  {
    assert [d][..0] == [];
  }

  lemma CountSplit(s: string, n: nat, c: char)
    requires n < |s| && s[n] == c && c !in s[..n]
    ensures Count(s, c) == 1 + Count(s[n + 1..], c)
  {
    hide Count;
    var rest := s[n + 1..];
    assert s == s[..n] + ([c] + rest);
    CountConcat(s[..n], [c] + rest, c);
    CountConcat([c], rest, c);
    CountNone(s[..n], c);
    CountOne(c, c);
  }

  /** There is one field more than there are delimiters. */
  lemma {:induction false} FieldsCount(s: string, c: char)
    ensures |Fields(s, c)| == Count(s, c) + 1
    decreases |s|
  {
    hide Count, Find;
    var n := Find(s, c);
    if n < |s| {
      CountSplit(s, n, c);
      FieldsCount(s[n + 1..], c);
    } else {
      assert s[..n] == s;
      CountNone(s, c);
    }
  }
}

/** The partition list of cmd/gpt.c: printed, parsed and its names swapped. Built without
    random ids and type ids. */
module Gpt {
  import opened Division
  import opened KeyList
  import opened Options
  import opened Strto

  const PART_NAME_LEN := 32
  const UUID_STR_LEN := 36
  const WIDE := 0x1_0000_0000_0000_0000

  /** A block number is four or eight bytes wide, as the build is configured. */
  datatype Width = Lba32 | Lba64

  function LbaBytes(w: Width): nat
  {
    if w == Lba32 then 4 else 8
  }

  function LbaLimit(w: Width): (n: nat)
    ensures n > 0
  {
    if w == Lba32 then 0x1_0000_0000 else WIDE
  }

  /** A disk: the bytes of a block, and the width of block numbers. */
  datatype Disk = Disk(blksz: nat, lba: Width)

  const MAX_SEARCH_PARTITIONS := 64

  /** calc_parts_list_len */
  function CalcPartsListLen(n: nat, w: Width): nat
  {
    UUID_STR_LEN + 1 + |"uuid_disk="| + 1
    + n * (|"name=,"| + PART_NAME_LEN + 1)
    + n * (|"start=MiB,"| + LbaBytes(w) + 1)
    + n * (|"size=MiB,"| + LbaBytes(w) + 1)
    + n * (|"uuid=;"| + UUID_STR_LEN + 1)
    + 1
  }

  /** The longest list that is searched for its final semicolon. */
  function MaxList(w: Width): (n: nat)
    ensures n == if w == Lba32 then 7153 else 7665
  {
    CalcPartsListLen(MAX_SEARCH_PARTITIONS, w)
  }

  const EINVAL := -22

  datatype Partition = Partition(start: nat, size: nat, blksz: nat, name: string, uuid: string, bootable: bool)

  // ---- printing ---------------------------------------------------------------------------

  function Prefix(s: string, n: nat): string
  {
    if |s| <= n then s else s[..n]
  }

  function Bytes(blocks: nat, blksz: nat): nat
  {
    blocks * blksz % WIDE
  }

  function PartFields(p: Partition): seq<string>
  {
    ["name=" + Prefix(p.name, PART_NAME_LEN + 1),
     "start=0x" + Hex(Bytes(p.start, p.blksz)),
     "size=0x" + Hex(Bytes(p.size, p.blksz)),
     "uuid=" + Prefix(p.uuid, UUID_STR_LEN + 1)]
  }

  function PartText(p: Partition): string
  {
    Joined(PartFields(p), ',')
  }

  function PartsText(parts: seq<Partition>): string
  {
    if parts == [] then "" else PartText(parts[0]) + ";" + PartsText(parts[1..])
  }

  function ListText(guid: string, parts: seq<Partition>): string
  {
    "uuid_disk=" + Prefix(guid, UUID_STR_LEN + 1) + ";" + PartsText(parts)
  }

  lemma FourFields(a: string, b: string, c: string, d: string)
    ensures Joined([a, b, c, d], ',') == a + ("," + b) + ("," + c) + ("," + d)
  {
    var f := [a, b, c, d];
    assert f[1..] == [b, c, d] && f[1..][1..] == [c, d] && f[1..][1..][1..] == [d];
    assert Joined([d], ',') == d;
    assert Joined([c, d], ',') == c + "," + d;
    assert Joined([b, c, d], ',') == b + "," + (c + "," + d);
  }

  /** One entry appended piece by piece, as the source appends it. */
  method AppendPart(list: string, p: Partition) returns (r: string)
    ensures r == list + (PartText(p) + ";")
  {
    hide Hex, Bytes, Prefix, Joined;
    var name, start := Prefix(p.name, PART_NAME_LEN + 1), Hex(Bytes(p.start, p.blksz));
    var size, uuid := Hex(Bytes(p.size, p.blksz)), Prefix(p.uuid, UUID_STR_LEN + 1);
    r := list + "name=";
    r := r + name;
    r := r + (",start=0x" + start);
    r := r + (",size=0x" + size);
    r := r + ",uuid=";
    r := r + uuid;
    r := r + ";";
    FourFields("name=" + name, "start=0x" + start, "size=0x" + size, "uuid=" + uuid);
    Appended(list, name, start, size, uuid);
  }

  lemma Appended(list: string, name: string, start: string, size: string, uuid: string)
    ensures list + "name=" + name + (",start=0x" + start) + (",size=0x" + size) + ",uuid=" + uuid + ";"
         == list + (("name=" + name) + ("," + ("start=0x" + start)) + ("," + ("size=0x" + size)) + ("," + ("uuid=" + uuid)) + ";")
  {}

  /** create_gpt_partitions_list over the entries of the disk's list, in order. */
  method CreateGptPartitionsList(guid: string, parts: array<Partition>) returns (list: string)
    ensures list == ListText(guid, parts[..])
  {
    hide PartText, PartsText;
    list := "uuid_disk=";
    list := list + Prefix(guid, UUID_STR_LEN + 1);
    list := list + ";";
    assert parts[0..] == parts[..];
    var i := 0;
    while i < parts.Length
      invariant 0 <= i <= parts.Length
      invariant ListText(guid, parts[..]) == list + PartsText(parts[i..])
    {
      PartsStep(parts[i..]);
      assert parts[i..][1..] == parts[i + 1..];
      ghost var rest := PartsText(parts[i + 1..]);
      assert list + (PartText(parts[i]) + ";" + rest) == (list + (PartText(parts[i]) + ";")) + rest;
      list := AppendPart(list, parts[i]);
      i := i + 1;
    }
    PartsNone(parts[i..]);
  }

  lemma PartsStep(parts: seq<Partition>)
    requires parts != []
    ensures PartsText(parts) == PartText(parts[0]) + ";" + PartsText(parts[1..])
  {}

  lemma PartsNone(parts: seq<Partition>)
    requires parts == []
    ensures PartsText(parts) == ""
  {}

  // ---- parsing ----------------------------------------------------------------------------

  datatype Result = Ok(guid: string, count: nat, parts: seq<Partition>) | Error(code: int)

  type Environment = map<string, string>

  /** extract_env: whether the text is ${...} and its name is set. */
  predicate IsVariable(s: string, env: Environment)
  {
    |s| >= 4 && s[..2] == "${" && s[|s| - 1] == '}' && s[2..|s| - 1] in env
  }

  function Expand(s: string, env: Environment): string
  {
    if IsVariable(s, env) then env[s[2..|s| - 1]] else s
  }

  /** A size or offset text in blocks. */
  function Blocks(s: string, d: Disk): nat
    requires d.blksz > 0
  {
    Reading(s, 0) * Unit(At(s, Advance(s, 0))) % WIDE / d.blksz % LbaLimit(d.lba)
  }

  function SizeOf(s: string, d: Disk): nat
    requires d.blksz > 0
  {
    if s == "-" then 0 else Blocks(s, d)
  }

  function ParsePart(tok: string, d: Disk, env: Environment): Option<Partition>
    requires d.blksz > 0
  {
    var f := Fields(tok, ',');
    var uuid, name, size, start := Value(f, "uuid"), Value(f, "name"), Value(f, "size"), Value(f, "start");
    if uuid.None? || |Expand(uuid.value, env)| >= UUID_STR_LEN + 1 then None
    else if name.None? || |Expand(name.value, env)| >= PART_NAME_LEN then None
    else if size.None? then None
    else Some(Partition(
      if start.None? then 0 else Blocks(Expand(start.value, env), d),
      SizeOf(Expand(size.value, env), d),
      0, Expand(name.value, env), Expand(uuid.value, env), "bootable" in f))
  }

  function Prepend<T>(done: seq<T>, rest: Option<seq<T>>): Option<seq<T>>
  {
    match rest case None => None case Some(r) => Some(done + r)
  }

  function ParseParts(toks: seq<string>, d: Disk, env: Environment): (r: Option<seq<Partition>>)
    requires d.blksz > 0
    ensures r.Some? ==> |r.value| == |toks|
  {
    if toks == [] then Some([])
    else
      var p := ParsePart(toks[0], d, env);
      if p.None? then None else Prepend([p.value], ParseParts(toks[1..], d, env))
  }

  /** The list without the semicolon that ends it, looked for within the limit. */
  function Trim(s: string, w: Width): (t: string)
    requires s != ""
  {
    var max := MaxList(w);
    var i := (if |s| < max then |s| else max) - 1;
    if s[i] == ';' then s[..i] else s
  }

  function SetInfo(text: string, d: Disk, env: Environment): Result
    requires d.blksz > 0
  {
    var disk := Value(Fields(text, ','), "uuid_disk");
    if disk.None? then Error(-2)
    else
      var s := After(text, ';');
      if s.None? then Error(EINVAL)
      else if s.value == "" then Error(-3)
      else
        var parts := ParseParts(Fields(Trim(s.value, d.lba), ';'), d, env);
        if parts.None? then Error(-4)
        else Ok(Expand(Token(disk.value, ';'), env), |parts.value| % 256, parts.value)
  }

  /** The fields of one partition. */
  method ParseToken(tok: string, d: Disk, env: Environment) returns (p: Option<Partition>)
    requires d.blksz > 0
    ensures p == ParsePart(tok, d, env)
  {
    hide Fields, Value, Reading, Advance, Unit, IsVariable, LbaLimit;
    var uuid := ExtractVal(tok, "uuid");
    if uuid.None? || |Expand(uuid.value, env)| >= UUID_STR_LEN + 1 {
      return None;
    }
    var name := ExtractVal(tok, "name");
    if name.None? || |Expand(name.value, env)| >= PART_NAME_LEN {
      return None;
    }
    var size := ExtractVal(tok, "size");
    if size.None? {
      return None;
    }
    var sizeText := Expand(size.value, env);
    var blocks := 0;
    if sizeText != "-" {
      var bytes, end := Ustrtoull(sizeText, WIDE);
      blocks := bytes / d.blksz % LbaLimit(d.lba);
    }
    var first := 0;
    var start := ExtractVal(tok, "start");
    if start.Some? {
      var bytes, end := Ustrtoull(Expand(start.value, env), WIDE);
      first := bytes / d.blksz % LbaLimit(d.lba);
    }
    var bootable := FoundKey(tok, "bootable");
    return Some(Partition(first, blocks, 0, Expand(name.value, env), Expand(uuid.value, env), bootable));
  }

  method CountParts(s: string) returns (count: nat)
    ensures count == |Fields(s, ';')|
  {
    hide Fields;
    count := 1;
    var i := 0;
    while i < |s|
      invariant 0 <= i <= |s|
      invariant count == 1 + Count(s[..i], ';')
    {
      assert s[..i + 1][..i] == s[..i];
      if s[i] == ';' {
        count := count + 1;
      }
      i := i + 1;
    }
    assert s[..i] == s;
    FieldsCount(s, ';');
  }

  lemma PartsParsed(toks: seq<string>, d: Disk, env: Environment, done: seq<Partition>)
    requires d.blksz > 0 && toks != []
    ensures var p := ParsePart(toks[0], d, env);
            && (p.None? ==> ParseParts(toks, d, env).None?)
            && (p.Some? ==> Prepend(done, ParseParts(toks, d, env)) == Prepend(done + [p.value], ParseParts(toks[1..], d, env)))
  {
    hide ParsePart;
    var p := ParsePart(toks[0], d, env);
    var rest := ParseParts(toks[1..], d, env);
    if p.Some? && rest.Some? {
      assert done + ([p.value] + rest.value) == done + [p.value] + rest.value;
    }
  }

  /** The loop that fills the array of partitions. */
  method FillParts(list: string, d: Disk, env: Environment) returns (r: Option<seq<Partition>>)
    requires d.blksz > 0
    ensures r == ParseParts(Fields(list, ';'), d, env)
  {
    hide ParseParts, ParsePart, Fields, Token, After;
    var count := CountParts(list);
    var parts := new Partition[count](_ => Partition(0, 0, 0, "", "", false));
    ghost var goal := ParseParts(Fields(list, ';'), d, env);
    var s, i := Some(list), 0;
    PrependNothing(goal);
    while i < count
      invariant 0 <= i <= count && |Pending(s, ';')| == count - i
      invariant goal == Prepend(parts[..i], ParseParts(Pending(s, ';'), d, env))
    {
      if s.None? {
        break;
      }
      FieldsStep(s.value, ';');
      var tok, rest := Token(s.value, ';'), After(s.value, ';');
      PartsParsed(Pending(s, ';'), d, env, parts[..i]);
      assert ([tok] + Pending(rest, ';'))[1..] == Pending(rest, ';');
      var p := ParseToken(tok, d, env);
      if p.None? {
        return None;
      }
      ghost var done := parts[..i];
      parts[i] := p.value;
      assert parts[..i + 1] == done + [p.value];
      s := rest;
      i := i + 1;
    }
    NoMoreParts(d, env);
    assert parts[..i] + [] == parts[..];
    return Some(parts[..]);
  }

  lemma PrependNothing(rest: Option<seq<Partition>>)
    ensures Prepend([], rest) == rest
  {
    if rest.Some? {
      assert [] + rest.value == rest.value;
    }
  }

  lemma NoMoreParts(d: Disk, env: Environment)
    requires d.blksz > 0
    ensures ParseParts([], d, env) == Some([])
  {}

  method SetGptInfo(text: string, d: Disk, env: Environment) returns (r: Result)
    requires d.blksz > 0
    ensures r == SetInfo(text, d, env)
  {
    hide ParseParts, Fields, Value;
    var disk := ExtractVal(text, "uuid_disk");
    if disk.None? {
      return Error(-2);
    }
    var guid := Expand(Token(disk.value, ';'), env);
    var s := After(text, ';');
    if s.None? {
      return Error(EINVAL);
    }
    if |s.value| == 0 {
      return Error(-3);
    }
    var parts := FillParts(Trim(s.value, d.lba), d, env);
    if parts.None? {
      return Error(-4);
    }
    return Ok(guid, |parts.value| % 256, parts.value);
  }

  // ---- round trip -------------------------------------------------------------------------

  predicate Literal(s: string, env: Environment)
  {
    ',' !in s && ';' !in s && !IsVariable(s, env)
  }

  /** An entry of this disk whose texts mean themselves and whose byte offsets fit 64 bits. */
  predicate Listable(p: Partition, d: Disk, env: Environment)
  {
    && p.blksz == d.blksz && p.start * d.blksz < WIDE && p.size * d.blksz < WIDE
    && p.start < LbaLimit(d.lba) && p.size < LbaLimit(d.lba)
    && |p.name| < PART_NAME_LEN && Literal(p.name, env)
    && |p.uuid| <= UUID_STR_LEN && Literal(p.uuid, env)
  }

  predicate AllListable(parts: seq<Partition>, d: Disk, env: Environment)
  {
    forall i :: 0 <= i < |parts| ==> Listable(parts[i], d, env)
  }

  /** What the list keeps of an entry: everything but the block size and the boot flag. */
  function Kept(p: Partition): Partition
  {
    p.(blksz := 0, bootable := false)
  }

  function AllKept(parts: seq<Partition>): (r: seq<Partition>)
    ensures |r| == |parts|
  {
    seq(|parts|, i requires 0 <= i < |parts| => Kept(parts[i]))
  }

  lemma KeyValue(key: string, v: string)
    requires '=' !in key
    ensures Token(key + "=" + v, '=') == key && After(key + "=" + v, '=') == Some(v)
  {
    TokenAt(key, '=', v);
  }

  lemma KeysApart()
    ensures "name" != "uuid" && "name" != "size" && "name" != "start" && "start" != "uuid" && "start" != "size" &&
            "size" != "uuid"
    ensures '=' !in "name" && '=' !in "start" && '=' !in "size" && '=' !in "uuid" && '=' !in "uuid_disk"
  {
    assert "name"[0] != "uuid"[0] && "name"[0] != "size"[0] && "size"[0] != "uuid"[0];
    assert |"start"| != |"name"| == |"uuid"| == |"size"|;
  }

  lemma Skipped(fields: seq<string>, key: string, other: string, v: string, rest: seq<string>)
    requires fields == [other + "=" + v] + rest && '=' !in other && key != other
    ensures Value(fields, key) == Value(rest, key)
  {
    KeyValue(other, v);
  }

  lemma Taken(fields: seq<string>, key: string, v: string, rest: seq<string>)
    requires fields == [key + "=" + v] + rest && '=' !in key
    ensures Value(fields, key) == Some(v)
  {
    KeyValue(key, v);
  }

  lemma FourValues(n: string, s: string, z: string, u: string)
    ensures var f := ["name=" + n, "start=" + s, "size=" + z, "uuid=" + u];
            && Value(f, "name") == Some(n) && Value(f, "start") == Some(s)
            && Value(f, "size") == Some(z) && Value(f, "uuid") == Some(u)
  {
    hide Value;
    KeysApart();
    var f3 := ["uuid=" + u];
    var f2 := ["size=" + z] + f3;
    var f1 := ["start=" + s] + f2;
    var f := ["name=" + n] + f1;
    assert f == ["name=" + n, "start=" + s, "size=" + z, "uuid=" + u];
    assert "name=" == "name" + "=" && "start=" == "start" + "=" && "size=" == "size" + "=" && "uuid=" == "uuid" + "=";
    assert f3 == ["uuid=" + u] + [];
    Taken(f, "name", n, f1);
    Skipped(f, "start", "name", n, f1);
    Taken(f1, "start", s, f2);
    Skipped(f, "size", "name", n, f1);
    Skipped(f1, "size", "start", s, f2);
    Taken(f2, "size", z, f3);
    Skipped(f, "uuid", "name", n, f1);
    Skipped(f1, "uuid", "start", s, f2);
    Skipped(f2, "uuid", "size", z, f3);
    Taken(f3, "uuid", u, []);
  }

  lemma HexIsLiteral(n: nat, env: Environment)
    ensures var t := "0x" + Hex(n); Literal(t, env) && t != "-"
  {
    hide Hex, Number;
    var t := "0x" + Hex(n);
    assert t[0] == '0';
    forall i | 0 <= i < |t|
      ensures t[i] != ',' && t[i] != ';'
    {
      if i >= 2 {
        assert t[i] == Hex(n)[i - 2];
      }
    }
  }

  /** A byte offset printed in hexadecimal is read back as the same number of blocks. */
  lemma BlocksRoundTrip(blocks: nat, d: Disk)
    requires d.blksz > 0 && blocks * d.blksz < WIDE && blocks < LbaLimit(d.lba)
    ensures Blocks("0x" + Hex(Bytes(blocks, d.blksz)), d) == blocks
  {
    hide Hex, Reading, Advance, Unit, At;
    var n := blocks * d.blksz;
    HexRead(n);
    Fits(n);
    Quotient(n, blocks, d.blksz);
  }

  lemma Fits(n: nat)
    requires n < WIDE
    ensures n % WIDE == n
  {}

  lemma HexRead(n: nat)
    ensures var t := "0x" + Hex(n); Reading(t, 0) * Unit(At(t, Advance(t, 0))) == n
  {
    hide Hex, Number, Reading, Advance, DigitValue;
    var t := "0x" + Hex(n);
    assert t[..2] == "0x" && t[2..] == Hex(n);
    ReadsPrefixed(t, Hex(n));
  }

  lemma Quotient(n: nat, q: nat, d: nat)
    requires d > 0 && n == q * d
    ensures n / d == q
  {
    ModUnique(n, d, q, 0);
    var k := n / d;
    assert n == k * d;
    MulOrder(k + 1, q, d);
    MulOrder(q + 1, k, d);
    assert (k + 1) * d == k * d + d && (q + 1) * d == q * d + d;
  }

  lemma PlainFields(p: Partition, d: Disk, env: Environment)
    requires Listable(p, d, env)
    ensures PartFields(p)
         == ["name=" + p.name, "start=" + ("0x" + Hex(Bytes(p.start, d.blksz))),
             "size=" + ("0x" + Hex(Bytes(p.size, d.blksz))), "uuid=" + p.uuid]
    ensures Without(PartFields(p), ',') && Without(PartFields(p), ';')
    ensures "bootable" !in PartFields(p)
  {
    hide Hex, Bytes, IsVariable;
    var s, z := "0x" + Hex(Bytes(p.start, d.blksz)), "0x" + Hex(Bytes(p.size, d.blksz));
    HexIsLiteral(Bytes(p.start, d.blksz), env);
    HexIsLiteral(Bytes(p.size, d.blksz), env);
    assert "start=0x" + Hex(Bytes(p.start, d.blksz)) == "start=" + s;
    assert "size=0x" + Hex(Bytes(p.size, d.blksz)) == "size=" + z;
    assert ("name=" + p.name)[0] == 'n' && ("start=" + s)[0] == 's' && ("size=" + z)[0] == 's' && ("uuid=" + p.uuid)[0] == 'u';
  }

  /** The text of one entry parses to what the list keeps of it. */
  lemma PartRoundTrip(p: Partition, d: Disk, env: Environment)
    requires d.blksz > 0 && Listable(p, d, env)
    ensures ParsePart(PartText(p), d, env) == Some(Kept(p))
    ensures ';' !in PartText(p)
  {
    hide Hex, Bytes, Fields, Value, Blocks, IsVariable, Joined, PartFields;
    PlainFields(p, d, env);
    FieldsOfJoined(PartFields(p), ',');
    var s, z := "0x" + Hex(Bytes(p.start, d.blksz)), "0x" + Hex(Bytes(p.size, d.blksz));
    FourValues(p.name, s, z, p.uuid);
    HexIsLiteral(Bytes(p.start, d.blksz), env);
    HexIsLiteral(Bytes(p.size, d.blksz), env);
    BlocksRoundTrip(p.start, d);
    BlocksRoundTrip(p.size, d);
    JoinedWithout(PartFields(p), ',', ';');
  }

  lemma {:induction false} JoinedWithout(fields: seq<string>, c: char, d: char)
    requires Without(fields, d) && c != d
    ensures d !in Joined(fields, c)
    decreases |fields|
  {
    if |fields| <= 1 {
    } else {
      JoinedWithout(fields[1..], c, d);
    }
  }

  function Tokens(parts: seq<Partition>): (toks: seq<string>)
    ensures |toks| == |parts|
  {
    if parts == [] then [] else [PartText(parts[0])] + Tokens(parts[1..])
  }

  lemma {:induction false} TokensJoined(parts: seq<Partition>)
    requires parts != []
    ensures PartsText(parts) == Joined(Tokens(parts), ';') + ";"
    decreases |parts|
  {
    hide PartText;
    var p := PartText(parts[0]);
    if |parts| == 1 {
      assert PartsText(parts) == p + ";" + "";
    } else {
      TokensJoined(parts[1..]);
      assert Tokens(parts)[1..] == Tokens(parts[1..]);
      var rest := Joined(Tokens(parts[1..]), ';');
      assert p + ";" + (rest + ";") == (p + [';'] + rest) + ";";
    }
  }

  lemma {:induction false} PartsRoundTrip(parts: seq<Partition>, d: Disk, env: Environment)
    requires d.blksz > 0 && AllListable(parts, d, env)
    ensures ParseParts(Tokens(parts), d, env) == Some(AllKept(parts))
    ensures Without(Tokens(parts), ';')
    ensures Count(PartsText(parts), ';') == |parts|
    decreases |parts|
  {
    hide PartText, ParsePart, Listable, Count;
    if parts == [] {
      CountNone("", ';');
    } else {
      PartRoundTrip(parts[0], d, env);
      PartsRoundTrip(parts[1..], d, env);
      assert AllKept(parts) == [Kept(parts[0])] + AllKept(parts[1..]);
      assert Tokens(parts)[1..] == Tokens(parts[1..]);
      var p, rest := PartText(parts[0]), PartsText(parts[1..]);
      CountConcat(p + ";", rest, ';');
      CountConcat(p, ";", ';');
      CountNone(p, ';');
      CountOne(';', ';');
    }
  }

  lemma TokenOver(a: string, rest: string, c: char)
    requires c !in a
    ensures Token(a + rest, c) == a + Token(rest, c)
    decreases |a|
  {
    FindOver(a, rest, c);
    var n := Find(rest, c);
    assert (a + rest)[..|a| + n] == a + rest[..n];
  }

  /** The disk id is found, and what follows the first semicolon is the partitions. */
  lemma DiskId(guid: string, rest: string)
    requires ',' !in guid && ';' !in guid
    ensures var text := "uuid_disk=" + guid + ";" + rest;
            var disk := Value(Fields(text, ','), "uuid_disk");
            disk.Some? && Token(disk.value, ';') == guid && After(text, ';') == Some(rest)
  {
    hide Token, After, Fields;
    var head := "uuid_disk=" + guid + ";";
    var text := head + rest;
    var t := Token(rest, ',');
    TokenOver(head, rest, ',');
    FieldsStep(text, ',');
    KeysApart();
    assert head + t == "uuid_disk" + "=" + (guid + ";" + t);
    KeyValue("uuid_disk", guid + ";" + t);
    TokenAt(guid, ';', t);
    assert text == ("uuid_disk=" + guid) + [';'] + rest;
    TokenAt("uuid_disk=" + guid, ';', rest);
  }

  lemma TrimWhole(list: string, s: string, w: Width)
    requires s == list + ";" && |s| <= MaxList(w)
    ensures Trim(s, w) == list
  {}

  /** A list longer than the limit keeps its last semicolon or loses more than it. */
  lemma TrimElsewhere(list: string, s: string, w: Width)
    requires s == list + ";" && |s| > MaxList(w)
    ensures Count(Trim(s, w), ';') != Count(s, ';') - 1
  {
    hide Count;
    var i := MaxList(w) - 1;
    if s[i] == ';' {
      var tail := list[i + 1..];
      assert s == s[..i] + ([';'] + (tail + ";"));
      CountConcat(s[..i], [';'] + (tail + ";"), ';');
      CountConcat([';'], tail + ";", ';');
      CountConcat(tail, ";", ';');
      CountOne(';', ';');
    }
  }

  /** An entry's text and its semicolon: 29 characters and the texts of its four values. */
  function Variable(p: Partition): nat
  {
    |Prefix(p.name, PART_NAME_LEN + 1)| + |Prefix(p.uuid, UUID_STR_LEN + 1)|
    + |Hex(Bytes(p.start, p.blksz))| + |Hex(Bytes(p.size, p.blksz))|
  }

  function Variables(parts: seq<Partition>): nat
  {
    if parts == [] then 0 else Variable(parts[0]) + Variables(parts[1..])
  }

  lemma PartLengthIs(p: Partition)
    ensures |PartText(p)| + 1 == 29 + Variable(p) && Variable(p) >= 2
  {
    hide Hex, Bytes, Prefix, Joined, Number;
    var name, uuid := Prefix(p.name, PART_NAME_LEN + 1), Prefix(p.uuid, UUID_STR_LEN + 1);
    var start, size := Hex(Bytes(p.start, p.blksz)), Hex(Bytes(p.size, p.blksz));
    FourFields("name=" + name, "start=0x" + start, "size=0x" + size, "uuid=" + uuid);
  }

  lemma {:induction false} PartsLengthIs(parts: seq<Partition>)
    ensures |PartsText(parts)| == 29 * |parts| + Variables(parts)
    ensures 31 * |parts| <= |PartsText(parts)|
    decreases |parts|
  {
    hide PartText, Variable;
    if parts == [] {
    } else {
      PartLengthIs(parts[0]);
      PartsLengthIs(parts[1..]);
    }
  }

  /** The list printed for a disk and parsed again gives back the same count, disk id,
      names, ids, starts and sizes, in order, exactly when its text fits the limit. */
  lemma ListRoundTrip(guid: string, parts: seq<Partition>, d: Disk, env: Environment)
    requires d.blksz > 0 && parts != [] && AllListable(parts, d, env)
    requires |guid| <= UUID_STR_LEN && Literal(guid, env)
    ensures SetInfo(ListText(guid, parts), d, env) == Ok(guid, |parts|, AllKept(parts))
       <==> |PartsText(parts)| <= MaxList(d.lba)
  {
    hide SetInfo, Fields, ParseParts, PartsText, AllListable, Joined, Count, Tokens, AllKept, Trim, MaxList, Literal;
    var s := PartsText(parts);
    var list := Joined(Tokens(parts), ';');
    TokensJoined(parts);
    ParsedList(guid, s, d, env);
    PartsRoundTrip(parts, d, env);
    PartsLengthIs(parts);
    if |s| <= MaxList(d.lba) {
      TrimWhole(list, s, d.lba);
      FieldsOfJoined(Tokens(parts), ';');
    } else {
      TrimElsewhere(list, s, d.lba);
      FieldsCount(Trim(s, d.lba), ';');
    }
  }

  /** The parser on a printed list: the disk id, and the entries of the rest. */
  lemma ParsedList(guid: string, s: string, d: Disk, env: Environment)
    requires d.blksz > 0 && s != "" && |guid| <= UUID_STR_LEN && Literal(guid, env)
    ensures var parts := ParseParts(Fields(Trim(s, d.lba), ';'), d, env);
            SetInfo("uuid_disk=" + Prefix(guid, UUID_STR_LEN + 1) + ";" + s, d, env)
            == if parts.None? then Error(-4) else Ok(guid, |parts.value| % 256, parts.value)
  {
    hide Fields, Value, Token, After, ParseParts, Trim;
    DiskId(guid, s);
  }

  // ---- the buffer for the list ------------------------------------------------------------

  lemma CalcIs(n: nat, w: Width)
    ensures CalcPartsListLen(n, w) == 49 + n * 103 + n * (2 * LbaBytes(w))
  {
    var b := LbaBytes(w);
    assert n * (10 + b + 1) + n * (9 + b + 1) == n * 21 + n * (2 * b);
  }

  /** The list and its NUL fit the buffer allocated for it exactly when the texts of the
      values leave their share: 82 characters an entry, 90 with wide block numbers. */
  lemma BufferFitsExactly(guid: string, parts: seq<Partition>, w: Width)
    requires |guid| <= UUID_STR_LEN
    ensures |ListText(guid, parts)| + 1 <= CalcPartsListLen(|parts|, w)
       <==> |guid| + Variables(parts) <= 37 + |parts| * 74 + |parts| * (2 * LbaBytes(w))
  {
    hide PartsText, Variables, LbaBytes;
    PartsLengthIs(parts);
    CalcIs(|parts|, w);
  }

  /** How many characters %x prints. */
  lemma {:induction false} HexLength(n: nat, k: nat)
    requires k > 0
    ensures |Hex(n)| <= k <==> n < Sixteens(k)
    decreases k
  {
    if n < 16 {
      assert Sixteens(k) >= 16 by { SixteensGrow(k); }
    } else if k == 1 {
      assert Hex(n) == Hex(n / 16) + [HexDigit(n % 16)];
      assert Sixteens(1) == 16 * Sixteens(0);
    } else {
      HexLength(n / 16, k - 1);
      assert Hex(n) == Hex(n / 16) + [HexDigit(n % 16)];
      assert Sixteens(k) == 16 * Sixteens(k - 1);
    }
  }

  lemma SixteensGrow(k: nat)
    requires k > 0
    ensures Sixteens(k) >= 16
  {}

  /** One entry near the end of a large disk, with a long name, already needs more. */
  lemma LargeDiskExample(w: Width) returns (guid: string, p: Partition)
    ensures |guid| == UUID_STR_LEN && |p.name| < PART_NAME_LEN && |p.uuid| == UUID_STR_LEN
    ensures p.start < LbaLimit(w) && p.size < LbaLimit(w) && p.blksz == 512
    ensures |ListText(guid, [p])| + 1 > CalcPartsListLen(1, w)
  {
    var at := if w == Lba32 then 0x8000_0000 else 0x100_0000_0000;
    guid := seq(UUID_STR_LEN, _ => 'a');
    p := Partition(at, at, 512, seq(31, _ => 'a'), guid, false);
    var n := at * 512;
    assert Bytes(at, 512) == n;
    Powers();
    HexLength(n, if w == Lba32 then 10 else 12);
    assert [p][1..] == [];
    hide Hex, Bytes, CalcPartsListLen, ListText;
    BufferFitsExactly(guid, [p], w);
  }

  /** As many long entries as a table may hold: the list is beyond the limit and does not
      come back. */
  lemma LongListExample(w: Width) returns (d: Disk, parts: seq<Partition>)
    ensures d.blksz == 512 && d.lba == w && |parts| == MAX_SEARCH_PARTITIONS && AllListable(parts, d, map[])
    ensures |PartsText(parts)| > MaxList(w)
    ensures SetInfo(ListText("", parts), d, map[]) != Ok("", |parts|, AllKept(parts))
  {
    d := Disk(512, w);
    var p := LongEntry(w);
    parts := seq(MAX_SEARCH_PARTITIONS, _ => p);
    hide Variable, PartsText, Listable, SetInfo, ListText, MaxList;
    Repeated(p, parts);
    PartsLengthIs(parts);
    LiteralNothing(map[]);
    ListRoundTrip("", parts, d, map[]);
  }

  lemma LongEntry(w: Width) returns (p: Partition)
    ensures Listable(p, Disk(512, w), map[]) && Variable(p) >= (if w == Lba32 then 89 else 93)
  {
    var at := if w == Lba32 then 0x8000_0000 else 0x100_0000_0000;
    p := Partition(at, at, 512, seq(31, _ => 'a'), seq(UUID_STR_LEN, _ => 'a'), false);
    assert Bytes(at, 512) == at * 512;
    Powers();
    HexLength(at * 512, if w == Lba32 then 10 else 12);
    hide Hex, Bytes;
  }

  lemma LiteralNothing(env: Environment)
    ensures Literal("", env)
  {}

  lemma {:induction false} Repeated(p: Partition, parts: seq<Partition>)
    requires forall i :: 0 <= i < |parts| ==> parts[i] == p
    ensures Variables(parts) == |parts| * Variable(p)
    decreases |parts|
  {
    hide Variable;
    if parts == [] {
    } else {
      Repeated(p, parts[1..]);
      OneMore(|parts| - 1, Variable(p));
    }
  }

  lemma Powers()
    ensures Sixteens(10) == 0x100_0000_0000 && Sixteens(12) == 0x1_0000_0000_0000
  {
    assert Sixteens(4) == 0x1_0000;
    assert Sixteens(8) == 0x1_0000_0000;
  }

  // ---- swapping names ---------------------------------------------------------------------

  function SwapName(n: string, name1: string, name2: string): string
  {
    if n == name1 then name2 else if n == name2 then name1 else n
  }

  function SwapOne(p: Partition, name1: string, name2: string): Partition
  {
    p.(name := SwapName(p.name, name1, name2))
  }

  function Swapped(parts: seq<Partition>, name1: string, name2: string): (r: seq<Partition>)
    ensures |r| == |parts|
  {
    seq(|parts|, i requires 0 <= i < |parts| => SwapOne(parts[i], name1, name2))
  }

  function Named(parts: seq<Partition>, name: string): nat
  {
    if parts == [] then 0 else (if parts[|parts| - 1].name == name then 1 else 0) + Named(parts[..|parts| - 1], name)
  }

  /** Two different names borne by equally many entries, at least one each. */
  predicate InPairs(parts: seq<Partition>, name1: string, name2: string)
  {
    name1 != name2 && Named(parts, name1) == Named(parts, name2) >= 1
  }

  lemma NamedNone(name: string)
    ensures Named([], name) == 0
  {}

  lemma NamedNext(parts: seq<Partition>, i: nat, name: string)
    requires i < |parts|
    ensures Named(parts[..i + 1], name) == Named(parts[..i], name) + (if parts[i].name == name then 1 else 0)
  {
    assert parts[..i + 1][..i] == parts[..i];
  }

  /** The "swap" branch of do_rename_gpt_parts, up to the decision to write the table. */
  method SwapNames(parts: array<Partition>, name1: string, name2: string) returns (ret: int)
    modifies parts
    ensures var long := |name1| > PART_NAME_LEN || |name2| > PART_NAME_LEN;
            && parts[..] == (if long then old(parts[..]) else Swapped(old(parts[..]), name1, name2))
            && ret == (if !long && InPairs(old(parts[..]), name1, name2) then 0 else EINVAL)
  {
    if |name1| > PART_NAME_LEN || |name2| > PART_NAME_LEN {
      return EINVAL;
    }
    ghost var was := parts[..];
    hide Named;
    NamedNone(name1);
    NamedNone(name2);
    var ctr1, ctr2, i := 0, 0, 0;
    while i < parts.Length
      invariant 0 <= i <= parts.Length
      invariant forall k :: 0 <= k < parts.Length ==> parts[k] == if k < i then SwapOne(was[k], name1, name2) else was[k]
      invariant ctr1 == Named(was[..i], name1)
      invariant ctr2 == if name1 == name2 then 0 else Named(was[..i], name2)
    {
      NamedNext(was, i, name1);
      NamedNext(was, i, name2);
      if parts[i].name == name1 {
        parts[i] := parts[i].(name := name2);
        ctr1 := ctr1 + 1;
      } else if parts[i].name == name2 {
        parts[i] := parts[i].(name := name1);
        ctr2 := ctr2 + 1;
      }
      i := i + 1;
    }
    assert was[..i] == was;
    assert parts[..] == Swapped(was, name1, name2);
    if ctr1 + ctr2 < 2 || ctr1 != ctr2 {
      return EINVAL;
    }
    return 0;
  }

  lemma SwapStep(parts: seq<Partition>, name1: string, name2: string)
    requires parts != []
    ensures var r := Swapped(parts, name1, name2);
            && r[|r| - 1] == SwapOne(parts[|parts| - 1], name1, name2)
            && r[..|r| - 1] == Swapped(parts[..|parts| - 1], name1, name2)
  {}

  lemma {:induction false} CountsExchange(parts: seq<Partition>, name1: string, name2: string)
    requires name1 != name2
    ensures Named(Swapped(parts, name1, name2), name1) == Named(parts, name2)
    ensures Named(Swapped(parts, name1, name2), name2) == Named(parts, name1)
    decreases |parts|
  {
    if parts == [] {
    } else {
      SwapStep(parts, name1, name2);
      CountsExchange(parts[..|parts| - 1], name1, name2);
    }
  }

  /** A swap done twice restores every entry, and it can be done again whenever it could
      be done once. */
  lemma SwapTwice(parts: seq<Partition>, name1: string, name2: string)
    ensures Swapped(Swapped(parts, name1, name2), name1, name2) == parts
    ensures InPairs(Swapped(parts, name1, name2), name1, name2) == InPairs(parts, name1, name2)
  {
    hide Named;
    if name1 != name2 {
      CountsExchange(parts, name1, name2);
    }
  }

  lemma {:induction false} Bearer(parts: seq<Partition>, name: string) returns (i: nat)
    requires Named(parts, name) >= 1
    ensures i < |parts| && parts[i].name == name
    decreases |parts|
  {
    if parts[|parts| - 1].name == name {
      i := |parts| - 1;
    } else {
      i := Bearer(parts[..|parts| - 1], name);
    }
  }

  function NamesLength(parts: seq<Partition>): nat
  {
    if parts == [] then 0 else NamesLength(parts[..|parts| - 1]) + |parts[|parts| - 1].name|
  }

  /** Every pair exchanged leaves the names as long as they were together. */
  lemma {:induction false} NamesBalance(parts: seq<Partition>, name1: string, name2: string)
    requires name1 != name2
    ensures var a, b := Named(parts, name1), Named(parts, name2);
            NamesLength(Swapped(parts, name1, name2)) + a * |name1| + b * |name2| ==
            NamesLength(parts) + a * |name2| + b * |name1|
    decreases |parts|
  {
    if parts == [] {
    } else {
      SwapStep(parts, name1, name2);
      NamesBalance(parts[..|parts| - 1], name1, name2);
      var a, b := Named(parts[..|parts| - 1], name1), Named(parts[..|parts| - 1], name2);
      OneMore(a, |name1|);
      OneMore(a, |name2|);
      OneMore(b, |name1|);
      OneMore(b, |name2|);
    }
  }

  lemma OneMore(a: nat, n: nat)
    ensures (1 + a) * n == a * n + n && (0 + a) * n == a * n
  {}

  /** What an entry's text is long besides its name. */
  function Others(parts: seq<Partition>): nat
  {
    if parts == [] then 0 else Others(parts[1..]) + |PartText(parts[0].(name := ""))| + 1
  }

  lemma PartLength(p: Partition)
    requires |p.name| <= PART_NAME_LEN
    ensures |PartText(p)| == |PartText(p.(name := ""))| + |p.name|
  {
    hide Hex, Bytes;
    var s, z, u := "start=0x" + Hex(Bytes(p.start, p.blksz)), "size=0x" + Hex(Bytes(p.size, p.blksz)),
      "uuid=" + Prefix(p.uuid, UUID_STR_LEN + 1);
    FourFields("name=" + p.name, s, z, u);
    FourFields("name=" + "", s, z, u);
  }

  lemma {:induction false} NamesFront(parts: seq<Partition>)
    requires parts != []
    ensures NamesLength(parts) == |parts[0].name| + NamesLength(parts[1..])
    decreases |parts|
  {
    if |parts| <= 1 {
    } else {
      var front := parts[..|parts| - 1];
      NamesFront(front);
      assert parts[1..][..|parts| - 2] == front[1..];
    }
  }

  lemma {:induction false} TextLength(parts: seq<Partition>)
    requires forall i :: 0 <= i < |parts| ==> |parts[i].name| <= PART_NAME_LEN
    ensures |PartsText(parts)| == Others(parts) + NamesLength(parts)
    decreases |parts|
  {
    hide PartText;
    if parts == [] {
    } else {
      PartLength(parts[0]);
      NamesFront(parts);
      TextLength(parts[1..]);
    }
  }

  lemma {:induction false} OthersKept(parts: seq<Partition>, name1: string, name2: string)
    ensures Others(Swapped(parts, name1, name2)) == Others(parts)
    decreases |parts|
  {
    hide PartText;
    if parts == [] {
    } else {
      assert Swapped(parts, name1, name2)[1..] == Swapped(parts[1..], name1, name2);
      OthersKept(parts[1..], name1, name2);
      assert SwapOne(parts[0], name1, name2).(name := "") == parts[0].(name := "");
    }
  }

  lemma SwapListable(parts: seq<Partition>, name1: string, name2: string, d: Disk, env: Environment)
    requires AllListable(parts, d, env) && InPairs(parts, name1, name2)
    ensures AllListable(Swapped(parts, name1, name2), d, env)
    ensures |name1| < PART_NAME_LEN && |name2| < PART_NAME_LEN
  {
    hide Named, Literal;
    var i := Bearer(parts, name1);
    var j := Bearer(parts, name2);
    var r := Swapped(parts, name1, name2);
    forall k | 0 <= k < |r|
      ensures Listable(r[k], d, env)
    {
      assert Listable(parts[i], d, env) && Listable(parts[j], d, env) && Listable(parts[k], d, env);
    }
    assert Listable(parts[i], d, env) && Listable(parts[j], d, env);
  }

  /** A swap that succeeds leaves a list exactly as long as before. */
  lemma SwapKeepsLength(parts: seq<Partition>, name1: string, name2: string, d: Disk, env: Environment)
    requires AllListable(parts, d, env) && InPairs(parts, name1, name2)
    ensures |PartsText(Swapped(parts, name1, name2))| == |PartsText(parts)|
  {
    hide Named, PartsText, Others, NamesLength, Literal;
    SwapListable(parts, name1, name2, d, env);
    TextLength(parts);
    TextLength(Swapped(parts, name1, name2));
    OthersKept(parts, name1, name2);
    NamesBalance(parts, name1, name2);
  }

  /** The table written after a swap: when the disk's own list could be read back, so can
      the list with the names exchanged, and of what the list keeps only those names change. */
  lemma SwapWritesSwapped(guid: string, parts: seq<Partition>, name1: string, name2: string, d: Disk, env: Environment)
    requires d.blksz > 0 && AllListable(parts, d, env) && InPairs(parts, name1, name2)
    requires |guid| <= UUID_STR_LEN && Literal(guid, env)
    ensures parts != []
    ensures SetInfo(ListText(guid, Swapped(parts, name1, name2)), d, env) ==
            Ok(guid, |parts|, Swapped(AllKept(parts), name1, name2))
       <==> SetInfo(ListText(guid, parts), d, env) == Ok(guid, |parts|, AllKept(parts))
  {
    var i := Bearer(parts, name1);
    hide Named, PartsText, ListText, SetInfo, Literal, Listable;
    SwapListable(parts, name1, name2, d, env);
    SwapKeepsLength(parts, name1, name2, d, env);
    ListRoundTrip(guid, parts, d, env);
    ListRoundTrip(guid, Swapped(parts, name1, name2), d, env);
    assert AllKept(Swapped(parts, name1, name2)) == Swapped(AllKept(parts), name1, name2);
  }
}
