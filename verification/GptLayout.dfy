/** Partition layouts written by hand, in the format of doc/README.gpt. */
module GptLayout {
  import opened KeyList
  import opened Options
  import opened Strto
  import opened Gpt

  /** A size or an offset: a number in any of the forms of C, and a unit. */
  datatype Suffix = Single | Kilo | Mega | Giga
  datatype Amount = Amount(form: Form, n: nat, suffix: Suffix)

  function SuffixText(x: Suffix): string
  {
    match x case Single => "" case Kilo => "KiB" case Mega => "MiB" case Giga => "GiB"
  }

  function Scale(x: Suffix): nat
  {
    match x case Single => 1 case Kilo => 0x400 case Mega => 0x10_0000 case Giga => 0x4000_0000
  }

  function AmountText(x: Amount): string
  {
    Text(x.form, x.n) + SuffixText(x.suffix)
  }

  /** The number of bytes it stands for. */
  function AmountOf(x: Amount): nat
  {
    x.n * Scale(x.suffix)
  }

  lemma SuffixEnds(s: string, at: nat, x: Amount)
    requires at <= |s| && s[at..] == SuffixText(x.suffix)
    ensures EndsThere(s, at, x.form, x.n) && Unit(At(s, at)) == Scale(x.suffix)
  {
    assert at < |s| ==> s[at] == s[at..][0];
  }

  /** ustrtoull understands every amount, and a block count is made of it. */
  lemma AmountRead(x: Amount, d: Disk)
    requires d.blksz > 0
    ensures Blocks(AmountText(x), d) == AmountOf(x) % WIDE / d.blksz % LbaLimit(d.lba)
  {
    hide Text, Reading, Advance, Unit, EndsThere, Scale, LbaLimit;
    var s, t := AmountText(x), Text(x.form, x.n);
    assert s[..|t|] == t && s[|t|..] == SuffixText(x.suffix);
    SuffixEnds(s, |t|, x);
    ReadsText(s, x.form, x.n);
  }

  lemma DigitIsPlain(c: char)
    requires DigitValue(c) < 16
    ensures c != ',' && c != ';' && c != '-' && c != '$'
  {}

  lemma TextPlain(form: Form, n: nat)
    ensures var t := Text(form, n); t != [] && ',' !in t && ';' !in t && t[0] != '-' && t[0] != '$'
  {
    var d := Written(n, BaseOf(form));
    hide Written, DigitValue;
    forall i | 0 <= i < |d|
      ensures d[i] != ',' && d[i] != ';' && d[i] != '-' && d[i] != '$'
    {
      DigitIsPlain(d[i]);
    }
  }

  lemma AmountPlain(x: Amount, env: Environment)
    ensures var t := AmountText(x); Literal(t, env) && t != "-"
  {
    hide Text;
    TextPlain(x.form, x.n);
    var t := AmountText(x);
    assert t[0] == Text(x.form, x.n)[0];
    assert |t| >= 2 ==> t[..2][0] == t[0];
  }

  /** ${name} stands for the value of the variable, where it has one. */
  lemma VariableExpanded(name: string, env: Environment)
    requires name != ""
    ensures Expand("${" + name + "}", env) == if name in env then env[name] else "${" + name + "}"
  {
    var s := "${" + name + "}";
    assert s[..2] == "${" && s[2..|s| - 1] == name;
  }

  // ---- one partition -------------------------------------------------------------------------

  /** A size left open (-) takes what remains. */
  datatype Extent = Open | Of(amount: Amount)

  datatype Entry = Entry(name: string, start: Option<Amount>, size: Extent, uuid: string, bootable: bool)

  function ExtentText(x: Extent): string
  {
    match x case Open => "-" case Of(a) => AmountText(a)
  }

  function LastField(e: Entry): seq<string>
  {
    if e.bootable then ["bootable"] else []
  }

  function StartField(e: Entry): seq<string>
  {
    match e.start case None => [] case Some(a) => ["start=" + AmountText(a)]
  }

  function EntryFields(e: Entry): seq<string>
  {
    ["name=" + e.name] + (StartField(e) + (["size=" + ExtentText(e.size)] + (["uuid=" + e.uuid] + LastField(e))))
  }

  function EntryText(e: Entry): string
  {
    Joined(EntryFields(e), ',')
  }

  /** The block count an amount of bytes makes on this disk. */
  function InBlocks(bytes: nat, d: Disk): nat
    requires d.blksz > 0
  {
    bytes % WIDE / d.blksz % LbaLimit(d.lba)
  }

  /** What the entry asks for. */
  function Meant(e: Entry, d: Disk, env: Environment): Partition
    requires d.blksz > 0
  {
    Partition(match e.start case None => 0 case Some(a) => InBlocks(AmountOf(a), d),
              match e.size case Open => 0 case Of(a) => InBlocks(AmountOf(a), d),
              0, Expand(e.name, env), Expand(e.uuid, env), e.bootable)
  }

  /** Name and id hold no delimiters. */
  predicate Delimited(e: Entry)
  {
    ',' !in e.name && ';' !in e.name && ',' !in e.uuid && ';' !in e.uuid
  }

  /** They do, and what they stand for fits. */
  predicate Writable(e: Entry, env: Environment)
  {
    Delimited(e) && |Expand(e.name, env)| < 32 && |Expand(e.uuid, env)| <= 36
  }

  lemma BootSkipped(key: string, rest: seq<string>)
    requires key != "bootable"
    ensures Value(["bootable"] + rest, key) == Value(rest, key)
  {
    NoneLeft("bootable", '=');
    assert (["bootable"] + rest)[1..] == rest;
  }

  lemma LastHasNone(e: Entry, key: string)
    requires key != "bootable"
    ensures Value(LastField(e), key) == None
  {
    BootSkipped(key, []);
    assert ["bootable"] + [] == ["bootable"];
  }

  lemma Keys()
    ensures "name" != "bootable" && "start" != "bootable" && "size" != "bootable" && "uuid" != "bootable"
    ensures "name=" == "name" + "=" && "start=" == "start" + "=" && "size=" == "size" + "=" && "uuid=" == "uuid" + "="
  {
    assert |"bootable"| == 8;
  }

  /** Each key is found in its place. */
  lemma EntryValues(e: Entry)
    ensures var f := EntryFields(e);
            && Value(f, "name") == Some(e.name) && Value(f, "size") == Some(ExtentText(e.size))
            && Value(f, "uuid") == Some(e.uuid)
            && Value(f, "start") == match e.start case None => None case Some(a) => Some(AmountText(a))
  {
    hide Value, AmountText, ExtentText, LastField;
    KeysApart();
    Keys();
    var f4 := LastField(e);
    var f3 := ["uuid=" + e.uuid] + f4;
    var f2 := ["size=" + ExtentText(e.size)] + f3;
    var f1 := StartField(e) + f2;
    var f := ["name=" + e.name] + f1;
    Taken(f, "name", e.name, f1);
    Skipped(f, "size", "name", e.name, f1);
    Skipped(f, "uuid", "name", e.name, f1);
    Skipped(f, "start", "name", e.name, f1);
    StartValues(e, f2);
    Taken(f2, "size", ExtentText(e.size), f3);
    Skipped(f2, "uuid", "size", ExtentText(e.size), f3);
    Skipped(f2, "start", "size", ExtentText(e.size), f3);
    Taken(f3, "uuid", e.uuid, f4);
    Skipped(f3, "start", "uuid", e.uuid, f4);
    LastHasNone(e, "start");
  }

  lemma StartValues(e: Entry, f2: seq<string>)
    ensures Value(StartField(e) + f2, "size") == Value(f2, "size") && Value(StartField(e) + f2, "uuid") == Value(f2, "uuid")
    ensures Value(StartField(e) + f2, "start")
         == match e.start case None => Value(f2, "start") case Some(a) => Some(AmountText(a))
  {
    hide Value, AmountText;
    KeysApart();
    Keys();
    if e.start.None? {
      assert [] + f2 == f2;
    } else {
      var t := AmountText(e.start.value);
      Skipped(["start=" + t] + f2, "size", "start", t, f2);
      Skipped(["start=" + t] + f2, "uuid", "start", t, f2);
      Taken(["start=" + t] + f2, "start", t, f2);
    }
  }

  lemma NotBoot(key: string, v: string)
    ensures key + "=" + v != "bootable"
  {
    assert (key + "=" + v)[|key|] == '=';
    assert '=' !in "bootable";
  }

  lemma EntryBoots(e: Entry)
    ensures "bootable" in EntryFields(e) <==> e.bootable
  {
    hide AmountText, ExtentText;
    Keys();
    NotBoot("name", e.name);
    NotBoot("size", ExtentText(e.size));
    NotBoot("uuid", e.uuid);
    if e.start.Some? {
      NotBoot("start", AmountText(e.start.value));
    }
  }

  lemma EntryDelimited(e: Entry, env: Environment)
    requires Delimited(e)
    ensures Without(EntryFields(e), ',') && Without(EntryFields(e), ';')
  {
    hide AmountText, IsVariable;
    if e.start.Some? {
      AmountPlain(e.start.value, env);
    }
    if e.size.Of? {
      AmountPlain(e.size.amount, env);
    }
  }

  lemma ExtentRead(x: Extent, d: Disk, env: Environment)
    requires d.blksz > 0
    ensures SizeOf(Expand(ExtentText(x), env), d) == match x case Open => 0 case Of(a) => InBlocks(AmountOf(a), d)
  {
    hide AmountText, Blocks, AmountOf;
    if x.Of? {
      AmountPlain(x.amount, env);
      AmountRead(x.amount, d);
    }
  }

  lemma StartRead(a: Amount, d: Disk, env: Environment)
    requires d.blksz > 0
    ensures Blocks(Expand(AmountText(a), env), d) == InBlocks(AmountOf(a), d)
  {
    hide AmountText, Blocks, AmountOf;
    AmountPlain(a, env);
    AmountRead(a, d);
  }

  /** A partition written by hand is understood as it is meant, or refused when its name has
      more than 31 characters or its id more than 36. */
  lemma EntryParsed(e: Entry, d: Disk, env: Environment)
    requires d.blksz > 0 && Delimited(e)
    ensures ParsePart(EntryText(e), d, env) == if Writable(e, env) then Some(Meant(e, d, env)) else None
    ensures ';' !in EntryText(e)
  {
    hide Fields, Value, Blocks, Expand, Joined, EntryFields, AmountText, InBlocks, SizeOf, ExtentText;
    EntryDelimited(e, env);
    EntryNotEmpty(e);
    FieldsOfJoined(EntryFields(e), ',');
    EntryValues(e);
    EntryBoots(e);
    ExtentRead(e.size, d, env);
    if e.start.Some? {
      StartRead(e.start.value, d, env);
    }
    JoinedWithout(EntryFields(e), ',', ';');
  }

  lemma EntryNotEmpty(e: Entry)
    ensures EntryFields(e) != []
  {}

  // ---- the whole layout ------------------------------------------------------------------------

  function EntryTexts(es: seq<Entry>): (toks: seq<string>)
    ensures |toks| == |es|
  {
    if es == [] then [] else [EntryText(es[0])] + EntryTexts(es[1..])
  }

  function AllMeant(es: seq<Entry>, d: Disk, env: Environment): seq<Partition>
    requires d.blksz > 0
  {
    if es == [] then [] else [Meant(es[0], d, env)] + AllMeant(es[1..], d, env)
  }

  predicate AllWritable(es: seq<Entry>, env: Environment)
  {
    forall i :: 0 <= i < |es| ==> Writable(es[i], env)
  }

  predicate AllDelimited(es: seq<Entry>)
  {
    forall i :: 0 <= i < |es| ==> Delimited(es[i])
  }

  lemma {:induction false} EntriesParsed(es: seq<Entry>, d: Disk, env: Environment)
    requires d.blksz > 0 && AllDelimited(es)
    ensures ParseParts(EntryTexts(es), d, env) == if AllWritable(es, env) then Some(AllMeant(es, d, env)) else None
    ensures Without(EntryTexts(es), ';')
    decreases |es|
  {
    hide EntryText, ParsePart, Meant, Writable, Delimited;
    if es == [] {
    } else {
      EntryParsed(es[0], d, env);
      EntriesParsed(es[1..], d, env);
      assert EntryTexts(es)[1..] == EntryTexts(es[1..]);
      assert AllWritable(es, env) <==> Writable(es[0], env) && AllWritable(es[1..], env) by {
        WritableFirst(es, env);
      }
    }
  }

  lemma WritableFirst(es: seq<Entry>, env: Environment)
    requires es != []
    ensures AllWritable(es, env) <==> Writable(es[0], env) && AllWritable(es[1..], env)
  {
    hide Writable;
    if Writable(es[0], env) && AllWritable(es[1..], env) {
      forall i | 0 <= i < |es|
        ensures Writable(es[i], env)
      {
        assert i > 0 ==> es[i] == es[1..][i - 1];
      }
    }
  }

  /** A layout with a final semicolon that fits the length limit is understood partition by
      partition, or refused for a name or an id that is too long; beyond the limit it is not
      understood. */
  lemma LayoutParsed(guid: string, es: seq<Entry>, d: Disk, env: Environment)
    requires d.blksz > 0 && es != [] && AllDelimited(es) && ',' !in guid && ';' !in guid
    ensures var list := Joined(EntryTexts(es), ';') + ";";
            var r := SetInfo("uuid_disk=" + guid + ";" + list, d, env);
            var right := Ok(Expand(guid, env), |es| % 256, AllMeant(es, d, env));
            if |list| <= MaxList(d.lba) then r == (if AllWritable(es, env) then right else Error(-4)) else r != right
  {
    hide Fields, Value, Expand, Joined, ParseParts, EntryTexts, AllMeant, Trim, MaxList, Count;
    var list := Joined(EntryTexts(es), ';');
    DiskId(guid, list + ";");
    EntriesParsed(es, d, env);
    FieldsOfJoined(EntryTexts(es), ';');
    MeantCount(es, d, env);
    if |list + ";"| <= MaxList(d.lba) {
      TrimWhole(list, list + ";", d.lba);
    } else {
      TrimElsewhere(list, list + ";", d.lba);
      FieldsCount(Trim(list + ";", d.lba), ';');
      FieldsCount(list, ';');
      CountConcat(list, ";", ';');
      CountOne(';', ';');
    }
  }

  /** What is refused before any partition is looked at: no disk id, no semicolon after it,
      nothing after the semicolon. */
  lemma LayoutRefused(guid: string, d: Disk, env: Environment)
    requires d.blksz > 0 && ',' !in guid && ';' !in guid
    ensures SetInfo("", d, env) == Error(-2)
    ensures SetInfo("uuid_disk=" + guid, d, env) == Error(-22)
    ensures SetInfo("uuid_disk=" + guid + ";", d, env) == Error(-3)
  {
    hide ParseParts, Fields, Value, Token, After, Trim;
    KeysApart();
    NoDisk();
    var t := "uuid_disk=" + guid;
    assert t == "uuid_disk" + "=" + guid;
    NoneLeft(t, ',');
    NoneLeft(t, ';');
    FieldsStep(t, ',');
    assert [t] + [] == ["uuid_disk" + "=" + guid] + [];
    Taken([t], "uuid_disk", guid, []);
    DiskId(guid, "");
    assert t + ";" + "" == t + ";";
  }

  lemma NoDisk()
    ensures Value(Fields("", ','), "uuid_disk") == None
  {
    NoneLeft("", ',');
    NoneLeft("", '=');
    FieldsStep("", ',');
    assert Fields("", ',') == [""] && [""][1..] == [];
  }

  lemma {:induction false} MeantCount(es: seq<Entry>, d: Disk, env: Environment)
    requires d.blksz > 0
    ensures |AllMeant(es, d, env)| == |es|
    decreases |es|
  {
    if es == [] {
    } else {
      MeantCount(es[1..], d, env);
    }
  }

  lemma SizeText()
    ensures "size=" + AmountText(Amount(Decimal, 60, Mega)) == "size=60MiB"
  {
    assert Written(60, 10) == "60";
    assert Text(Decimal, 60) == "60";
    hide Text;
    assert "60" + "MiB" == "60MiB";
  }

  lemma UBootText(uuid: string)
    ensures "name=u-boot" + ("," + "size=60MiB") + ("," + ("uuid=" + uuid)) == "name=u-boot,size=60MiB,uuid=" + uuid
  {
    assert "name=u-boot" + ("," + "size=60MiB") + ",uuid=" == "name=u-boot,size=60MiB,uuid=";
  }

  lemma NoVariable(s: string, env: Environment)
    requires s != "" && s[0] != '$'
    ensures Expand(s, env) == s
  {
    assert |s| >= 2 ==> s[..2][0] == s[0];
  }

  lemma ThreeFields(a: string, b: string, c: string)
    ensures Joined([a, b, c], ',') == a + ("," + b) + ("," + c)
  {
    var f := [a, b, c];
    assert f[1..] == [b, c] && f[1..][1..] == [c];
    assert Joined([b, c], ',') == b + "," + c;
  }

  lemma NameText(name: string)
    ensures name == "u-boot" ==> "name=" + name == "name=u-boot"
    ensures name == "${n}" ==> "name=" + name == "name=${n}"
  {}

  /** The entry of doc/README.gpt for u-boot: 60 MiB are 122880 blocks of 512 bytes. */
  lemma UBootEntry(uuid: string, w: Width, env: Environment)
    requires Literal(uuid, env) && |uuid| <= 36
    ensures ParsePart("name=u-boot,size=60MiB,uuid=" + uuid, Disk(512, w), env)
         == Some(Partition(0, 122880, 0, "u-boot", uuid, false))
  {
    hide Fields, Value, IsVariable, AmountText, Joined, ParsePart;
    var e := Entry("u-boot", None, Of(Amount(Decimal, 60, Mega)), uuid, false);
    SizeText();
    NameText("u-boot");
    var u := "uuid=" + uuid;
    assert EntryFields(e) == ["name=u-boot", "size=60MiB", u];
    ThreeFields("name=u-boot", "size=60MiB", u);
    UBootText(uuid);
    NoVariable("u-boot", env);
    EntryParsed(e, Disk(512, w), env);
  }

  lemma StartText()
    ensures "start=" + AmountText(Amount(Hexadecimal, 4096, Single)) == "start=0x1000"
  {
    assert Written(1, 16) == "1" && Written(16, 16) == "10" && Written(256, 16) == "100" && Written(4096, 16) == "1000";
    assert Text(Hexadecimal, 4096) == "0x1000";
    hide Text;
    assert "0x1000" + "" == "0x1000";
  }

  lemma OctalSize()
    ensures "size=" + AmountText(Amount(Octal, 8, Kilo)) == "size=010KiB"
  {
    assert Written(8, 8) == "10";
    assert Text(Octal, 8) == "010";
    hide Text;
    assert "010" + "KiB" == "010KiB";
  }

  lemma FiveFields(a: string, b: string, c: string, d: string, e: string)
    ensures Joined([a, b, c, d, e], ',') == a + "," + (b + ("," + c) + ("," + d) + ("," + e))
  {
    var f := [a, b, c, d, e];
    assert f[1..] == [b, c, d, e];
    FourFields(b, c, d, e);
  }

  lemma Variable()
    ensures Expand("${n}", map["n" := "kernel"]) == "kernel"
  {
    VariableExpanded("n", map["n" := "kernel"]);
    assert "${" + "n" + "}" == "${n}";
  }

  /** Another with everything in it: a start of 4096 bytes, an octal size, a name out of the
      environment, and the boot flag. */
  lemma BootEntry(w: Width)
    ensures ParsePart("name=${n}" + "," + ("start=0x1000" + ("," + "size=010KiB") + ("," + "uuid=7") + ("," + "bootable")),
                      Disk(512, w), map["n" := "kernel"])
         == Some(Partition(8, 16, 0, "kernel", "7", true))
  {
    hide Fields, Value, AmountText, Joined, ParsePart, IsVariable, Expand;
    var e := Entry("${n}", Some(Amount(Hexadecimal, 4096, Single)), Of(Amount(Octal, 8, Kilo)), "7", true);
    BootFields(e);
    FiveFields("name=${n}", "start=0x1000", "size=010KiB", "uuid=7", "bootable");
    Variable();
    NoVariable("7", map["n" := "kernel"]);
    EntryParsed(e, Disk(512, w), map["n" := "kernel"]);
  }

  lemma BootFields(e: Entry)
    requires e == Entry("${n}", Some(Amount(Hexadecimal, 4096, Single)), Of(Amount(Octal, 8, Kilo)), "7", true)
    ensures EntryFields(e) == ["name=${n}", "start=0x1000", "size=010KiB", "uuid=7", "bootable"]
  {
    hide AmountText;
    StartText();
    OctalSize();
    NameText("${n}");
    assert "uuid=" + "7" == "uuid=7";
  }
}
