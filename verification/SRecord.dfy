/** save_serial: memory written out as Motorola S3 records, and read back. */
module SRecord {
  import opened Bytes
  import opened Options
  import opened Strto

  // ---- hexadecimal text --------------------------------------------------------

  /** The upper-case digits that save_serial writes. */
  function Digit(n: nat): char
    requires n < 16
  {
    if n < 10 then '0' + n as char else 'A' + (n - 10) as char
  }

  lemma DigitCodec(n: nat)
    requires n < 16
    ensures DigitValue(Digit(n)) == n
  {}

  function Hex(b: Byte): (s: string)
    ensures |s| == 2
  {
    [Digit(b / 16 % 16), Digit(b % 16)]
  }

  function HexAll(bytes: seq<Byte>): (s: string)
    ensures |s| == 2 * |bytes|
  {
    if bytes == [] then [] else HexAll(bytes[..|bytes| - 1]) + Hex(bytes[|bytes| - 1])
  }

  /** Pairs of hexadecimal digits, read back from the end. */
  function FromHex(s: string): Option<seq<Byte>>
  {
    if s == [] then Some([])
    else if |s| == 1 then None
    else
      var hi, lo := DigitValue(s[|s| - 2]), DigitValue(s[|s| - 1]);
      var r := FromHex(s[..|s| - 2]);
      if hi >= 16 || lo >= 16 || r.None? then None else Some(r.value + [hi * 16 + lo])
  }

  lemma PairCodec(b: Byte)
    ensures var s := Hex(b);
            DigitValue(s[0]) < 16 && DigitValue(s[1]) < 16 && DigitValue(s[0]) * 16 + DigitValue(s[1]) == b
  {
    hide Digit, DigitValue;
    DigitCodec(b / 16 % 16);
    DigitCodec(b % 16);
  }

  lemma FromHexPair(t: string, pair: string, b: Byte)
    requires |pair| == 2 && DigitValue(pair[0]) < 16 && DigitValue(pair[1]) < 16
    requires DigitValue(pair[0]) * 16 + DigitValue(pair[1]) == b && FromHex(t).Some?
    ensures FromHex(t + pair) == Some(FromHex(t).value + [b])
  {
    hide DigitValue;
    var s := t + pair;
    assert s[..|s| - 2] == t && s[|s| - 2] == pair[0] && s[|s| - 1] == pair[1];
  }

  lemma {:induction false} HexRoundTrip(bytes: seq<Byte>)
    ensures FromHex(HexAll(bytes)) == Some(bytes)
  {
    hide DigitValue, Hex;
    if bytes == [] {
    } else {
      var b, b0 := bytes[|bytes| - 1], bytes[..|bytes| - 1];
      assert HexAll(bytes) == HexAll(b0) + Hex(b) && bytes == b0 + [b];
      hide HexAll, FromHex;
      HexRoundTrip(b0);
      PairCodec(b);
      FromHexPair(HexAll(b0), Hex(b), b);
    }
  }

  lemma {:induction false} HexConcat(a: seq<Byte>, b: seq<Byte>)
    ensures HexAll(a + b) == HexAll(a) + HexAll(b)
    decreases |b|
  {
    if b == [] {
      assert a + b == a;
    } else {
      var b0 := b[..|b| - 1];
      assert (a + b)[..|a + b| - 1] == a + b0;
      HexConcat(a, b0);
    }
  }

  // ---- one record ------------------------------------------------------------------

  /** The four address bytes, most significant first. */
  function AddressBytes(a: nat): (s: seq<Byte>)
    requires a < 0x1_0000_0000
    ensures |s| == 4
  {
    [a / 256 / 256 / 256, a / 256 / 256 % 256, a / 256 % 256, a % 256]
  }

  function Address(s: seq<Byte>): nat
    requires |s| == 4
  {
    ((s[0] as int * 256 + s[1]) * 256 + s[2]) * 256 + s[3]
  }

  lemma AddressCodec(a: nat)
    requires a < 0x1_0000_0000
    ensures Address(AddressBytes(a)) == a
  {}

  /** A data record as the S-record format defines it: count, address, data and check
      bytes in hexadecimal; the check byte makes them sum to 0xff. */
  datatype Piece = Piece(address: nat, data: seq<Byte>)

  function ReadRecord(line: string): Option<Piece>
  {
    if |line| < 3 || line[..2] != "S3" || line[|line| - 1] != '\n' then None
    else
      var bytes := FromHex(line[2..|line| - 1]);
      if bytes.None? || |bytes.value| < 6 || bytes.value[0] != |bytes.value| - 1 || Sum(bytes.value) % 256 != 0xff then None
      else Some(Piece(Address(bytes.value[1..5]), bytes.value[5..|bytes.value| - 1]))
  }

  /** Count, address and data bytes: what the check byte covers. */
  function Covered(a: nat, data: seq<Byte>): seq<Byte>
    requires a < 0x1_0000_0000 && |data| <= 16
  {
    [4 + |data| + 1] + AddressBytes(a) + data
  }

  /** The byte that brings the sum of all bytes to 0xff. */
  function CheckByte(a: nat, data: seq<Byte>): Byte
    requires a < 0x1_0000_0000 && |data| <= 16
  {
    255 - Sum(Covered(a, data)) % 256
  }

  /** %08lX, for an address of 32 bits. */
  function HexAddress(a: nat): string
    requires a < 0x1_0000_0000
  {
    HexAll(AddressBytes(a))
  }

  /** The text that sprintf produces for one record. */
  function Record(a: nat, data: seq<Byte>): string
    requires a < 0x1_0000_0000 && |data| <= 16
  {
    "S3" + Hex(4 + |data| + 1) + HexAddress(a) + HexAll(data) + Hex(CheckByte(a, data)) + "\n"
  }

  lemma Inner(b: string, c: string, d: string, e: string)
    ensures var line := "S3" + b + c + d + e + "\n";
            line[..2] == "S3" && line[|line| - 1] == '\n' && line[2..|line| - 1] == b + c + d + e
  {}

  lemma SumSnoc(s: seq<Byte>, b: Byte)
    ensures Sum(s + [b]) == Sum(s) + b
  {
    assert (s + [b])[..|s|] == s;
  }

  lemma CheckSum(x: nat)
    ensures (x + (255 - x % 256)) % 256 == 255
  {}

  /** A record reads back as the piece it was made from, and fits the buffer. */
  lemma RecordRoundTrip(a: nat, data: seq<Byte>)
    requires a < 0x1_0000_0000 && 0 < |data| <= 16
    ensures ReadRecord(Record(a, data)) == Some(Piece(a, data))
    ensures |Record(a, data)| + 1 <= 48
  {
    hide Sum, HexAll, Hex, FromHex, AddressBytes, Address, HexAddress;
    var c := Covered(a, data);
    var check := CheckByte(a, data);
    var all := c + [check];
    SumSnoc(c, check);
    CheckSum(Sum(c));
    HexRoundTrip(all);
    AddressCodec(a);
    CoveredParts(a, data);
    HexConcat(c, [check]);
    HexOne(check);
    Inner(Hex(4 + |data| + 1), HexAddress(a), HexAll(data), Hex(check));
    AllParts(a, data, check);
    assert |HexAddress(a)| == 8 by { AddressLength(a); }
  }

  lemma AddressLength(a: nat)
    requires a < 0x1_0000_0000
    ensures |HexAddress(a)| == 8
  {}

  lemma AllParts(a: nat, data: seq<Byte>, check: Byte)
    requires a < 0x1_0000_0000 && |data| <= 16
    ensures var all := Covered(a, data) + [check];
            |all| == |data| + 6 && all[0] == |all| - 1 && all[1..5] == AddressBytes(a) && all[5..|all| - 1] == data
  {
    hide AddressBytes;
  }

  lemma CoveredParts(a: nat, data: seq<Byte>)
    requires a < 0x1_0000_0000 && |data| <= 16
    ensures Sum(Covered(a, data)) == 4 + |data| + 1 + Sum(AddressBytes(a)) + Sum(data)
    ensures HexAll(Covered(a, data)) == Hex(4 + |data| + 1) + HexAddress(a) + HexAll(data)
  {
    hide HexAll, Hex, Sum, AddressBytes;
    var n: Byte := 4 + |data| + 1;
    var ab := AddressBytes(a);
    SumOne(n);
    SumConcat([n], ab);
    SumConcat([n] + ab, data);
    HexConcat([n], ab);
    HexConcat([n] + ab, data);
    HexOne(n);
  }

  // ---- the whole range ---------------------------------------------------------------

  const START := "S0030000FC\n"
  const END := "S70500000000FA\n"
  const PER_RECORD := 16

  /** One record for each sixteen bytes of the range at `address`, and one for the rest. */
  function Records(address: nat, bytes: seq<Byte>): seq<string>
    requires address + |bytes| <= 0x1_0000_0000
    decreases |bytes|
  {
    if bytes == [] then []
    else
      var k := if |bytes| < PER_RECORD then |bytes| else PER_RECORD;
      [Record(address, bytes[..k])] + Records(address + k, bytes[k..])
  }

  /** Reading the lines one after another rebuilds `bytes` at `address`: each starts
      where the one before it ended and carries one to sixteen bytes. */
  ghost predicate Rebuilds(lines: seq<string>, address: nat, bytes: seq<Byte>)
  {
    if lines == [] then bytes == []
    else
      var r := ReadRecord(lines[0]);
      && r.Some? && |lines[0]| + 1 <= 48
      && r.value.address == address && 0 < |r.value.data| <= 16 && r.value.data <= bytes
      && Rebuilds(lines[1..], address + |r.value.data|, bytes[|r.value.data|..])
  }

  lemma RebuildsCons(line: string, lines: seq<string>, address: nat, d: seq<Byte>, bytes: seq<Byte>)
    requires ReadRecord(line) == Some(Piece(address, d)) && |line| + 1 <= 48 && 0 < |d| <= 16 && d <= bytes
    requires Rebuilds(lines, address + |d|, bytes[|d|..])
    ensures Rebuilds([line] + lines, address, bytes)
  {
    hide ReadRecord;
    assert ([line] + lines)[1..] == lines;
  }

  lemma RebuildsNone(address: nat)
    ensures Rebuilds([], address, [])
  {}

  /** The emitted lines are contiguous pieces that rebuild the range. */
  lemma {:induction false} RecordsRebuild(address: nat, bytes: seq<Byte>)
    requires address + |bytes| <= 0x1_0000_0000
    ensures Rebuilds(Records(address, bytes), address, bytes)
    decreases |bytes|
  {
    hide Record, ReadRecord, Rebuilds;
    if bytes == [] {
      RebuildsNone(address);
    } else {
      var k := if |bytes| < PER_RECORD then |bytes| else PER_RECORD;
      RecordRoundTrip(address, bytes[..k]);
      RecordsRebuild(address + k, bytes[k..]);
      RebuildsCons(Record(address, bytes[..k]), Records(address + k, bytes[k..]), address, bytes[..k], bytes);
    }
  }

  /** Completes the checksum and joins the fields of one record. */
  method BuildRecord(address: nat, reclen: nat, data: string, sum: nat, ghost bytes: seq<Byte>) returns (record: string)
    requires address < 0x1_0000_0000 && reclen == |bytes| <= 16 && data == HexAll(bytes) && sum == Sum(bytes)
    ensures record == Record(address, bytes)
  {
    hide HexAll, Hex, Sum, AddressBytes, HexAddress, Covered;
    var checksum := sum;
    var length := 4 + reclen + 1;
    checksum := checksum + (length % 256 + length / 256 % 256);
    checksum := checksum + (address % 256 + address / 0x100 % 256 + address / 0x1_0000 % 256 + address / 0x100_0000 % 256);
    checksum := 255 - checksum % 256;
    record := "S3" + Hex(length) + HexAddress(address) + data + Hex(checksum) + "\n";
    SumAddress(address);
    CoveredParts(address, bytes);
  }

  /** save_serial; `memory` is what stands at the address, and the lines that go to
      write_record are collected. */
  method SaveSerial(address0: nat, memory: seq<Byte>) returns (lines: seq<string>)
    requires address0 + |memory| <= 0x1_0000_0000
    ensures lines == [START] + Records(address0, memory) + [END]
  {
    hide Records, HexAll, Sum, Record, AddressBytes;
    var address: nat, count: nat, reclen: nat, checksum: nat, data := address0, |memory|, 0, 0, "";
    lines := [START];
    ghost var p := 0;
    DataStart(memory, p);
    assert memory[0..] == memory;
    while true
      invariant p == address - address0 && 0 <= p && p + reclen + count == |memory|
      invariant reclen < PER_RECORD && (reclen == 0 || count > 0)
      invariant data == HexAll(memory[p..p + reclen]) && checksum == Sum(memory[p..p + reclen])
      invariant lines + Records(address, memory[p..]) == [START] + Records(address0, memory)
      decreases count
    {
      if count != 0 {
        var c := memory[address - address0 + reclen];
        DataStep(memory, p, reclen);
        checksum := checksum + c;
        data := data + [Digit(c / 16 % 16), Digit(c % 16)];
        reclen := reclen + 1;
        count := count - 1;
      }
      if reclen == PER_RECORD || count == 0 {
        if reclen != 0 {
          var record := BuildRecord(address, reclen, data, checksum, memory[p..p + reclen]);
          RecordsStep(address, memory, p, reclen);
          Reassociate(lines, record, Records(address + reclen, memory[p + reclen..]));
          lines := lines + [record];
        }
        address := address + reclen;
        p := p + reclen;
        checksum, reclen, data := 0, 0, "";
        DataStart(memory, p);
      }
      if count == 0 {
        break;
      }
    }
    RecordsNone(address);
    assert memory[p..] == [];
    lines := lines + [END];
  }

  lemma Reassociate(a: seq<string>, r: string, b: seq<string>)
    ensures a + ([r] + b) == (a + [r]) + b
  {}

  lemma DataStart(memory: seq<Byte>, p: nat)
    requires p <= |memory|
    ensures HexAll(memory[p..p]) == "" && Sum(memory[p..p]) == 0
  {}

  lemma DataStep(memory: seq<Byte>, p: nat, k: nat)
    requires p + k < |memory|
    ensures HexAll(memory[p..p + k + 1]) == HexAll(memory[p..p + k]) + Hex(memory[p + k])
    ensures Sum(memory[p..p + k + 1]) == Sum(memory[p..p + k]) + memory[p + k]
  {
    assert memory[p..p + k + 1][..k] == memory[p..p + k];
  }

  lemma RecordsNone(address: nat)
    requires address <= 0x1_0000_0000
    ensures Records(address, []) == []
  {}

  lemma RecordsStep(address: nat, memory: seq<Byte>, p: nat, k: nat)
    requires 0 < k <= PER_RECORD && p + k <= |memory| && (k == PER_RECORD || p + k == |memory|)
    requires address + |memory| - p <= 0x1_0000_0000
    ensures Records(address, memory[p..]) == [Record(address, memory[p..p + k])] + Records(address + k, memory[p + k..])
  {
    hide Record;
    assert memory[p..][..k] == memory[p..p + k] && memory[p..][k..] == memory[p + k..];
  }

  lemma SumAddress(a: nat)
    requires a < 0x1_0000_0000
    ensures Sum(AddressBytes(a)) == a % 256 + a / 0x100 % 256 + a / 0x1_0000 % 256 + a / 0x100_0000 % 256
  {
    hide Sum;
    DivideTwice(a);
    DivideTwice(a / 256);
    var s := AddressBytes(a);
    SumFour(s[0], s[1], s[2], s[3]);
  }

  lemma SumOne(x: Byte)
    ensures Sum([x]) == x
  {
    assert [x][..0] == [];
  }

  lemma SumFour(x: Byte, y: Byte, z: Byte, w: Byte)
    ensures Sum([x, y, z, w]) == x as int + y + z + w
  {
    hide Sum;
    SumOne(x);
    SumSnoc([x], y);
    SumSnoc([x] + [y], z);
    SumSnoc([x] + [y] + [z], w);
    assert [x] + [y] + [z] + [w] == [x, y, z, w];
  }

  lemma {:induction false} SumConcat(a: seq<Byte>, b: seq<Byte>)
    ensures Sum(a + b) == Sum(a) + Sum(b)
    decreases |b|
  {
    if b == [] {
      assert a + b == a;
    } else {
      assert (a + b)[..|a + b| - 1] == a + b[..|b| - 1];
      SumConcat(a, b[..|b| - 1]);
    }
  }

  lemma HexOne(b: Byte)
    ensures HexAll([b]) == Hex(b)
  {
    assert [b][..0] == [];
  }

  /** A record for every sixteen bytes begun. */
  lemma {:induction false} RecordCount(address: nat, bytes: seq<Byte>)
    requires address + |bytes| <= 0x1_0000_0000
    ensures |Records(address, bytes)| == (|bytes| + 15) / 16
    decreases |bytes|
  {
    hide Record;
    if bytes == [] {
    } else {
      var k := if |bytes| < PER_RECORD then |bytes| else PER_RECORD;
      RecordCount(address + k, bytes[k..]);
    }
  }

  lemma FourBytes(w: Byte, x: Byte, y: Byte, z: Byte)
    ensures HexAll([w, x, y, z]) == Hex(w) + Hex(x) + Hex(y) + Hex(z)
  {
    hide Hex;
    HexOne(w);
    assert [w, x] == [w] + [x] && [w, x, y] == [w, x] + [y] && [w, x, y, z] == [w, x, y] + [z];
    HexOne(x);
    HexOne(y);
    HexOne(z);
    hide HexAll;
    HexConcat([w], [x]);
    HexConcat([w, x], [y]);
    HexConcat([w, x, y], [z]);
  }

  lemma TwoBytes(x: Byte, y: Byte)
    ensures HexAll([x, y]) == Hex(x) + Hex(y) && Sum([x, y]) == x as int + y
  {
    hide Hex;
    HexOne(x);
    HexOne(y);
    assert [x, y] == [x] + [y];
    HexConcat([x], [y]);
    SumOne(x);
    SumSnoc([x], y);
  }

  lemma ExampleDigits()
    ensures Hex(0x80) == "80" && Hex(0) == "00" && Hex(0x48) == "48" && Hex(0x69) == "69" && Hex(7) == "07" && Hex(0xC7) == "C7"
  {}

  lemma ExampleCheck()
    ensures CheckByte(0x8000_0000, [0x48, 0x69]) == 0xC7
  {
    hide HexAll, Sum, Covered, Hex;
    CoveredParts(0x8000_0000, [0x48, 0x69]);
    TwoBytes(0x48, 0x69);
    SumFour(0x80, 0, 0, 0);
    assert AddressBytes(0x8000_0000) == [0x80, 0, 0, 0];
  }

  lemma ExampleAddress()
    ensures HexAddress(0x8000_0000) == "80000000"
  {
    hide HexAll;
    assert AddressBytes(0x8000_0000) == [0x80, 0, 0, 0];
    FourBytes(0x80, 0, 0, 0);
    ExampleDigits();
  }

  /** The record for the two bytes 48 69 (hexadecimal) at 80000000. */
  lemma RecordExample()
    ensures Record(0x8000_0000, [0x48, 0x69]) == "S3" + "07" + "80000000" + "4869" + "C7" + "\n"
  {
    hide HexAll, Hex, HexAddress, CheckByte;
    ExampleDigits();
    ExampleCheck();
    ExampleAddress();
    TwoBytes(0x48, 0x69);
    assert "48" + "69" == "4869";
  }

  lemma OuterDigits()
    ensures Hex(3) == "03" && Hex(0) == "00" && Hex(0xFC) == "FC" && Hex(5) == "05" && Hex(0xFA) == "FA"
  {}

  /** The first and the last line are records too: their bytes sum to 0xff. */
  lemma FirstLine()
    ensures START == "S0" + HexAll([3, 0, 0, 0xFC]) + "\n" && Sum([3, 0, 0, 0xFC]) == 0xFF
  {
    hide HexAll, Sum, Hex;
    FourBytes(3, 0, 0, 0xFC);
    SumFour(3, 0, 0, 0xFC);
    OuterDigits();
  }

  lemma LastLine()
    ensures END == "S7" + HexAll([5, 0, 0, 0] + [0, 0xFA]) + "\n" && Sum([5, 0, 0, 0] + [0, 0xFA]) == 0xFF
  {
    hide HexAll, Sum, Hex;
    FourBytes(5, 0, 0, 0);
    TwoBytes(0, 0xFA);
    HexConcat([5, 0, 0, 0], [0, 0xFA]);
    SumConcat([5, 0, 0, 0], [0, 0xFA]);
    SumFour(5, 0, 0, 0);
    OuterDigits();
  }
}
