/** Motorola S-records as text: what `save_serial` writes and what `srec_decode` reads back. */
module SRecordText {
  import opened Common

  const BYTES_PER_RECORD: nat := 16
  const RECORD_BUFFER: nat := 2 * BYTES_PER_RECORD + 16
  const SREC_MAXRECLEN: nat := 512 + 4
  const START_LINE: string := "S0030000FC"
  const END_LINE: string := "S70500000000FA"

  // ----- hexadecimal

  function HexDigit(n: nat): (c: char)
    requires n < 16
    ensures '0' <= c <= '9' || 'A' <= c <= 'F'
  {
    if n < 10 then ('0' as nat + n) as char else ('A' as nat + n - 10) as char
  }

  /** `hex1_bin` and `hex2_bin`: -1 for a character that is no digit, the terminator included. */
  function Hex1Bin(c: char): (v: int)
    ensures -1 <= v < 16
  {
    if '0' <= c <= '9' then c as int - '0' as int
    else if 'a' <= c <= 'f' then c as int + 10 - 'a' as int
    else if 'A' <= c <= 'F' then c as int + 10 - 'A' as int
    else -1
  }

  function Hex2Bin(s: string): (v: int)
    ensures -1 <= v < 256 && (v >= 0 ==> |s| >= 2)
  {
    if |s| < 2 || Hex1Bin(s[0]) < 0 || Hex1Bin(s[1]) < 0 then -1
    else Hex1Bin(s[0]) * 16 + Hex1Bin(s[1])
  }

  function HexByte(b: byte): (s: string)
    ensures |s| == 2
  {
    [HexDigit(b / 16), HexDigit(b % 16)]
  }

  lemma HexByteRoundTrip(b: byte, rest: string)
    ensures Hex2Bin(HexByte(b) + rest) == b && (HexByte(b) + rest)[2..] == rest
  {
  }

  function HexStr(b: seq<byte>): (s: string)
    ensures |s| == 2 * |b|
  {
    if b == [] then "" else HexByte(b[0]) + HexStr(b[1..])
  }

  lemma {:induction false} HexStrAppend(a: seq<byte>, b: seq<byte>)
    ensures HexStr(a + b) == HexStr(a) + HexStr(b)
  {
    hide HexByte;
    if a == [] {
      assert a + b == b;
    } else {
      HexStrAppend(a[1..], b);
      assert (a + b)[1..] == a[1..] + b;
      assert HexStr(a + b) == HexByte(a[0]) + HexStr((a + b)[1..]);
    }
  }

  /** `%0nX` of a value that fits. */
  function HexNumber(v: nat, n: nat): (s: string)
    ensures |s| == n
  {
    if n == 0 then "" else HexNumber(v / 16, n - 1) + [HexDigit(v % 16)]
  }

  /** Big-endian bytes of a 32-bit address, and their value. */
  function AddressBytes(a: nat): (b: seq<byte>)
    requires a < WRAP
    ensures |b| == 4
  {
    [a / 0x100_0000 % 256, a / 0x1_0000 % 256, a / 256 % 256, a % 256]
  }

  function Value(b: seq<byte>): nat {
    if b == [] then 0 else Value(b[..|b| - 1]) * 256 + b[|b| - 1]
  }

  lemma AddressParts(a: nat)
    requires a < WRAP
    ensures (var b := AddressBytes(a); ((b[0] as int * 256 + b[1]) * 256 + b[2]) * 256 + b[3] == a)
  {
    var q := a / 256;
    var r := q / 256;
    assert r == a / 0x1_0000 && r / 256 == a / 0x100_0000 && r / 256 < 256;
  }

  lemma AddressRoundTrip(a: nat)
    requires a < WRAP
    ensures Value(AddressBytes(a)) == a
  {
    hide AddressBytes;
    AddressParts(a);
    var b := AddressBytes(a);
    assert b[..3][..2] == b[..2] && b[..2][..1] == b[..1];
    assert Value(b[..1]) == b[0] by {
      assert b[..1][..0] == [];
    }
    assert Value(b[..2]) == b[0] as int * 256 + b[1] by {
      assert b[..2][..1] == b[..1];
    }
    assert Value(b[..3]) == (b[0] as int * 256 + b[1]) * 256 + b[2] by {
      assert b[..3][..2] == b[..2];
    }
  }

  lemma AddressText(a: nat)
    requires a < WRAP
    ensures HexNumber(a, 8) == HexStr(AddressBytes(a))
  {
    hide HexNumber, HexByte, HexStr;
    var b0, b1, b2 := a / 256, a / 0x1_0000, a / 0x100_0000;
    assert b0 / 256 == b1 && b1 / 256 == b2 && b2 / 256 == 0 && b2 % 256 == b2;
    PairStep(a, 6);
    PairStep(b0, 4);
    PairStep(b1, 2);
    PairStep(b2, 0);
    HexNumberNone(0);
    HexStrFour(AddressBytes(a));
  }

  lemma HexNumberNone(v: nat)
    ensures HexNumber(v, 0) == ""
  {
  }

  lemma PairStep(v: nat, n: nat)
    ensures HexNumber(v, n + 2) == HexNumber(v / 256, n) + HexByte(v % 256)
  {
    assert HexNumber(v, n + 2) == HexNumber(v / 16, n + 1) + [HexDigit(v % 16)];
    assert HexNumber(v / 16, n + 1) == HexNumber(v / 16 / 16, n) + [HexDigit(v / 16 % 16)];
    assert v / 16 / 16 == v / 256 && v / 16 % 16 == v % 256 / 16 && v % 16 == v % 256 % 16;
  }

  lemma HexStrFour(b: seq<byte>)
    requires |b| == 4
    ensures HexStr(b) == HexByte(b[0]) + HexByte(b[1]) + HexByte(b[2]) + HexByte(b[3])
  {
    hide HexByte;
    assert b[1..][1..] == b[2..] && b[2..][1..] == b[3..] && b[3..][1..] == [];
    assert HexStr(b[3..]) == HexByte(b[3]);
    assert HexStr(b[2..]) == HexByte(b[2]) + HexStr(b[3..]);
    assert HexStr(b[1..]) == HexByte(b[1]) + HexStr(b[2..]);
  }

  // ----- writing

  /** One's complement of the low byte of a sum. */
  function Complement(sum: nat): byte {
    255 - sum % 256
  }

  /** `SREC3_FORMAT` without its line feed. */
  function DataLine(addr: nat, data: seq<byte>): string
    requires addr < WRAP && |data| < 251
  {
    var length := 4 + |data| + 1;
    var sum := Sum(data) + length + Sum(AddressBytes(addr));
    "S3" + HexByte(length) + HexNumber(addr, 8) + HexStr(data) + HexByte(Complement(sum))
  }

  /** A data record, its line feed and its terminator fill the record buffer exactly at worst. */
  lemma RecordFits(addr: nat, data: seq<byte>)
    requires addr < WRAP && |data| <= BYTES_PER_RECORD
    ensures |DataLine(addr, data)| + 2 <= RECORD_BUFFER
    ensures |DataLine(addr, data)| + 2 == RECORD_BUFFER <==> |data| == BYTES_PER_RECORD
  {
  }

  // ----- reading

  datatype Decoded =
    | Start | Data(addr: nat, data: seq<byte>) | Count | End(addr: nat) | Empty
    | BadType | NoRecord | BadChecksum

  /** The input after its first 'S'. */
  function SkipS(s: string): string {
    if s == "" then "" else if s[0] == 'S' then s[1..] else SkipS(s[1..])
  }

  /** Number of address bytes of a record type, 0 for a type that does not exist. */
  function AddressLength(kind: char): nat {
    if kind in "37" then 4 else if kind in "28" then 3 else if kind in "0159" then 2 else 0
  }

  /** The first `n` bytes in hexadecimal, or nothing when a digit is bad or missing. */
  function HexBytes(s: string, n: nat): (b: (bool, seq<byte>))
    ensures b.0 ==> |b.1| == n
  {
    if n == 0 then (true, [])
    else if Hex2Bin(s) < 0 then (false, [])
    else
      var (ok, rest) := HexBytes(s[2..], n - 1);
      (ok, [Hex2Bin(s)] + rest)
  }

  /** What a well-formed record of a type means. */
  function Meaning(kind: char, addr: nat, data: seq<byte>): Decoded {
    if kind == '0' then Start
    else if kind in "123" then Data(addr, data)
    else if kind == '5' then Count
    else End(addr)
  }

  /** `srec_decode`: the length byte, the address, the data and the check of the sum over all of them. */
  function Decode(input: string): Decoded {
    var s := SkipS(input);
    if s == "" then Empty
    else if Hex2Bin(s[1..]) < 0 then NoRecord
    else if AddressLength(s[0]) == 0 then BadType
    else
      var length, a := Hex2Bin(s[1..]), AddressLength(s[0]);
      var count := if s[0] == '5' || length < a + 1 then 0 else length - a - 1;
      var (ok, b) := HexBytes(s[3..], a + count + 1);
      if !ok then NoRecord
      else if b[a + count] != Complement(length + Sum(b[..a + count])) then BadChecksum
      else Meaning(s[0], Value(b[..a]), b[a..a + count])
  }

  lemma {:induction false} HexBytesRoundTrip(b: seq<byte>)
    ensures HexBytes(HexStr(b), |b|) == (true, b)
  {
    hide HexByte, Hex2Bin;
    if b != [] {
      HexByteRoundTrip(b[0], HexStr(b[1..]));
      HexBytesRoundTrip(b[1..]);
      assert b == [b[0]] + b[1..];
    }
  }

  /** A line built from a type, a length, an address field, data and a checksum. */
  function Line(kind: char, address: seq<byte>, data: seq<byte>): string
    requires |address| + |data| < 255
  {
    var length := |address| + |data| + 1;
    "S" + [kind] + HexByte(length) + HexStr(address + data + [Complement(length + Sum(address + data))])
  }

  lemma SkipOne(s: string)
    ensures SkipS("S" + s) == s
  {
  }

  /** Decoding, with the parts of the line given. */
  lemma DecodeParts(input: string, s: string, length: nat, all: seq<byte>)
    requires SkipS(input) == s && s != "" && Hex2Bin(s[1..]) == length && AddressLength(s[0]) > 0
    requires |all| == length && length > AddressLength(s[0])
    requires s[0] == '5' ==> length == AddressLength(s[0]) + 1
    requires HexBytes(s[3..], length) == (true, all) && all[length - 1] == Complement(length + Sum(all[..length - 1]))
    ensures Decode(input)
      == Meaning(s[0], Value(all[..AddressLength(s[0])]), all[AddressLength(s[0])..length - 1])
  {
    hide Hex2Bin, HexBytes, Sum, Value, Meaning, Complement, AddressLength, SkipS;
    var a := AddressLength(s[0]);
    var count := if s[0] == '5' || length < a + 1 then 0 else length - a - 1;
    assert a + count + 1 == length;
  }

  lemma Peel(kind: char, x: string, y: string)
    requires |x| == 2
    ensures (var s := [kind] + x + y;
             "S" + [kind] + x + y == "S" + s && s[0] == kind && s[1..] == x + y && s[3..] == y)
  {
  }

  lemma Fields(address: seq<byte>, data: seq<byte>, check: byte)
    ensures (var all := address + data + [check];
             && |all| == |address| + |data| + 1 && all[|all| - 1] == check && all[..|all| - 1] == address + data
             && all[..|address|] == address && all[|address|..|all| - 1] == data)
  {
  }

  /** Every such line decodes to what it was built from: its length byte and its checksum are right. */
  lemma LineDecodes(kind: char, address: seq<byte>, data: seq<byte>)
    requires |address| == AddressLength(kind) > 0 && |address| + |data| < 255 && (kind == '5' ==> data == [])
    ensures Decode(Line(kind, address, data)) == Meaning(kind, Value(address), data)
  {
    hide HexByte, Hex2Bin, HexStr, HexBytes, Sum, Value, Meaning, Complement, AddressLength, Decode, SkipS;
    var length := |address| + |data| + 1;
    var body := address + data;
    var all := body + [Complement(length + Sum(body))];
    var s := [kind] + HexByte(length) + HexStr(all);
    Peel(kind, HexByte(length), HexStr(all));
    SkipOne(s);
    HexByteRoundTrip(length, HexStr(all));
    HexBytesRoundTrip(all);
    Fields(address, data, Complement(length + Sum(body)));
    DecodeParts("S" + s, s, length, all);
  }

  lemma DataLineIsLine(addr: nat, data: seq<byte>)
    requires addr < WRAP && |data| < 251
    ensures DataLine(addr, data) == Line('3', AddressBytes(addr), data)
  {
    hide HexByte, HexNumber, HexStr, Sum, AddressBytes;
    var address, length := AddressBytes(addr), 4 + |data| + 1;
    var ck := Complement(length + Sum(address + data));
    SumConcat(address, data);
    AddressText(addr);
    HexStrAppend(address + data, [ck]);
    HexStrAppend(address, data);
    HexStrOne(ck);
    assert "S3" == "S" + ['3'];
  }

  lemma HexStrOne(b: byte)
    ensures HexStr([b]) == HexByte(b)
  {
  }

  lemma {:induction false} DataLineDecodes(addr: nat, data: seq<byte>)
    requires addr < WRAP && |data| < 251
    ensures Decode(DataLine(addr, data)) == Data(addr, data)
  {
    hide DataLine, Line, Decode, Value, AddressBytes;
    DataLineIsLine(addr, data);
    LineDecodes('3', AddressBytes(addr), data);
    AddressRoundTrip(addr);
  }
}
