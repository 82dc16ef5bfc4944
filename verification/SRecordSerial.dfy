/** The loops of `save_serial`, `read_record` and `load_serial` over memory and the serial line. */
module SRecordSerial {
  import opened Common
  import opened SRecordText
  import opened SRecordLoad

  /** What the byte loops over a length or an address add to a checksum. */
  function LowBytes(v: nat, n: nat): nat {
    if n == 0 then 0 else v % 256 + LowBytes(v / 256, n - 1)
  }

  lemma LowBytesOfAddress(a: nat)
    requires a < WRAP
    ensures LowBytes(a, 4) == Sum(AddressBytes(a))
  {
    hide AddressBytes;
    var b := AddressBytes(a);
    LowBytesFour(a);
    SumFour(b);
    AddressBytesAre(a);
  }

  lemma AddressBytesAre(a: nat)
    requires a < WRAP
    ensures (var b := AddressBytes(a);
             b[3] == a % 256 && b[2] == a / 256 % 256
             && b[1] == a / 256 / 256 % 256 && b[0] == a / 256 / 256 / 256 % 256)
  {
  }

  lemma LowBytesFour(a: nat)
    ensures LowBytes(a, 4) == a % 256 + a / 256 % 256 + a / 256 / 256 % 256 + a / 256 / 256 / 256 % 256
  {
    var q := a / 256;
    assert LowBytes(q / 256 / 256, 1) == q / 256 / 256 % 256;
    assert LowBytes(q / 256, 2) == q / 256 % 256 + LowBytes(q / 256 / 256, 1);
    assert LowBytes(q, 3) == q % 256 + LowBytes(q / 256, 2);
  }

  lemma SumFour(b: seq<byte>)
    requires |b| == 4
    ensures Sum(b) == b[0] as int + b[1] as int + b[2] as int + b[3] as int
  {
    assert b[..3][..2] == b[..2] && b[..2][..1] == b[..1] && b[..1][..0] == [];
    assert Sum(b[..1]) == b[0] as int;
    assert Sum(b[..2]) == b[0] as int + b[1] as int;
  }

  lemma LowBytesOfLength(n: nat)
    requires n < 256
    ensures LowBytes(n, 2) == n
  {
    assert LowBytes(n / 256, 1) == 0;
  }

  /** One more byte at the end of a record. */
  lemma Collected(b: seq<byte>, c: byte)
    ensures HexStr(b + [c]) == HexStr(b) + HexByte(c) && Sum(b + [c]) == Sum(b) + c
  {
    HexStrAppend(b, [c]);
    HexStrOne(c);
    assert (b + [c])[..|b + [c]| - 1] == b;
  }

  lemma EmptyBytes()
    ensures HexStr([]) == "" && Sum([]) == 0
  {
  }

  /** The next record of a region still to be saved. */
  lemma DataLinesStep(m: seq<byte>, address: nat, end: nat, n: nat)
    requires address + n <= end <= |m| && end <= WRAP && 0 < n <= BYTES_PER_RECORD
    requires n == BYTES_PER_RECORD || address + n == end
    ensures DataLines(address, m[address..end])
      == DataLine(address, m[address..address + n]) + "\n" + DataLines(address + n, m[address + n..end])
  {
    hide DataLine;
    var d := m[address..end];
    assert d[..n] == m[address..address + n] && d[n..] == m[address + n..end];
  }

  lemma SavedText(before: string, text: string)
    ensures before + (START_LINE + "\n") + text + (END_LINE + "\n")
      == before + (START_LINE + "\n" + text + END_LINE + "\n")
  {
  }

  function Before(s: string, r: (bool, string, string)): (bool, string, string) {
    (r.0, s + r.1, r.2)
  }

  lemma BeforeNothing(r: (bool, string, string))
    ensures Before("", r) == r
  {
    assert "" + r.1 == r.1;
  }

  lemma BeforeAppends(s: string, c: char, r: (bool, string, string))
    ensures Before(s, Before([c], r)) == Before(s + [c], r)
  {
    assert s + ([c] + r.1) == s + [c] + r.1;
  }

  /** One character of `read_record`. */
  lemma ReadStep(text: string, room: nat)
    ensures room == 0 ==> ReadRecord(text, room) == (true, "", text)
    ensures room > 0 && (text == "" || ((text[0] == '\0' || text[0] == 3 as char) && !LineFeed(text[0])))
      ==> !ReadRecord(text, room).0
    ensures room > 0 && text != "" && LineFeed(text[0]) ==> ReadRecord(text, room) == (true, "", text[1..])
    ensures (room > 0 && text != "" && text[0] != '\0' && text[0] != 3 as char && !LineFeed(text[0])
             ==> ReadRecord(text, room) == Before([text[0]], ReadRecord(text[1..], room - 1)))
  {
  }

  lemma ParseStep(text: string)
    ensures (var (ok, line, rest) := ReadRecord(text, SREC_MAXRECLEN);
             Parse(text) == if ok then [Decode(line)] + Parse(rest) else [])
  {
    hide ReadRecord, Decode;
  }

  /** One record of a load. */
  lemma RunStep(recs: seq<Decoded>, offset: int, st: Load)
    requires |st.mem| == WRAP
    ensures Run(recs, offset, st)
      == if recs == [] then (st, Aborted)
         else match recs[0]
           case Data(addr, data) => Run(recs[1..], offset, Place(st, (addr + offset) % WRAP, data))
           case End(addr) => (st, Loaded(addr, st.first, st.last, (st.last + WRAP - st.first + 1) % WRAP))
           case BadType => (st, Aborted)
           case NoRecord => (st, Aborted)
           case BadChecksum => (st, Aborted)
           case _ => Run(recs[1..], offset, st)
  {
  }

  class Monitor {
    const mem: array<byte>
    const data: array<char>
    const record: array<char>
    var line: string

    constructor ()
      ensures Shape() && line == "" && fresh(mem) && fresh(data) && fresh(record)
    {
      mem := new byte[WRAP];
      data, record := new char[2 * BYTES_PER_RECORD + 1], new char[SREC_MAXRECLEN + 1];
      line := "";
    }

    /** The sizes of memory and of the buffers. */
    predicate Shape() {
      && mem.Length == WRAP && data.Length == 2 * BYTES_PER_RECORD + 1 && record.Length == SREC_MAXRECLEN + 1
      && data != record
    }

    /** `checksum += (v >> (8*i)) & 0xff` for each of `n` bytes. */
    method AddBytes(checksum: nat, v: nat, n: nat) returns (sum: nat)
      ensures sum == checksum + LowBytes(v, n)
    {
      sum := checksum;
      var shifted := v;
      for i := 0 to n
        invariant sum + LowBytes(shifted, n - i) == checksum + LowBytes(v, n)
      {
        sum := sum + shifted % 256;
        shifted := shifted / 256;
      }
    }

    /** The record being collected holds the `reclen` bytes from `address` on. */
    predicate Collecting(address: nat, reclen: nat, checksum: nat)
      requires Shape() && reclen <= BYTES_PER_RECORD && address + reclen <= WRAP
      reads mem, data
    {
      && data[..2 * reclen] == HexStr(mem[address..address + reclen])
      && checksum == Sum(mem[address..address + reclen])
    }

    /** Collect one byte of a record in hexadecimal. */
    method Collect(address: nat, reclen: nat, checksum: nat) returns (sum: nat)
      requires Shape() && reclen < BYTES_PER_RECORD && address + reclen < WRAP
      requires Collecting(address, reclen, checksum)
      modifies data
      ensures Collecting(address, reclen + 1, sum)
    {
      hide HexStr, Sum;
      var c := mem[address + reclen];
      ghost var bytes := mem[address..address + reclen];
      assert mem[address..address + (reclen + 1)] == bytes + [c];
      Collected(bytes, c);
      ghost var was := data[..2 * reclen];
      data[2 * reclen] := HexDigit(c / 16);
      data[2 * reclen + 1] := HexDigit(c % 16);
      data[2 * reclen + 2] := '\0';
      assert data[..2 * reclen] == was;
      assert data[..2 * (reclen + 1)] == was + HexByte(c);
      sum := checksum + c;
    }

    /** Build and send one data record; the formatted text fits its buffer. */
    method Dump(address: nat, reclen: nat, checksum: nat)
      requires Shape() && 0 < reclen <= BYTES_PER_RECORD && address + reclen <= WRAP
      requires Collecting(address, reclen, checksum)
      modifies this`line
      ensures line == old(line) + DataLine(address, mem[address..address + reclen]) + "\n"
    {
      hide HexStr, HexByte, HexNumber, Sum, LowBytes, AddressBytes;
      ghost var bytes := mem[address..address + reclen];
      var length := 4 + reclen + 1;
      var sum := AddBytes(checksum, length, 2);
      sum := AddBytes(sum, address, 4);
      LowBytesOfLength(length);
      LowBytesOfAddress(address);
      var text := "S3" + HexByte(length) + HexNumber(address, 8) + data[..2 * reclen] + HexByte(Complement(sum)) + "\n";
      assert text == DataLine(address, bytes) + "\n";
      assert |text| + 1 <= RECORD_BUFFER;
      assert line + (DataLine(address, bytes) + "\n") == line + DataLine(address, bytes) + "\n";
      line := line + text;
    }

    /** The records of the bytes from `address` up to `end`. */
    function Unsaved(address: nat, end: nat): string
      requires Shape() && address <= end <= WRAP
      reads mem
    {
      DataLines(address, mem[address..end])
    }

    /** Send a collected record: what was sent and what is still unsaved make up the same text. */
    method Flush(address: nat, reclen: nat, checksum: nat, ghost end: nat)
      requires Shape() && 0 < reclen <= BYTES_PER_RECORD && address + reclen <= end <= WRAP
      requires reclen == BYTES_PER_RECORD || address + reclen == end
      requires Collecting(address, reclen, checksum)
      modifies this`line
      ensures line + Unsaved(address + reclen, end) == old(line) + old(Unsaved(address, end))
    {
      hide DataLine, DataLines, Collecting;
      ghost var was, l := line, DataLine(address, mem[address..address + reclen]);
      Dump(address, reclen, checksum);
      DataLinesStep(mem[..], address, end, reclen);
      assert mem[..][address..end] == mem[address..end];
      assert mem[..][address + reclen..end] == mem[address + reclen..end];
      assert mem[..][address..address + reclen] == mem[address..address + reclen];
      assert was + l + "\n" + Unsaved(address + reclen, end) == was + (l + "\n" + Unsaved(address + reclen, end));
    }

    /** `save_serial`: the region goes out as one S-record text. */
    method SaveSerial(address0: nat, count0: nat)
      requires Shape() && address0 + count0 <= WRAP
      modifies this`line, data
      ensures line == old(line) + SaveText(address0, mem[address0..address0 + count0])
    {
      hide DataLines, Collecting, Unsaved;
      var address, count, reclen: nat, checksum: nat := address0, count0, 0, 0;
      ghost var end := address0 + count0;
      ghost var text := Unsaved(address0, end);
      line := line + (START_LINE + "\n");
      ghost var base := line;
      NothingCollected(address);
      while true
        invariant address + reclen + count == end && address0 <= address && reclen < BYTES_PER_RECORD
        invariant Collecting(address, reclen, checksum)
        invariant count == 0 ==> reclen == 0
        invariant line + Unsaved(address, end) == base + text
        decreases count
      {
        if count > 0 {
          checksum := Collect(address, reclen, checksum);
          reclen := reclen + 1;
          count := count - 1;
        }
        if reclen == BYTES_PER_RECORD || count == 0 {
          if reclen > 0 {
            Flush(address, reclen, checksum, end);
          }
          address := address + reclen;
          checksum, reclen := 0, 0;
          NothingCollected(address);
        }
        if count == 0 { break; }
      }
      NothingUnsaved(end);
      assert line + "" == line;
      line := line + (END_LINE + "\n");
      UnsavedIs(address0, end);
      SavedText(old(line), text);
    }

    lemma UnsavedIs(address: nat, end: nat)
      requires Shape() && address <= end <= WRAP
      ensures Unsaved(address, end) == DataLines(address, mem[address..end])
    {
    }

    lemma NothingUnsaved(end: nat)
      requires Shape() && end <= WRAP
      ensures Unsaved(end, end) == ""
    {
      assert mem[end..end] == [];
    }

    lemma NothingCollected(address: nat)
      requires Shape() && address <= WRAP
      ensures Collecting(address, 0, 0)
    {
      EmptyBytes();
      assert mem[address..address + 0] == [] && data[..0] == "";
    }

    /** `read_record`: the length of the next line, or -1; the line is in the record buffer. */
    method ReadLine(input: string, pos: nat) returns (n: int, next: nat)
      requires Shape() && pos <= |input|
      modifies record
      ensures n >= 0 <==> ReadRecord(input[pos..], SREC_MAXRECLEN).0
      ensures pos <= next <= |input| && -1 <= n <= SREC_MAXRECLEN
      ensures n >= 0 ==> ReadRecord(input[pos..], SREC_MAXRECLEN) == (true, record[..n], input[next..]) && next > pos
    {
      hide ReadRecord, LineFeed;
      n, next := 0, pos;
      BeforeNothing(ReadRecord(input[pos..], SREC_MAXRECLEN));
      assert record[..0] == "";
      while n < SREC_MAXRECLEN
        invariant 0 <= n <= SREC_MAXRECLEN && next == pos + n <= |input|
        invariant ReadRecord(input[pos..], SREC_MAXRECLEN)
          == Before(record[..n], ReadRecord(input[next..], SREC_MAXRECLEN - n))
      {
        ReadStep(input[next..], SREC_MAXRECLEN - n);
        if next == |input| {
          return -1, next;
        }
        var c := input[next];
        assert input[next..][1..] == input[next + 1..];
        next := next + 1;
        if LineFeed(c) {
          ghost var line := record[..n];
          record[n] := '\0';
          assert record[..n] == line && line + "" == line;
          return;
        }
        if c == '\0' || c == 3 as char {
          return -1, next;
        }
        ghost var line := record[..n];
        record[n] := c;
        n := n + 1;
        assert record[..n] == line + [c];
        BeforeAppends(line, c, ReadRecord(input[next..], SREC_MAXRECLEN - n));
      }
      ReadStep(input[next..], 0);
      ghost var line := record[..n];
      record[n] := '\0';
      assert record[..n] == line && line + "" == line;
    }

    /** `memcpy` to a 32-bit address. */
    method Copy(at: nat, data: seq<byte>)
      requires Shape()
      modifies mem
      ensures mem[..] == Stored(old(mem[..]), at, data)
    {
      ghost var was := mem[..];
      for i := 0 to |data|
        invariant mem[..] == Stored(was, at, data[..i])
      {
        assert data[..i + 1][..i] == data[..i];
        mem[(at + i) % WRAP] := data[i];
      }
      assert data[..|data|] == data;
    }

    /** `load_serial`: memory, the entry point and the reported bounds are those of the text's records. */
    method LoadSerial(input: string, offset: int) returns (r: Result)
      requires Shape()
      modifies mem, record
      ensures (var (st, result) := LoadText(input, offset, old(mem[..])); mem[..] == st.mem && r == result)
    {
      hide ReadRecord, Decode, Stored, Parse, Run;
      var start: nat, end: nat, pos: nat := WRAP - 1, 0, 0;
      ghost var was := mem[..];
      assert input[0..] == input;
      while true
        invariant pos <= |input|
        invariant LoadText(input, offset, was) == Run(Parse(input[pos..]), offset, Load(mem[..], start, end))
        decreases |input| - pos
      {
        ghost var text, st := input[pos..], Load(mem[..], start, end);
        var n, next := ReadLine(input, pos);
        ParseStep(text);
        RunStep(Parse(text), offset, st);
        if n < 0 {
          return Aborted;
        }
        pos := next;
        match Decode(record[..n])
        case Data(addr, data) =>
          var at := (addr + offset) % WRAP;
          Copy(at, data);
          start := if at < start then at else start;
          var top := (at + |data| + WRAP - 1) % WRAP;
          end := if top > end then top else end;
        case End(addr) =>
          return Loaded(addr, start, end, (end + WRAP - start + 1) % WRAP);
        case BadType => return Aborted;
        case NoRecord => return Aborted;
        case BadChecksum => return Aborted;
        case _ =>
      }
    }
  }
}
