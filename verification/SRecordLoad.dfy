/** `save_serial` and `load_serial`: a memory region written as S-records and loaded back at an offset. */
module SRecordLoad {
  import opened Common
  import opened SRecordText

  // ----- lines

  predicate LineFeed(c: char) {
    c == '\r' || c == '\n'
  }

  /** `read_record`: one line, cut at the buffer's size, and the unread input; nothing on NUL or control-C. */
  function ReadRecord(text: string, room: nat): (r: (bool, string, string))
    ensures r.0 ==> |r.2| <= |text| && (room > 0 ==> |r.2| < |text|)
    decreases room
  {
    if room == 0 then (true, "", text)
    else if text == "" || text[0] == '\0' || text[0] == 3 as char then (false, "", text)
    else if LineFeed(text[0]) then (true, "", text[1..])
    else
      var (ok, line, rest) := ReadRecord(text[1..], room - 1);
      (ok, [text[0]] + line, rest)
  }

  predicate PlainLine(line: string) {
    forall i :: 0 <= i < |line| ==> line[i] != '\0' && line[i] != 3 as char && !LineFeed(line[i])
  }

  lemma {:induction false} ReadPlainLine(line: string, rest: string, room: nat)
    requires PlainLine(line) && |line| < room
    ensures ReadRecord(line + "\n" + rest, room) == (true, line, rest)
    decreases |line|
  {
    var text := line + "\n" + rest;
    if line == "" {
      assert text == "\n" + rest;
    } else {
      assert text[1..] == line[1..] + "\n" + rest;
      ReadPlainLine(line[1..], rest, room - 1);
      assert line == [line[0]] + line[1..];
    }
  }

  /** All the records of a text. */
  function Parse(text: string): seq<Decoded>
    decreases |text|
  {
    var (ok, line, rest) := ReadRecord(text, SREC_MAXRECLEN);
    if ok then [Decode(line)] + Parse(rest) else []
  }

  lemma ParseLine(line: string, rest: string)
    requires PlainLine(line) && |line| < SREC_MAXRECLEN
    ensures Parse(line + "\n" + rest) == [Decode(line)] + Parse(rest)
  {
    hide ReadRecord, Decode, PlainLine;
    ReadPlainLine(line, rest, SREC_MAXRECLEN);
  }

  // ----- saving

  /** The data records of a region. */
  function DataLines(addr: nat, data: seq<byte>): string
    requires addr + |data| <= WRAP
    decreases |data|
  {
    if data == [] then ""
    else
      var n := Min(BYTES_PER_RECORD, |data|);
      DataLine(addr, data[..n]) + "\n" + DataLines(addr + n, data[n..])
  }

  function SaveText(addr: nat, data: seq<byte>): string
    requires addr + |data| <= WRAP
  {
    START_LINE + "\n" + DataLines(addr, data) + END_LINE + "\n"
  }

  /** The address and payload of each data record. */
  function Chunks(addr: nat, data: seq<byte>): seq<Decoded>
    decreases |data|
  {
    if data == [] then []
    else
      var n := Min(BYTES_PER_RECORD, |data|);
      [Data(addr, data[..n])] + Chunks(addr + n, data[n..])
  }

  predicate Upper(s: string) {
    forall i :: 0 <= i < |s| ==> s[i] == 'S' || '0' <= s[i] <= '9' || 'A' <= s[i] <= 'F'
  }

  lemma UpperIsPlain(s: string)
    requires Upper(s)
    ensures PlainLine(s)
  {
  }

  lemma {:induction false} HexStrUpper(b: seq<byte>)
    ensures Upper(HexStr(b))
  {
    if b != [] {
      HexStrUpper(b[1..]);
    }
  }

  lemma LineIsPlain(kind: char, address: seq<byte>, data: seq<byte>)
    requires '0' <= kind <= '9' && |address| + |data| < 255
    ensures PlainLine(Line(kind, address, data)) && |Line(kind, address, data)| < SREC_MAXRECLEN
  {
    hide HexStr, Sum;
    HexStrUpper(address + data + [Complement(|address| + |data| + 1 + Sum(address + data))]);
    UpperIsPlain(Line(kind, address, data));
  }

  lemma {:induction false} Zeros(b: seq<byte>)
    requires forall i :: 0 <= i < |b| ==> b[i] == 0
    ensures Sum(b) == 0
    ensures forall i :: 0 <= i < 2 * |b| ==> HexStr(b)[i] == '0'
  {
    if b != [] {
      SumZeros(b);
      Zeros(b[1..]);
    }
  }

  lemma {:induction false} SumZeros(b: seq<byte>)
    requires forall i :: 0 <= i < |b| ==> b[i] == 0
    ensures Sum(b) == 0
  {
    if b != [] {
      SumZeros(b[..|b| - 1]);
    }
  }

  /** A record with a zero address and no data. */
  lemma ZeroLine(kind: char, address: seq<byte>, check: byte)
    requires |address| < 10 && forall i :: 0 <= i < |address| ==> address[i] == 0
    requires check == Complement(|address| + 1)
    ensures Line(kind, address, [])
      == "S" + [kind] + HexByte(|address| + 1) + HexStr(address) + HexByte(check)
    ensures forall i :: 0 <= i < 2 * |address| ==> HexStr(address)[i] == '0'
  {
    hide HexStr, Sum, HexByte, Complement;
    Zeros(address);
    assert address + [] == address;
    HexStrAppend(address, [check]);
    HexStrOne(check);
  }

  /** The header and the end record are the records of their types with a zero address and no data. */
  lemma HeaderLine()
    ensures START_LINE == Line('0', [0, 0], [])
  {
    hide HexStr, Line;
    ZeroLine('0', [0, 0], 252);
    assert HexStr([0, 0]) == "0000";
    assert HexByte(3) == "03" && HexByte(252) == "FC";
  }

  lemma EndLine()
    ensures END_LINE == Line('7', [0, 0, 0, 0], [])
  {
    hide HexStr, Line;
    ZeroLine('7', [0, 0, 0, 0], 250);
    assert HexStr([0, 0, 0, 0]) == "00000000";
    assert HexByte(5) == "05" && HexByte(250) == "FA";
  }

  lemma FrameDecodes()
    ensures Decode(START_LINE) == Start && Decode(END_LINE) == End(0)
    ensures PlainLine(START_LINE) && PlainLine(END_LINE)
    ensures |START_LINE| < SREC_MAXRECLEN && |END_LINE| < SREC_MAXRECLEN
  {
    hide Decode, Line, Value, PlainLine;
    HeaderLine();
    EndLine();
    LineDecodes('0', [0, 0], []);
    LineDecodes('7', [0, 0, 0, 0], []);
    AddressRoundTrip(0);
    assert AddressBytes(0) == [0, 0, 0, 0];
    LineIsPlain('0', [0, 0], []);
    LineIsPlain('7', [0, 0, 0, 0], []);
  }

  /** Reading back what was saved: the header, the chunks of the region, and the end record. */
  lemma {:induction false} ParseDataLines(addr: nat, data: seq<byte>, rest: string)
    requires addr + |data| <= WRAP
    ensures Parse(DataLines(addr, data) + rest) == Chunks(addr, data) + Parse(rest)
    decreases |data|
  {
    hide Parse, DataLine, Decode, PlainLine, Line;
    if data == [] {
      assert DataLines(addr, data) + rest == rest;
      assert Chunks(addr, data) + Parse(rest) == Parse(rest);
    } else {
      var n := Min(BYTES_PER_RECORD, |data|);
      var line, more := DataLine(addr, data[..n]), DataLines(addr + n, data[n..]);
      DataLineIsLine(addr, data[..n]);
      LineIsPlain('3', AddressBytes(addr), data[..n]);
      ParseLine(line, more + rest);
      ParseDataLines(addr + n, data[n..], rest);
      DataLineDecodes(addr, data[..n]);
      assert DataLines(addr, data) + rest == line + "\n" + (more + rest);
      assert [Decode(line)] + (Chunks(addr + n, data[n..]) + Parse(rest))
        == [Decode(line)] + Chunks(addr + n, data[n..]) + Parse(rest);
    }
  }

  lemma ParseSaved(addr: nat, data: seq<byte>)
    requires addr + |data| <= WRAP
    ensures Parse(SaveText(addr, data)) == [Start] + Chunks(addr, data) + [End(0)]
  {
    hide Parse, Decode, PlainLine, DataLines, Chunks;
    FrameDecodes();
    var tail := END_LINE + "\n";
    assert SaveText(addr, data) == START_LINE + "\n" + (DataLines(addr, data) + tail);
    ParseLine(START_LINE, DataLines(addr, data) + tail);
    ParseDataLines(addr, data, tail);
    assert tail == END_LINE + "\n" + "";
    ParseLine(END_LINE, "");
    ParseEmpty();
  }

  lemma ParseEmpty()
    ensures Parse("") == []
  {
  }

  /** The payloads tile the region: each starts where the one before it ended, and together they are its bytes. */
  function Tiles(recs: seq<Decoded>, addr: nat): (r: (bool, seq<byte>))
    decreases |recs|
  {
    if recs == [] then (true, [])
    else if !recs[0].Data? || recs[0].addr != addr || recs[0].data == [] then (false, [])
    else
      var (ok, rest) := Tiles(recs[1..], addr + |recs[0].data|);
      (ok, recs[0].data + rest)
  }

  lemma {:induction false} ChunksTile(addr: nat, data: seq<byte>)
    ensures Tiles(Chunks(addr, data), addr) == (true, data)
    ensures |Chunks(addr, data)| == (|data| + 15) / 16
    decreases |data|
  {
    if data != [] {
      var n := Min(BYTES_PER_RECORD, |data|);
      ChunksTile(addr + n, data[n..]);
      assert data == data[..n] + data[n..];
    }
  }

  // ----- loading

  /** Memory with the bytes of one record stored from `at` on, in 32-bit addresses. */
  function Stored(mem: seq<byte>, at: nat, data: seq<byte>): (m: seq<byte>)
    requires |mem| == WRAP
    ensures |m| == WRAP
    decreases |data|
  {
    if data == [] then mem
    else Stored(mem, at, data[..|data| - 1])[(at + |data| - 1) % WRAP := data[|data| - 1]]
  }

  /** Memory and the bounds of what was loaded. */
  datatype Load = Load(mem: seq<byte>, first: nat, last: nat)

  datatype Result = Aborted | Loaded(entry: nat, first: nat, last: nat, size: nat)

  function Place(st: Load, at: nat, data: seq<byte>): (r: Load)
    requires |st.mem| == WRAP
    ensures |r.mem| == WRAP
  {
    var end := (at + |data| + WRAP - 1) % WRAP;
    Load(Stored(st.mem, at, data), Min(st.first, at), if end > st.last then end else st.last)
  }

  /** Loading a series of records: it ends at the first end record or the first bad one. */
  function Run(recs: seq<Decoded>, offset: int, st: Load): (r: (Load, Result))
    requires |st.mem| == WRAP
    ensures |r.0.mem| == WRAP
    decreases |recs|
  {
    if recs == [] then (st, Aborted)
    else
      match recs[0]
      case Data(addr, data) => Run(recs[1..], offset, Place(st, (addr + offset) % WRAP, data))
      case End(addr) => (st, Loaded(addr, st.first, st.last, (st.last + WRAP - st.first + 1) % WRAP))
      case BadType => (st, Aborted)
      case NoRecord => (st, Aborted)
      case BadChecksum => (st, Aborted)
      case _ => Run(recs[1..], offset, st)
  }

  function LoadText(text: string, offset: int, mem: seq<byte>): (Load, Result)
    requires |mem| == WRAP
  {
    Run(Parse(text), offset, Load(mem, WRAP - 1, 0))
  }

  lemma {:induction false} StoredIsRegion(mem: seq<byte>, at: nat, data: seq<byte>)
    requires |mem| == WRAP && at + |data| <= WRAP
    ensures Stored(mem, at, data) == mem[..at] + data + mem[at + |data|..]
    decreases |data|
  {
    if data == [] {
      assert mem == mem[..at] + [] + mem[at..];
    } else {
      var n := |data| - 1;
      StoredIsRegion(mem, at, data[..n]);
      assert (at + n) % WRAP == at + n;
      assert mem[at + n..][1..] == mem[at + n + 1..];
    }
  }

  lemma {:induction false} StoredAppends(mem: seq<byte>, at: nat, a: seq<byte>, b: seq<byte>)
    requires |mem| == WRAP
    ensures Stored(Stored(mem, at, a), at + |a|, b) == Stored(mem, at, a + b)
    decreases |b|
  {
    if b == [] {
      assert a + b == a;
    } else {
      assert (a + b)[..|a + b| - 1] == a + b[..|b| - 1];
      StoredAppends(mem, at, a, b[..|b| - 1]);
    }
  }

  lemma RunData(addr: nat, data: seq<byte>, recs: seq<Decoded>, offset: int, st: Load)
    requires |st.mem| == WRAP
    ensures Run([Data(addr, data)] + recs, offset, st) == Run(recs, offset, Place(st, (addr + offset) % WRAP, data))
  {
    assert ([Data(addr, data)] + recs)[1..] == recs;
  }

  lemma RunFrame(recs: seq<Decoded>, offset: int, st: Load)
    requires |st.mem| == WRAP
    ensures Run([Start] + recs, offset, st) == Run(recs, offset, st)
    ensures Run([End(0)], offset, st)
      == (st, Loaded(0, st.first, st.last, (st.last + WRAP - st.first + 1) % WRAP))
  {
    assert ([Start] + recs)[1..] == recs;
  }

  /** Loading consecutive chunks is one store of the whole region, and the bounds cover exactly it. */
  lemma {:induction false} RunChunks(addr: nat, data: seq<byte>, tail: seq<Decoded>, offset: int, at: nat, st: Load)
    requires |st.mem| == WRAP && at == (addr + offset) % WRAP && data != [] && at + |data| <= WRAP
    ensures Run(Chunks(addr, data) + tail, offset, st)
      == Run(tail, offset, Load(Stored(st.mem, at, data), Min(st.first, at),
                                if at + |data| - 1 > st.last then at + |data| - 1 else st.last))
    decreases |data|
  {
    hide Stored, Run;
    var n := Min(BYTES_PER_RECORD, |data|);
    var recs := Chunks(addr, data) + tail;
    var next := Place(st, at, data[..n]);
    assert (at + n + WRAP - 1) % WRAP == at + n - 1;
    assert recs[0] == Data(addr, data[..n]) && recs[1..] == Chunks(addr + n, data[n..]) + tail;
    RunData(addr, data[..n], recs[1..], offset, st);
    assert recs == [Data(addr, data[..n])] + recs[1..];
    if n == |data| {
      assert data[..n] == data && data[n..] == [];
      assert recs[1..] == tail;
    } else {
      NextAt(addr, offset, n, at);
      RunChunks(addr + n, data[n..], tail, offset, at + n, next);
      StoredAppends(st.mem, at, data[..n], data[n..]);
      assert data[..n] + data[n..] == data;
    }
  }

  lemma NextAt(addr: nat, offset: int, n: nat, at: nat)
    requires at == (addr + offset) % WRAP && at + n < WRAP
    ensures at + n == (addr + n + offset) % WRAP
  {
  }

  /** Save and load: the region appears at the offset, nothing else changes, the entry point is 0, and the
      reported size is the region's, except that an empty region is reported as two bytes. */
  lemma SaveLoadRoundTrip(addr: nat, data: seq<byte>, offset: int, mem: seq<byte>)
    requires |mem| == WRAP && addr + |data| <= WRAP && |data| < WRAP
    requires (addr + offset) % WRAP + |data| <= WRAP
    ensures (var at := (addr + offset) % WRAP;
             var (st, result) := LoadText(SaveText(addr, data), offset, mem);
             && st.mem == mem[..at] + data + mem[at + |data|..]
             && result.Loaded? && result.entry == 0
             && (result.size == |data| <==> |data| > 0) && (data == [] ==> result.size == 2)
             && (|data| > 0 ==> result.first == at && result.last == at + |data| - 1))
  {
    hide Parse, SaveText, Stored, Chunks, Run;
    var at := (addr + offset) % WRAP;
    var init := Load(mem, WRAP - 1, 0);
    ParseSaved(addr, data);
    var recs := Chunks(addr, data) + [End(0)];
    assert [Start] + Chunks(addr, data) + [End(0)] == [Start] + recs;
    RunFrame(recs, offset, init);
    StoredIsRegion(mem, at, data);
    if data == [] {
      NoChunks(addr);
      assert recs == [End(0)];
      assert mem[..at] + [] + mem[at..] == mem;
    } else {
      RunChunks(addr, data, [End(0)], offset, at, init);
      var n := |data|;
      var last := if at + n - 1 > 0 then at + n - 1 else 0;
      var st := Load(Stored(mem, at, data), Min(WRAP - 1, at), last);
      RunFrame(recs, offset, st);
      assert (last + WRAP - at + 1) % WRAP == n;
    }
  }

  lemma NoChunks(addr: nat)
    ensures Chunks(addr, []) == []
  {
  }
}
