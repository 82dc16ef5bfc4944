/** Which S-records are accepted, what stops a load, and what a load leaves at every address, each described without
    the steps of the code. */
module SRecordAccept {
  import opened Common
  import opened Arith
  import opened SRecordText
  import opened SRecordLoad

  // ----- one line

  /** A hexadecimal digit, in either case. */
  predicate Digit(c: char, v: nat) {
    v < 16 && (c == "0123456789ABCDEF"[v] || c == "0123456789abcdef"[v])
  }

  /** The text begins with two digits for each byte. */
  predicate Spelled(s: string, b: seq<byte>) {
    && |s| >= 2 * |b|
    && forall i :: 0 <= i < |b| ==> Digit(s[2 * i], b[i] / 16) && Digit(s[2 * i + 1], b[i] % 16)
  }

  /** How many bytes the address of each existing type of record has. */
  function Width(kind: char): nat {
    match kind
    case '0' => 2
    case '1' => 2
    case '2' => 3
    case '3' => 4
    case '5' => 2
    case '7' => 4
    case '8' => 3
    case '9' => 2
    case _ => 0
  }

  /** Length byte, address, data and check. A count record has no data; neither has one whose length is too small. */
  predicate Complete(kind: char, b: seq<byte>) {
    && Width(kind) > 0 && b != []
    && |b| == if kind == '5' || b[0] < Width(kind) + 1 then Width(kind) + 2 else b[0] as int + 1
  }

  /** What the bytes of a complete record mean. */
  function MeaningOf(kind: char, b: seq<byte>): Decoded
    requires Complete(kind, b)
  {
    var addr, data := Value(b[1..1 + Width(kind)]), b[1 + Width(kind)..|b| - 1];
    match kind
    case '0' => Start
    case '5' => Count
    case '7' => End(addr)
    case '8' => End(addr)
    case '9' => End(addr)
    case _ => Data(addr, data)
  }

  lemma Hex1Exact(c: char, v: nat)
    ensures Hex1Bin(c) == v <==> Digit(c, v)
  {
  }

  lemma Hex2Exact(s: string, b: byte)
    ensures Hex2Bin(s) == b <==> |s| >= 2 && Digit(s[0], b / 16) && Digit(s[1], b % 16)
  {
    hide Hex1Bin, Digit;
    if |s| >= 2 {
      Hex1Exact(s[0], b / 16);
      Hex1Exact(s[1], b % 16);
    }
  }

  lemma {:induction false} HexBytesExact(s: string, b: seq<byte>)
    ensures HexBytes(s, |b|) == (true, b) <==> Spelled(s, b)
    decreases |b|
  {
    hide Hex2Bin, Digit;
    if b != [] {
      Hex2Exact(s, b[0]);
      if |s| >= 2 {
        HexBytesExact(s[2..], b[1..]);
        assert b == [b[0]] + b[1..];
        assert Spelled(s, b) <==> Digit(s[0], b[0] / 16) && Digit(s[1], b[0] % 16) && Spelled(s[2..], b[1..]) by {
          SpelledStep(s, b);
        }
      }
    }
  }

  lemma SpelledStep(s: string, b: seq<byte>)
    requires b != [] && |s| >= 2
    ensures Spelled(s, b) <==> Digit(s[0], b[0] / 16) && Digit(s[1], b[0] % 16) && Spelled(s[2..], b[1..])
  {
    hide Digit;
    var t, d := s[2..], b[1..];
    if Spelled(s, b) {
      assert Digit(s[2 * 0], b[0] / 16) && Digit(s[2 * 0 + 1], b[0] % 16);
      forall i | 0 <= i < |d|
        ensures Digit(t[2 * i], d[i] / 16) && Digit(t[2 * i + 1], d[i] % 16)
      {
        assert Digit(s[2 * (i + 1)], b[i + 1] / 16) && Digit(s[2 * (i + 1) + 1], b[i + 1] % 16);
      }
    }
    if Digit(s[0], b[0] / 16) && Digit(s[1], b[0] % 16) && Spelled(t, d) {
      forall i | 0 <= i < |b|
        ensures Digit(s[2 * i], b[i] / 16) && Digit(s[2 * i + 1], b[i] % 16)
      {
        if i > 0 {
          assert Digit(t[2 * (i - 1)], d[i - 1] / 16) && Digit(t[2 * (i - 1) + 1], d[i - 1] % 16);
        }
      }
    }
  }

  lemma {:induction false} SkipTo(junk: string, s: string)
    requires forall i :: 0 <= i < |junk| ==> junk[i] != 'S'
    ensures SkipS(junk + "S" + s) == s
    decreases |junk|
  {
    if junk == "" {
      assert junk + "S" + s == "S" + s;
    } else {
      assert (junk + "S" + s)[1..] == junk[1..] + "S" + s;
      SkipTo(junk[1..], s);
    }
  }

  lemma WidthIs(kind: char)
    ensures AddressLength(kind) == Width(kind)
  {
  }

  lemma ComplementIs(sum: nat, check: byte)
    ensures check == Complement(sum) <==> (sum + check) % 256 == 255
  {
  }

  lemma SumOfRecord(b: seq<byte>)
    requires |b| >= 2
    ensures Sum(b) == b[0] as int + Sum(b[1..][..|b| - 2]) + b[|b| - 1] as int
  {
    hide Sum;
    var mid := b[1..][..|b| - 2];
    assert b == [b[0]] + mid + [b[|b| - 1]];
    SumConcat([b[0]], mid);
    SumConcat([b[0]] + mid, [b[|b| - 1]]);
    SumOfOne(b[0]);
    SumOfOne(b[|b| - 1]);
  }

  /** A record whose bytes are all there means what its type says if they sum to 255 modulo 256, the check
      included; otherwise its checksum is bad. */
  lemma CompleteLine(input: string, b: seq<byte>)
    requires var s := SkipS(input); s != "" && Complete(s[0], b) && Spelled(s[1..], b)
    ensures Decode(input) == if Sum(b) % 256 == 255 then MeaningOf(SkipS(input)[0], b) else BadChecksum
  {
    hide Hex2Bin, HexBytes, Sum, Value, Complement, AddressLength, SkipS, Complete, Spelled, Meaning, MeaningOf;
    var s := SkipS(input);
    var kind, w := s[0], Width(s[0]);
    WidthIs(kind);
    CompleteRead(s, b);
    NotEmpty(kind, b);
    var all := b[1..];
    SumOfRecord(b);
    ComplementIs(b[0] as int + Sum(all[..|all| - 1]), all[|all| - 1]);
    assert all[..w] == b[1..1 + w] && all[w..|all| - 1] == b[1 + w..|b| - 1];
    MeaningAgrees(kind, b);
  }

  /** The bytes of a record as the decoder reads them: the length, and then as many as it tells. */
  lemma CompleteRead(s: string, b: seq<byte>)
    requires s != "" && Complete(s[0], b) && Spelled(s[1..], b)
    ensures |s| >= 3 && |b| >= Width(s[0]) + 2 && Hex2Bin(s[1..]) == b[0] && HexBytes(s[3..], |b| - 1) == (true, b[1..])
    ensures Width(s[0]) > 0
    ensures |b| - 1 == Width(s[0]) + (if s[0] == '5' || b[0] < Width(s[0]) + 1 then 0 else b[0] - Width(s[0]) - 1) + 1
  {
    hide Hex2Bin, HexBytes, Digit;
    SpelledStep(s[1..], b);
    assert s[1..][2..] == s[3..];
    Hex2Exact(s[1..], b[0]);
    HexBytesExact(s[3..], b[1..]);
  }

  /** The line has a complete record of its type after its first `S`. */
  ghost predicate HasRecord(input: string) {
    var s := SkipS(input);
    s != "" && exists b: seq<byte> :: Complete(s[0], b) && Spelled(s[1..], b)
  }

  /** All other lines, and why each is no record: nothing after the first `S`, no length, no such type, or a digit
      missing further on. */
  lemma IncompleteLine(input: string)
    requires !HasRecord(input)
    ensures var s := SkipS(input);
      Decode(input) ==
        if s == "" then Empty
        else if |s| < 3 || Hex1Bin(s[1]) < 0 || Hex1Bin(s[2]) < 0 then NoRecord
        else if Width(s[0]) == 0 then BadType
        else NoRecord
  {
    hide Sum, Value, Complement, AddressLength, SkipS, Hex1Bin, HexBytes, HasRecord;
    var s := SkipS(input);
    WidthIs(if s != "" then s[0] else 'S');
    if s != "" && Hex2Bin(s[1..]) >= 0 && Width(s[0]) > 0 {
      ReadIsRecord(input);
    }
  }

  /** Bytes that the decoder reads make a record. */
  lemma ReadIsRecord(input: string)
    requires var s := SkipS(input); s != "" && Hex2Bin(s[1..]) >= 0 && Width(s[0]) > 0
    ensures var s := SkipS(input);
      var length, a := Hex2Bin(s[1..]), Width(s[0]);
      var count := if s[0] == '5' || length < a + 1 then 0 else length - a - 1;
      HexBytes(s[3..], a + count + 1).0 ==> HasRecord(input)
  {
    hide SkipS, Hex2Bin, HexBytes, Digit;
    var s := SkipS(input);
    var length, a := Hex2Bin(s[1..]), Width(s[0]);
    var count := if s[0] == '5' || length < a + 1 then 0 else length - a - 1;
    var (ok, all) := HexBytes(s[3..], a + count + 1);
    if ok {
      var b: seq<byte> := [length] + all;
      HexBytesExact(s[3..], all);
      Hex2Exact(s[1..], length);
      assert s[1..][2..] == s[3..] && b[1..] == all;
      SpelledStep(s[1..], b);
      assert Complete(s[0], b);
    }
  }

  /** What is accepted is complete, and its length, address, data and check sum to 255 modulo 256. */
  lemma AcceptedIff(input: string)
    ensures var d := Decode(input);
      d.Start? || d.Data? || d.Count? || d.End? <==>
      exists b: seq<byte> ::
        SkipS(input) != "" && Complete(SkipS(input)[0], b) && Spelled(SkipS(input)[1..], b) && Sum(b) % 256 == 255
  {
    hide Decode, Spelled, Complete, SkipS, Sum, Hex1Bin;
    if HasRecord(input) {
      var s := SkipS(input);
      var b: seq<byte> :| Complete(s[0], b) && Spelled(s[1..], b);
      CompleteLine(input, b);
      forall c: seq<byte> | Complete(s[0], c) && Spelled(s[1..], c) && Sum(c) % 256 == 255
        ensures Sum(b) % 256 == 255
      {
        CompleteLine(input, c);
        MeansRecord(s[0], c);
      }
      MeansRecord(s[0], b);
    } else {
      IncompleteLine(input);
    }
  }

  lemma MeansRecord(kind: char, b: seq<byte>)
    requires Complete(kind, b)
    ensures var d := MeaningOf(kind, b); d.Start? || d.Data? || d.Count? || d.End?
  {
  }

  /** A single wrong byte after the length is always noticed. */
  lemma DamagedByteIsRefused(input: string, b: seq<byte>, i: nat, v: byte, damaged: string)
    requires SkipS(input) != "" && Complete(SkipS(input)[0], b) && Spelled(SkipS(input)[1..], b)
    requires Sum(b) % 256 == 255 && 0 < i < |b| && v != b[i]
    requires SkipS(damaged) != "" && SkipS(damaged)[0] == SkipS(input)[0] && Spelled(SkipS(damaged)[1..], b[i := v])
    ensures Decode(damaged) == BadChecksum
  {
    hide Decode, Spelled, SkipS, Sum, Width;
    CompleteLine(damaged, b[i := v]);
    SumUpdate(b, i, v);
  }

  /** In particular every other check byte than the one's complement of the rest. */
  lemma WrongCheckIsRefused(kind: char, address: seq<byte>, data: seq<byte>, check: byte)
    requires Width(kind) == |address| > 0 && |address| + |data| < 255 && (kind == '5' ==> data == [])
    ensures var rest := [|address| + |data| + 1] + address + data;
      Decode("S" + [kind] + HexStr(rest + [check]))
      == if check == 255 - Sum(rest) % 256 then Meaning(kind, Value(address), data) else BadChecksum
  {
    hide Decode, Sum, Width, HexStr, Value, Complete, Meaning;
    var rest := [|address| + |data| + 1] + address + data;
    var b := rest + [check];
    RecordComplete(kind, b, |address|, |data|);
    CheckDecides(kind, b);
    assert b[..|b| - 1] == rest && b[1..1 + |address|] == address && b[1 + |address|..|b| - 1] == data;
  }

  lemma CheckDecides(kind: char, b: seq<byte>)
    requires Complete(kind, b)
    ensures Decode("S" + [kind] + HexStr(b))
      == if b[|b| - 1] == 255 - Sum(b[..|b| - 1]) % 256
         then Meaning(kind, Value(b[1..1 + Width(kind)]), b[1 + Width(kind)..|b| - 1]) else BadChecksum
  {
    hide Decode, Spelled, Sum, Width, HexStr, Value, Complete, MeaningOf, SkipS, Meaning;
    NotEmpty(kind, b);
    LineSpells(kind, b);
    CompleteLine("S" + [kind] + HexStr(b), b);
    MeaningAgrees(kind, b);
    var rest, check := b[..|b| - 1], b[|b| - 1];
    assert b == rest + [check];
    SumConcat(rest, [check]);
    SumOfOne(check);
    CheckModulo(Sum(rest), check);
  }

  lemma NotEmpty(kind: char, b: seq<byte>)
    requires Complete(kind, b)
    ensures |b| >= Width(kind) + 2
  {
  }

  lemma LineSpells(kind: char, b: seq<byte>)
    ensures var s := SkipS("S" + [kind] + HexStr(b)); s != "" && s[0] == kind && Spelled(s[1..], b)
  {
    hide HexStr, Spelled;
    assert "S" + [kind] + HexStr(b) == "S" + ([kind] + HexStr(b));
    SkipOne([kind] + HexStr(b));
    HexStrSpells(b);
    assert ([kind] + HexStr(b))[1..] == HexStr(b);
  }

  lemma RecordComplete(kind: char, b: seq<byte>, w: nat, n: nat)
    requires Width(kind) == w > 0 && |b| == w + n + 2 && b[0] == w + n + 1 && (kind == '5' ==> n == 0)
    ensures Complete(kind, b)
  {
  }

  lemma CheckModulo(sum: nat, check: byte)
    ensures (sum + check) % 256 == 255 <==> check == 255 - sum % 256
  {
  }

  lemma MeaningAgrees(kind: char, b: seq<byte>)
    requires Complete(kind, b)
    ensures MeaningOf(kind, b) == Meaning(kind, Value(b[1..1 + Width(kind)]), b[1 + Width(kind)..|b| - 1])
  {
  }

  lemma HexStrSpells(b: seq<byte>)
    ensures Spelled(HexStr(b), b)
  {
    hide HexStr;
    HexBytesRoundTrip(b);
    HexBytesExact(HexStr(b), b);
  }

  // ----- lines of the input

  /** A line ends at a line feed or a carriage return, which is dropped, or at the size of the buffer; NUL, control-C
      and silence give no line. */
  lemma {:induction false} ReadRecordIs(line: string, rest: string, room: nat)
    requires PlainLine(line) && |line| <= room
    ensures |line| == room ==> ReadRecord(line + rest, room) == (true, line, rest)
    ensures |line| < room ==>
      if rest == "" || rest[0] == '\0' || rest[0] == 3 as char then !ReadRecord(line + rest, room).0
      else rest[0] == '\r' || rest[0] == '\n' ==> ReadRecord(line + rest, room) == (true, line, rest[1..])
    decreases |line|
  {
    if line == "" {
      assert line + rest == rest;
    } else {
      assert (line + rest)[1..] == line[1..] + rest && line == [line[0]] + line[1..];
      ReadRecordIs(line[1..], rest, room - 1);
    }
  }

  function Joined(lines: seq<string>): string {
    if lines == [] then "" else lines[0] + "\n" + Joined(lines[1..])
  }

  predicate Lines(lines: seq<string>) {
    forall i :: 0 <= i < |lines| ==> PlainLine(lines[i]) && |lines[i]| < 516
  }

  function DecodeAll(lines: seq<string>): (r: seq<Decoded>)
    ensures |r| == |lines| && forall i :: 0 <= i < |r| ==> r[i] == Decode(lines[i])
  {
    seq(|lines|, i requires 0 <= i < |lines| => Decode(lines[i]))
  }

  lemma {:induction false} ParseLines(lines: seq<string>, rest: string)
    requires Lines(lines)
    ensures Parse(Joined(lines) + rest) == DecodeAll(lines) + Parse(rest)
    decreases |lines|
  {
    hide Parse, Decode;
    if lines == [] {
      assert Joined(lines) + rest == rest && DecodeAll(lines) + Parse(rest) == Parse(rest);
    } else {
      assert Joined(lines) + rest == lines[0] + "\n" + (Joined(lines[1..]) + rest);
      ParseLine(lines[0], Joined(lines[1..]) + rest);
      ParseLines(lines[1..], rest);
      assert DecodeAll(lines) == [Decode(lines[0])] + DecodeAll(lines[1..]);
      assert [Decode(lines[0])] + (DecodeAll(lines[1..]) + Parse(rest)) == DecodeAll(lines) + Parse(rest);
    }
  }

  // ----- the course of a load

  /** Records that are loaded or passed over, and records that stop a load with an error. */
  predicate GoesOn(d: Decoded) {
    d.Data? || d.Start? || d.Count? || d.Empty?
  }

  predicate IsError(d: Decoded) {
    d.BadType? || d.NoRecord? || d.BadChecksum?
  }

  /** The byte at address `x` after the records: each one that covers it replaces it. */
  function ByteAfter(recs: seq<Decoded>, offset: int, x: nat, was: byte): byte
    decreases |recs|
  {
    if recs == [] then was
    else
      var d := recs[0];
      var covered := d.Data? && (x - d.addr - offset) % WRAP < |d.data|;
      ByteAfter(recs[1..], offset, x, if covered then d.data[(x - d.addr - offset) % WRAP] else was)
  }

  lemma {:induction false} StoredAt(mem: seq<byte>, at: nat, data: seq<byte>, x: nat)
    requires |mem| == WRAP && |data| < 256 && x < WRAP
    ensures Stored(mem, at, data)[x] == if (x - at) % WRAP < |data| then data[(x - at) % WRAP] else mem[x]
    decreases |data|
  {
    if data != [] {
      var n := |data| - 1;
      StoredAt(mem, at, data[..n], x);
      SameAddress(at, n, x);
    }
  }

  lemma SameAddress(at: nat, n: nat, x: nat)
    requires n < 256 && x < WRAP
    ensures (at + n) % WRAP == x <==> (x - at) % WRAP == n
  {
    var q := (at + n) / WRAP;
    if (at + n) % WRAP == x {
      ModShift(n, -q, WRAP);
      assert x - at == n - q * WRAP;
    }
    if (x - at) % WRAP == n {
      var k := (x - at) / WRAP;
      ModShift(x, -k, WRAP);
      assert at + n == x - k * WRAP;
    }
  }

  /** All these records are passed over or loaded. */
  predicate Goes(recs: seq<Decoded>) {
    forall i :: 0 <= i < |recs| ==> GoesOn(recs[i]) && (recs[i].Data? ==> |recs[i].data| < 256)
  }

  lemma RunOne(d: Decoded, recs: seq<Decoded>, offset: int, st: Load)
    requires |st.mem| == WRAP && GoesOn(d)
    ensures Run([d] + recs, offset, st)
      == Run(recs, offset, if d.Data? then Place(st, (d.addr + offset) % WRAP, d.data) else st)
  {
    assert ([d] + recs)[1..] == recs;
  }

  lemma RunLast(d: Decoded, more: seq<Decoded>, offset: int, st: Load)
    requires |st.mem| == WRAP && (d.End? || IsError(d))
    ensures Run([d] + more, offset, st)
      == (st, if d.End? then Result.Loaded(d.addr, st.first, st.last, (st.last - st.first + 1) % WRAP) else Aborted)
  {
    assert (st.last + WRAP - st.first + 1) % WRAP == (st.last - st.first + 1) % WRAP by {
      ModShift(st.last - st.first + 1, 1, WRAP);
    }
  }

  lemma PlacedByte(st: Load, addr: nat, offset: int, data: seq<byte>, x: nat)
    requires |st.mem| == WRAP && |data| < 256 && x < WRAP
    ensures Place(st, (addr + offset) % WRAP, data).mem[x]
      == if (x - addr - offset) % WRAP < |data| then data[(x - addr - offset) % WRAP] else st.mem[x]
  {
    hide Stored;
    var at := (addr + offset) % WRAP;
    var q := (addr + offset) / WRAP;
    StoredAt(st.mem, at, data, x);
    ModShift(x - at, -q, WRAP);
    assert x - addr - offset == x - at - q * WRAP;
  }

  /** The result of a load by its records: at every address the last record that covers it has left its byte, an end
      record gives the entry point, and an error aborts with what was loaded before it. */
  lemma {:induction false} RunOutcome(recs: seq<Decoded>, d: Decoded, more: seq<Decoded>, offset: int, st: Load)
    requires |st.mem| == WRAP && Goes(recs) && (d.End? || IsError(d))
    ensures var (end, result) := Run(recs + [d] + more, offset, st);
      && (forall x :: 0 <= x < WRAP ==> end.mem[x] == ByteAfter(recs, offset, x, st.mem[x]))
      && (d.End? ==> result == Result.Loaded(d.addr, end.first, end.last, (end.last - end.first + 1) % WRAP))
      && (IsError(d) ==> result == Aborted)
    decreases |recs|
  {
    hide Run, Place;
    if recs == [] {
      assert recs + [d] + more == [d] + more;
      RunLast(d, more, offset, st);
    } else {
      var c, rest := recs[0], recs[1..];
      assert recs + [d] + more == [c] + (rest + [d] + more);
      RunOne(c, rest + [d] + more, offset, st);
      var next := if c.Data? then Place(st, (c.addr + offset) % WRAP, c.data) else st;
      RunOutcome(rest, d, more, offset, next);
      forall x | 0 <= x < WRAP
        ensures ByteAfter(recs, offset, x, st.mem[x]) == ByteAfter(rest, offset, x, next.mem[x])
      {
        if c.Data? {
          PlacedByte(st, c.addr, offset, c.data, x);
        }
      }
    }
  }

  lemma DecodedIsShort(input: string)
    ensures Decode(input).Data? ==> |Decode(input).data| < 256
  {
    hide Sum, Value, Complement, SkipS, Hex2Bin, HexBytes;
  }

  /** A whole text: lines that go on, then one that ends the load or aborts it. A bad line leaves memory as the lines
      before it made it, and nothing after it is looked at. */
  lemma TextOutcome(lines: seq<string>, line: string, rest: string, offset: int, mem: seq<byte>)
    requires |mem| == WRAP && Lines(lines) && Lines([line])
    requires (forall i :: 0 <= i < |lines| ==> GoesOn(Decode(lines[i]))) && (Decode(line).End? || IsError(Decode(line)))
    ensures var (end, result) := LoadText(Joined(lines) + (line + "\n" + rest), offset, mem);
      && (forall x :: 0 <= x < WRAP ==> end.mem[x] == ByteAfter(DecodeAll(lines), offset, x, mem[x]))
      && (IsError(Decode(line)) ==> result == Aborted)
      && (Decode(line).End? ==> result.Loaded? && result.entry == Decode(line).addr)
  {
    hide Run, Parse, Decode, ByteAfter, PlainLine;
    forall i | 0 <= i < |lines| ensures Decode(lines[i]).Data? ==> |Decode(lines[i]).data| < 256 {
      DecodedIsShort(lines[i]);
    }
    ParseLines(lines, line + "\n" + rest);
    assert Lines([line]) ==> PlainLine([line][0]) && |[line][0]| < 516;
    ParseLine(line, rest);
    assert DecodeAll(lines) + ([Decode(line)] + Parse(rest)) == DecodeAll(lines) + [Decode(line)] + Parse(rest);
    RunOutcome(DecodeAll(lines), Decode(line), Parse(rest), offset, Load(mem, WRAP - 1, 0));
  }

  /** Where the bytes of a record go, from the first to the last. */
  function FirstPlace(d: Decoded, offset: int): nat
    requires d.Data?
  {
    (d.addr + offset) % WRAP
  }

  function LastPlace(d: Decoded, offset: int): nat
    requires d.Data?
  {
    (FirstPlace(d, offset) + |d.data| - 1) % WRAP
  }

  predicate Between(d: Decoded, offset: int, first: nat, last: nat) {
    d.Data? ==> first <= FirstPlace(d, offset) && LastPlace(d, offset) <= last
  }

  lemma PlacedBounds(st: Load, d: Decoded, offset: int)
    requires |st.mem| == WRAP && d.Data?
    ensures var p := Place(st, (d.addr + offset) % WRAP, d.data);
      && p.first == (if FirstPlace(d, offset) < st.first then FirstPlace(d, offset) else st.first)
      && p.last == if LastPlace(d, offset) > st.last then LastPlace(d, offset) else st.last
  {
    hide Stored;
    ModShift(FirstPlace(d, offset) + |d.data| - 1, 1, WRAP);
  }

  /** The reported bounds hold all that was stored between them. */
  lemma {:induction false} BoundsHold(recs: seq<Decoded>, d: Decoded, more: seq<Decoded>, offset: int, st: Load)
    requires |st.mem| == WRAP && Goes(recs) && (d.End? || IsError(d))
    ensures var end := Run(recs + [d] + more, offset, st).0;
      && end.first <= st.first && st.last <= end.last
      && forall i :: 0 <= i < |recs| ==> Between(recs[i], offset, end.first, end.last)
    decreases |recs|
  {
    hide Run, Place, FirstPlace, LastPlace;
    if recs == [] {
      assert recs + [d] + more == [d] + more;
      RunLast(d, more, offset, st);
    } else {
      var c, rest := recs[0], recs[1..];
      assert recs + [d] + more == [c] + (rest + [d] + more);
      RunOne(c, rest + [d] + more, offset, st);
      if c.Data? {
        PlacedBounds(st, c, offset);
      }
      BoundsHold(rest, d, more, offset, if c.Data? then Place(st, (c.addr + offset) % WRAP, c.data) else st);
      forall i | 0 < i < |recs| ensures recs[i] == rest[i - 1] { }
    }
  }

  ghost predicate StartsAt(recs: seq<Decoded>, offset: int, x: nat) {
    exists i :: 0 <= i < |recs| && recs[i].Data? && FirstPlace(recs[i], offset) == x
  }

  ghost predicate EndsAt(recs: seq<Decoded>, offset: int, x: nat) {
    exists i :: 0 <= i < |recs| && recs[i].Data? && LastPlace(recs[i], offset) == x
  }

  /** And they are tight: each is what it was at first or the place of some record. */
  lemma {:induction false} BoundsAreTight(recs: seq<Decoded>, d: Decoded, more: seq<Decoded>, offset: int, st: Load)
    requires |st.mem| == WRAP && Goes(recs) && (d.End? || IsError(d))
    ensures var end := Run(recs + [d] + more, offset, st).0;
      && (end.first == st.first || StartsAt(recs, offset, end.first))
      && (end.last == st.last || EndsAt(recs, offset, end.last))
    decreases |recs|
  {
    hide Run, Place, FirstPlace, LastPlace, StartsAt, EndsAt;
    if recs == [] {
      assert recs + [d] + more == [d] + more;
      RunLast(d, more, offset, st);
    } else {
      var c, rest := recs[0], recs[1..];
      assert recs + [d] + more == [c] + (rest + [d] + more);
      RunOne(c, rest + [d] + more, offset, st);
      if c.Data? {
        PlacedBounds(st, c, offset);
      }
      BoundsAreTight(rest, d, more, offset, if c.Data? then Place(st, (c.addr + offset) % WRAP, c.data) else st);
      var end := Run(recs + [d] + more, offset, st).0;
      PlacesOfMore(recs, offset, end.first);
      PlacesOfMore(recs, offset, end.last);
    }
  }

  lemma PlacesOfMore(recs: seq<Decoded>, offset: int, x: nat)
    requires recs != []
    ensures StartsAt(recs[1..], offset, x) || (recs[0].Data? && FirstPlace(recs[0], offset) == x)
            ==> StartsAt(recs, offset, x)
    ensures EndsAt(recs[1..], offset, x) || (recs[0].Data? && LastPlace(recs[0], offset) == x)
            ==> EndsAt(recs, offset, x)
  {
    hide FirstPlace, LastPlace;
    forall i | 0 < i < |recs| ensures recs[i] == recs[1..][i - 1] { }
  }
}
