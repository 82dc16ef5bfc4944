/** `k_recv`: a Kermit receiver that writes payload straight to memory while it arrives and rolls back by
    checkpoint, proved to leave in memory exactly what `KermitDelivery` says was delivered. */
module KermitReceiver {
  import opened Common
  import opened KermitWire
  import opened KermitAccept
  import opened KermitDelivery

  datatype Exit = Finished(size: nat) | Interrupted | Waiting

  datatype Verdict = Accepted | Rejected | Quiet

  class Receiver {
    const mem: array<byte>
    const start: nat
    const sendParms: array<byte>
    const ab: array<byte>
    var line: seq<byte>
    var sent: seq<byte>
    var osDataAddr: nat
    var osDataAddrSaved: nat
    var kDataEscape: bool
    var kDataEscapeSaved: bool
    var params: Params
    var sendPtr: nat
    var kState: byte
    var kStateSaved: byte
    ghost var below: seq<byte>
    var n: nat
    var lastN: int

    constructor (mem: array<byte>, start: nat, line: seq<byte>)
      requires start + |line| <= mem.Length
      ensures this.mem == mem && this.start == start && this.line == line && sent == []
      ensures Buffers() && fresh(sendParms) && fresh(ab)
    {
      this.mem, this.start, this.line, sent := mem, start, line, [];
      sendParms, ab := new byte[SEND_DATA_SIZE](_ => 0), new byte[24](_ => 0);
      osDataAddr, osDataAddrSaved, kDataEscape, kDataEscapeSaved := start, start, false, false;
      params, sendPtr, kState, kStateSaved, n, lastN := DEFAULTS, 0, 0, 0, 0, -1;
      below := mem[..start];
    }

    predicate Buffers() {
      && sendParms.Length == SEND_DATA_SIZE && ab.Length == 24
      && mem != sendParms && mem != ab && sendParms != ab
    }

    /** The memory written so far is `d`'s bytes. */
    ghost predicate Holding(addr: nat, escaped: bool, d: Data)
      reads mem
    {
      && addr == start + |d.out| <= mem.Length && mem[start..addr] == d.out && escaped == d.escaped
    }

    /** The checkpoint is `base` and the running state is `d`. */
    ghost predicate Reading(base: Data, d: Data)
      reads this`osDataAddr, this`kDataEscape, this`osDataAddrSaved, this`kDataEscapeSaved, this`below, mem
    {
      && Buffers()
      && Holding(osDataAddr, kDataEscape, d)
      && Holding(osDataAddrSaved, kDataEscapeSaved, base)
      && base.out <= d.out
      && mem[..start] == below
    }

    /** Nothing below `start` has been touched. */
    ghost predicate Intact()
      reads this`below, mem
    {
      start <= mem.Length && mem[..start] == below
    }

    lemma ReadingIntact(base: Data, d: Data)
      requires Reading(base, d)
      ensures Intact()
    {
    }

    /** Between frames, the receiver's state is `p`. */
    ghost predicate Rep(p: Progress)
      reads this`osDataAddr, this`kDataEscape, this`osDataAddrSaved, this`kDataEscapeSaved, this`below, mem
      reads this`lastN, this`params
    {
      Reading(p.saved, p.cur) && lastN == p.last && params == p.params
    }

    /** The unread part of the line fits behind what is stored. */
    ghost predicate Fits(unread: nat)
      reads this`osDataAddr
    {
      osDataAddr + unread <= mem.Length
    }

    // ----- data handlers

    /** `k_data_char` and `bin_data_char`. */
    method KDataChar(c: byte, ghost d: Data)
      requires Holding(osDataAddr, kDataEscape, d) && osDataAddr < mem.Length
      modifies this`osDataAddr, this`kDataEscape, mem
      ensures Holding(osDataAddr, kDataEscape, DataChar(d, params.quote, c))
      ensures mem[..old(osDataAddr)] == old(mem[..osDataAddr])
      ensures osDataAddr <= old(osDataAddr) + 1
    {
      if kDataEscape {
        mem[osDataAddr] := Ktrans(c);
        osDataAddr := osDataAddr + 1;
        kDataEscape := false;
      } else if c == params.quote {
        kDataEscape := true;
      } else {
        mem[osDataAddr] := c;
        osDataAddr := osDataAddr + 1;
      }
    }

    /** New sequence number: save; repeated one: restore. */
    method Checkpoint(ghost p: Progress)
      requires Rep(p)
      modifies this`osDataAddr, this`osDataAddrSaved, this`kDataEscape, this`kDataEscapeSaved
      modifies this`kState, this`kStateSaved, this`lastN
      ensures var base := if n == p.last then p.saved else p.cur; Rep(Progress(base, base, n, p.params))
      ensures osDataAddr <= old(osDataAddr)
    {
      if n == lastN {
        kState := kStateSaved;
        osDataAddr, kDataEscape := osDataAddrSaved, kDataEscapeSaved;
      } else {
        lastN := n;
        kStateSaved := kState;
        osDataAddrSaved, kDataEscapeSaved := osDataAddr, kDataEscape;
      }
    }

    /** `packet_error`: back to the checkpoint, and a negative acknowledgement. */
    method PacketError(ghost base: Data, ghost d: Data)
      requires Reading(base, d) && n < 224
      modifies this`osDataAddr, this`kDataEscape, this`kState, this`sent, ab
      ensures Reading(base, base) && osDataAddr <= old(osDataAddr)
      ensures sent == old(sent) + Sent(params, n, NACK_TYPE, [])
    {
      hide Sent;
      kState := kStateSaved;
      osDataAddr, kDataEscape := osDataAddrSaved, kDataEscapeSaved;
      SendShort(NACK_TYPE);
    }

    // ----- sending

    /** `chk1` over the NUL-terminated text that starts at `ab[1]`. */
    method Chk1(ghost text: seq<byte>) returns (r: nat)
      requires Buffers() && 1 + |text| < 24 && ab[1..1 + |text|] == text && ab[1 + |text|] == 0
      requires forall i :: 0 <= i < |text| ==> text[i] != 0
      ensures r < 64 && ToChar(r) == Check(Sum(text))
    {
      var total: nat, p := 0, 1;
      while ab[p] != 0
        invariant 1 <= p <= 1 + |text| && total == Sum(text[..p - 1])
        invariant p <= |text| ==> ab[p] == text[p - 1]
        decreases 24 - p
      {
        assert text[..p][..p - 1] == text[..p - 1];
        total, p := total + ab[p] as int, p + 1;
        assert p <= |text| ==> ab[p] == ab[1..1 + |text|][p - 1];
      }
      assert text[..p - 1] == text;
      r := (total + (total / 64) % 4) % 64;
    }

    /** `send_pad` and `s1_sendpacket`: padding, then the NUL-terminated text in `ab`. */
    method SendPacket(ghost text: seq<byte>)
      requires Buffers() && |text| < 24 && ab[..|text|] == text && ab[|text|] == 0
      requires forall i :: 0 <= i < |text| ==> text[i] != 0
      modifies this`sent
      ensures sent == old(sent) + Padding(params.padCount, params.padChar) + text
    {
      var count := 0;
      while count < params.padCount
        invariant count <= params.padCount && sent == old(sent) + Padding(count, params.padChar)
      {
        sent := sent + [params.padChar];
        count := count + 1;
      }
      var p := 0;
      while ab[p] != 0
        invariant 0 <= p <= |text| && sent == old(sent) + Padding(params.padCount, params.padChar) + text[..p]
        invariant p < |text| ==> ab[p] == text[p]
        decreases 24 - p
      {
        sent := sent + [ab[p]];
        assert text[..p + 1] == text[..p] + [text[p]];
        p := p + 1;
        assert p < |text| ==> ab[p] == ab[..|text|][p];
      }
      assert text[..p] == text;
    }

    /** Block check, line end and NUL after the `length + 1` characters already in `ab`; then send. */
    method FinishPacket(length: nat, m: nat, kind: byte, ghost data: seq<byte>)
      requires Buffers() && m < 224 && length == 3 + |data| <= 20 && kind != 0
      requires forall i :: 0 <= i < |data| ==> data[i] != 0
      requires ab[..length + 1] == [START_CHAR, ToChar(length), ToChar(m), kind] + data
      modifies this`sent, ab
      ensures sent == old(sent) + Sent(params, m, kind, data)
    {
      hide Sum, Check, Padding, Packet;
      ghost var head := [ToChar(length), ToChar(m), kind] + data;
      ghost var before := [START_CHAR] + head;
      ab[length + 1] := 0;
      assert ab[..length + 1] == before;
      assert ab[1..1 + |head|] == ab[..length + 1][1..] == head;
      var check := Chk1(head);
      ab[length + 1], ab[length + 2], ab[length + 3] := ToChar(check), params.eol, 0;
      assert ab[..][..length + 1] == before;
      TextInBuffer(ab[..], head, params.eol);
      PacketText(m, kind, data);
      ghost var text := before + [Check(Sum(head))] + Eol(params.eol);
      SendPacket(text);
      SentText(params, m, kind, data);
    }

    static ghost function Eol(eol: byte): seq<byte> {
      if eol == 0 then [] else [eol]
    }

    static lemma TextInBuffer(a: seq<byte>, head: seq<byte>, eol: byte)
      requires |head| + 3 < |a| && a[..|head| + 1] == [START_CHAR] + head
      requires a[|head| + 1] == Check(Sum(head)) && a[|head| + 2] == eol && a[|head| + 3] == 0
      ensures var text := [START_CHAR] + head + [Check(Sum(head))] + Eol(eol);
        a[..|text|] == text && a[|text|] == 0
    {
      hide Check, Sum;
      var k := |head| + 1;
      assert a[..k + 1] == a[..k] + [a[k]];
      assert a[..k + 2] == a[..k + 1] + [a[k + 1]];
    }

    static lemma PacketText(m: nat, kind: byte, data: seq<byte>)
      requires m < 224 && |data| <= 17 && kind != 0 && forall i :: 0 <= i < |data| ==> data[i] != 0
      ensures var head := [ToChar(3 + |data|), ToChar(m), kind] + data;
        && Packet(m, kind, data) == head + [Check(Sum(head))]
        && (forall i :: 0 <= i < |head| ==> head[i] != 0) && Check(Sum(head)) != 0
    {
      hide Sum;
    }

    static lemma SentText(p: Params, m: nat, kind: byte, data: seq<byte>)
      ensures var head := [ToChar(3 + |data|), ToChar(m), kind] + data;
        Sent(p, m, kind, data)
        == Padding(p.padCount, p.padChar) + ([START_CHAR] + head + [Check(Sum(head))] + Eol(p.eol))
    {
      hide Sum, Check, Padding;
      var head := [ToChar(3 + |data|), ToChar(m), kind] + data;
      var pad := Padding(p.padCount, p.padChar);
      assert pad + [START_CHAR] + Packet(m, kind, data) + Eol(p.eol)
          == pad + ([START_CHAR] + (head + [Check(Sum(head))]) + Eol(p.eol));
      assert [START_CHAR] + (head + [Check(Sum(head))]) == [START_CHAR] + head + [Check(Sum(head))];
    }

    /** `send_ack` and `send_nack`. */
    method SendShort(kind: byte)
      requires Buffers() && n < 224 && kind != 0
      modifies this`sent, ab
      ensures sent == old(sent) + Sent(params, n, kind, [])
    {
      ab[0], ab[1], ab[2], ab[3] := START_CHAR, ToChar(3), ToChar(n), kind;
      assert ab[..4] == [START_CHAR, ToChar(3), ToChar(n), kind] + [];
      FinishPacket(3, n, kind, []);
    }

    /** Take over the sender's parameters; the result is how many of its bytes count. */
    method TakeParams(ghost data: seq<byte>) returns (bytes: nat)
      requires Buffers()
      requires sendPtr == if |data| < SEND_DATA_SIZE - 1 then |data| else SEND_DATA_SIZE - 1
      requires sendParms[..sendPtr] == data[..sendPtr]
      modifies this`params, this`sendPtr
      ensures params == Negotiated(data) && bytes == Usable(data)
    {
      params := DEFAULTS;
      if sendPtr == SEND_DATA_SIZE - 1 {
        sendPtr := sendPtr - 1;
      }
      bytes := sendPtr;
      assert forall i :: 0 <= i < bytes ==> sendParms[i] == data[i];
      if bytes >= 3 { params := params.(padCount := UnChar(sendParms[2])); }
      if bytes >= 4 { params := params.(padChar := Ktrans(sendParms[3])); }
      if bytes >= 5 { params := params.(eol := UnChar(sendParms[4])); }
      if bytes >= 6 { params := params.(quote := sendParms[5]); }
    }

    /** `handle_send_packet`: take over the sender's parameters and answer with ours. */
    method HandleSendPacket(ghost data: seq<byte>)
      requires Buffers() && n < 224
      requires sendPtr == if |data| < SEND_DATA_SIZE - 1 then |data| else SEND_DATA_SIZE - 1
      requires sendParms[..sendPtr] == data[..sendPtr]
      modifies this`sent, this`params, this`sendPtr, ab
      ensures params == Negotiated(data)
      ensures sent == old(sent) + Sent(params, n, ACK_TYPE, ReplyFields(Usable(data)))
    {
      hide Sent;
      var bytes := TakeParams(data);
      FieldsArePrintable(bytes);
      hide ReplyFields;
      var length := FillFields(bytes);
      ghost var fields := ReplyFields(bytes);
      ab[0], ab[1], ab[2], ab[3] := START_CHAR, ToChar(length), ToChar(n), ACK_TYPE;
      assert ab[4..length + 1] == fields;
      assert ab[..length + 1] == ab[..4] + ab[4..length + 1];
      FinishPacket(length, n, ACK_TYPE, fields);
    }

    /** `a_b[++length] = c`, for field `length - 3` of the reply. */
    method PutField(length: nat, c: byte) returns (next: nat)
      requires Buffers() && 3 <= length <= 15 && ReplyFields(10)[length - 3] == c
      requires ab[4..length + 1] == ReplyFields(10)[..length - 3]
      modifies ab
      ensures next == length + 1 && ab[4..next + 1] == ReplyFields(10)[..next - 3]
    {
      next := length + 1;
      ghost var f := ReplyFields(10);
      assert f[..next - 3] == f[..length - 3] + [c];
      ab[next] := c;
    }

    /** The reply fields, one for each parameter offered; the capabilities bring three more. */
    method FillFields(bytes: nat) returns (length: nat)
      requires Buffers()
      modifies ab
      ensures length == 3 + |ReplyFields(bytes)| <= 16 && ab[4..length + 1] == ReplyFields(bytes)
    {
      FieldsByOffer(bytes);
      hide ReplyFields;
      length := FirstFields(bytes);
      if bytes < 6 { return; }
      length := LaterFields(bytes);
    }

    method FirstFields(bytes: nat) returns (length: nat)
      requires Buffers()
      modifies ab
      ensures length == (if bytes < 5 then 3 + bytes else 8) && ab[4..length + 1] == ReplyFields(10)[..length - 3]
    {
      FieldsByOffer(10);
      hide ReplyFields;
      length := 3;
      if bytes < 1 { return; }
      length := PutField(length, ToChar(94));
      if bytes < 2 { return; }
      length := PutField(length, ToChar(1));
      if bytes < 3 { return; }
      length := PutField(length, ToChar(0));
      if bytes < 4 { return; }
      length := PutField(length, 0x40);
      if bytes < 5 { return; }
      length := PutField(length, ToChar(END_CHAR));
    }

    method LaterFields(bytes: nat) returns (length: nat)
      requires Buffers() && bytes >= 6 && ab[4..9] == ReplyFields(10)[..5]
      modifies ab
      ensures length == (if bytes < 10 then 3 + bytes else 16) && ab[4..length + 1] == ReplyFields(10)[..length - 3]
    {
      FieldsByOffer(10);
      hide ReplyFields;
      length := PutField(8, '#' as int);
      if bytes < 7 { return; }
      length := PutField(length, 'N' as int);
      if bytes < 8 { return; }
      length := PutField(length, '1' as int);
      if bytes < 9 { return; }
      length := PutField(length, 'N' as int);
      if bytes < 10 { return; }
      length := PutField(length, ToChar(2));
      length := PutField(length, ToChar(0));
      length := PutField(length, ToChar(94));
      length := PutField(length, ToChar(94));
    }

    // ----- receiving

    /** What of a frame's data has been acted on. */
    ghost function DataState(base: Data, data: seq<byte>): Data
      reads this`kState, this`params
    {
      if kState == DATA_TYPE then Unquote(base, Tag(params.quote, data)) else base
    }

    ghost predicate InitState(data: seq<byte>)
      reads this`kState, this`sendPtr, sendParms
    {
      Buffers() && (kState == SEND_TYPE ==>
        && sendPtr == (if |data| < SEND_DATA_SIZE - 1 then |data| else SEND_DATA_SIZE - 1)
        && sendParms[..sendPtr] == data[..sendPtr])
    }

    /** A character of a data frame; the checkpoint stays where it is. */
    method StoreChar(c: byte, ghost base: Data, ghost d: Data)
      requires Reading(base, d) && osDataAddr < mem.Length
      modifies this`osDataAddr, this`kDataEscape, mem
      ensures Reading(base, DataChar(d, params.quote, c)) && osDataAddr <= old(osDataAddr) + 1
    {
      ghost var was := mem[..osDataAddr];
      KDataChar(c, d);
      assert mem[start..osDataAddrSaved] == was[start..osDataAddrSaved];
    }

    /** Act on one payload character: store it, or keep it as a send-initiate parameter. */
    method TakeChar(c: byte, ghost base: Data, ghost data: seq<byte>, ghost unread: nat)
      requires Reading(base, DataState(base, data)) && InitState(data) && Fits(unread + 1)
      modifies this`osDataAddr, this`kDataEscape, this`sendPtr, mem, sendParms
      ensures Reading(base, DataState(base, data + [c])) && InitState(data + [c]) && Fits(unread)
    {
      hide Unquote, Tag;
      if kState == DATA_TYPE {
        DataStep(base, params.quote, data, c);
        StoreChar(c, base, Unquote(base, Tag(params.quote, data)));
      } else if kState == SEND_TYPE {
        sendParms[sendPtr] := c;
        sendPtr := sendPtr + 1;
        if sendPtr >= SEND_DATA_SIZE {
          sendPtr := sendPtr - 1;
        }
      }
    }

    static lemma DataStep(base: Data, q: byte, data: seq<byte>, c: byte)
      ensures Unquote(base, Tag(q, data + [c])) == DataChar(Unquote(base, Tag(q, data)), q, c)
    {
      TagConcat(q, data, [c]);
      assert [c][1..] == [];
      assert Tag(q, [c]) == [Sym(q, c)] && [Sym(q, c)][1..] == [];
      UnquoteConcat(base, Tag(q, data), [Sym(q, c)]);
    }

    /** The loop that brings in the rest of a packet. */
    method ReadBody(count: nat, sum: nat, ghost base: Data) returns (end: Verdict, total: nat, ghost data: seq<byte>)
      requires Reading(base, DataState(base, [])) && InitState([]) && Fits(|line|)
      modifies this`line, this`osDataAddr, this`kDataEscape, this`sendPtr, mem, sendParms
      ensures Reading(base, DataState(base, data)) && InitState(data) && Fits(|line|)
      ensures data == Body(old(line), count).0
      ensures match Body(old(line), count).1
        case Cut => end == Quiet
        case Bad(rest) => end == Rejected && line == rest
        case Full(rest) => end == Accepted && line == rest && total == sum + Sum(data)
    {
      hide Unquote, Tag, Reading, InitState, DataState;
      total, data := sum, [];
      var length: nat := count;
      assert data + Body(line, count).0 == Body(line, count).0;
      while length > 0
        invariant length <= count && total == sum + Sum(data)
        invariant Reading(base, DataState(base, data)) && InitState(data) && Fits(|line|)
        invariant Body(old(line), count) == (data + Body(line, length).0, Body(line, length).1)
        decreases length
      {
        if line == [] {
          return Quiet, total, data;
        }
        var c := line[0];
        line := line[1..];
        if TooLow(c) {
          return Rejected, total, data;
        }
        ghost var rest := Body(line, length - 1).0;
        assert data + ([c] + rest) == data + [c] + rest;
        TakeChar(c, base, data, |line|);
        assert (data + [c])[..|data + [c]| - 1] == data;
        total, length, data := total + c as int, length - 1, data + [c];
      }
      end := Accepted;
    }

    /** Block check and END_CHAR. */
    method ReadTrailer(sum: nat, ghost data: seq<byte>) returns (end: Verdict)
      modifies this`line
      ensures |line| <= |old(line)|
      ensures match Trailer(old(line), n, kState, data, sum)
        case Silent => end == Quiet
        case Got(e, rest) => end != Quiet && line == rest && e == Frame(n, kState, data, end == Accepted)
    {
      hide Check;
      if line == [] {
        return Quiet;
      }
      var c := line[0];
      line := line[1..];
      if TooLow(c) || c != Check(sum) {
        return Rejected;
      }
      if line == [] {
        return Quiet;
      }
      c := line[0];
      line := line[1..];
      end := if c == END_CHAR then Accepted else Rejected;
    }

    /** Data, block check and END_CHAR. */
    method ReadData(count: nat, sum: nat, ghost base: Data) returns (end: Verdict, ghost data: seq<byte>)
      requires Reading(base, DataState(base, [])) && InitState([]) && Fits(|line|)
      modifies this`line, this`osDataAddr, this`kDataEscape, this`sendPtr, mem, sendParms
      ensures Reading(base, DataState(base, data)) && InitState(data) && Fits(|line|)
      ensures match DataAndTrailer(old(line), n, kState, count, sum)
        case Silent => end == Quiet
        case Got(e, rest) => end != Quiet && line == rest && e == Frame(n, kState, data, end == Accepted)
    {
      hide Unquote, Tag, Reading, InitState, DataState, Body, Trailer, Sum;
      var total;
      end, total, data := ReadBody(count, sum, base);
      if end == Accepted {
        end := ReadTrailer(total, data);
      }
    }

    /** The extended header, then data, block check and END_CHAR. */
    method ReadExtended(sum: nat, ghost base: Data) returns (end: Verdict, ghost data: seq<byte>)
      requires Reading(base, DataState(base, [])) && InitState([]) && Fits(|line|)
      modifies this`line, this`osDataAddr, this`kDataEscape, this`sendPtr, mem, sendParms
      ensures Reading(base, DataState(base, data)) && InitState(data) && Fits(|line|)
      ensures match Extended(old(line), n, kState, sum)
        case Silent => end == Quiet
        case Got(e, rest) => end != Quiet && line == rest && e == Frame(n, kState, data, end == Accepted)
    {
      hide Unquote, Tag, Reading, InitState, DataState, DataAndTrailer, Check;
      ghost var s := line;
      data := [];
      if line == [] { return Quiet, []; }
      var hi := line[0];
      line := line[1..];
      if TooLow(hi) { return Rejected, []; }
      if line == [] { return Quiet, []; }
      var lo := line[0];
      line := line[1..];
      assert line == s[2..];
      if TooLow(lo) { return Rejected, []; }
      if line == [] { return Quiet, []; }
      var check := line[0];
      line := line[1..];
      assert line == s[3..];
      if TooLow(check) || check != Check(sum + hi as int + lo as int) { return Rejected, []; }
      var count := AtLeast0(UnChar(hi) * 95 + UnChar(lo) - 1);
      end, data := ReadData(count, sum + hi as int + lo as int + check as int, base);
    }

    /** From the packet type to the verdict, on checkpoint `base`; the ghost result is the event. */
    method ReadFromType(len: byte, num: byte, ghost base: Data) returns (end: Verdict, ghost e: Event)
      requires Buffers() && Reading(base, base) && Fits(|line|) && sendPtr == 0 && n == UnChar(num)
      modifies this`line, this`osDataAddr, this`kDataEscape, this`sendPtr, this`kState, mem, sendParms
      ensures Fits(|line|) && Intact()
      ensures match AfterNumber(old(line), len, num)
        case Silent => end == Quiet
        case Got(got, rest) =>
          && line == rest && e == got && e.Frame? && e.n == n
          && end == (if e.ok then Accepted else Rejected)
          && Reading(base, DataState(base, e.data)) && InitState(e.data)
          && (e.ok ==> e.kind == kState)
    {
      hide Unquote, Reading, Extended, DataAndTrailer;
      e := BadHeader;
      ReadingIntact(base, base);
      if line == [] {
        return Quiet, e;
      }
      var c := line[0];
      line := line[1..];
      EmptyTag(base);
      ReadingIntact(base, base);
      if TooLow(c) {
        assert DataState(base, []) == base;
        return Rejected, Frame(n, 0, [], false);
      }
      kState := c;
      assert DataState(base, []) == base;
      var sum := len as int + num as int + c as int;
      ghost var data;
      if UnChar(len) == 0 {
        end, data := ReadExtended(sum, base);
      } else {
        end, data := ReadData(AtLeast0(UnChar(len) - 3), sum, base);
      }
      e := Frame(n, kState, data, end == Accepted);
      ReadingIntact(base, DataState(base, data));
    }

    lemma EmptyTag(d: Data)
      ensures Unquote(d, Tag(params.quote, [])) == d
    {
    }

    /** One frame after its START_CHAR: read, checkpoint, act, answer. */
    method ReceiveFrame(ghost p: Progress) returns (end: Verdict, ghost e: Event)
      requires Buffers() && Rep(p) && Fits(|line|) && sendPtr == 0 && n < 224
      modifies this`line, this`osDataAddr, this`kDataEscape, this`osDataAddrSaved, this`kDataEscapeSaved
      modifies this`sendPtr, this`kState, this`kStateSaved, this`lastN, this`n, this`params, this`sent
      modifies mem, sendParms, ab
      ensures Intact()
      ensures match FrameParse(old(line))
        case Silent => end == Quiet
        case Got(got, rest) =>
          && end != Quiet && line == rest && e == got && Fits(|line|) && n < 224
          && Rep(Advance(p, e))
          && n == (if e.Frame? then e.n else old(n))
          && sent == old(sent) + Reply(p.params, old(n), e)
          && (end == Accepted && kState == BREAK_TYPE <==> e.Frame? && e.ok && e.kind == BREAK_TYPE)
    {
      hide Unquote, Reading, AfterNumber, Sent, Tag;
      e := BadHeader;
      ghost var s := line;
      ReadingIntact(p.saved, p.cur);
      if line == [] {
        return Quiet, e;
      }
      var len := line[0];
      line := line[1..];
      if TooLow(len) {
        PacketError(p.saved, p.cur);
        ReadingIntact(p.saved, p.saved);
        return Rejected, BadHeader;
      }
      if line == [] {
        return Quiet, e;
      }
      var num := line[0];
      line := line[1..];
      assert line == s[2..];
      if TooLow(num) {
        PacketError(p.saved, p.cur);
        ReadingIntact(p.saved, p.saved);
        return Rejected, BadHeader;
      }
      n := UnChar(num);
      end, e := FinishFrame(len, num, p);
    }

    /** One frame after its length and sequence characters. */
    method FinishFrame(len: byte, num: byte, ghost p: Progress) returns (end: Verdict, ghost e: Event)
      requires Buffers() && Rep(p) && Fits(|line|) && sendPtr == 0 && n == UnChar(num) < 224
      modifies this`line, this`osDataAddr, this`kDataEscape, this`osDataAddrSaved, this`kDataEscapeSaved
      modifies this`sendPtr, this`kState, this`kStateSaved, this`lastN, this`params, this`sent
      modifies mem, sendParms, ab
      ensures Intact()
      ensures match AfterNumber(old(line), len, num)
        case Silent => end == Quiet
        case Got(got, rest) =>
          && end != Quiet && line == rest && e == got && Fits(|line|)
          && Rep(Advance(p, e)) && e.Frame? && e.n == n
          && sent == old(sent) + Reply(p.params, n, e)
          && (end == Accepted && kState == BREAK_TYPE <==> e.ok && e.kind == BREAK_TYPE)
    {
      hide Unquote, Reading, AfterNumber, Sent, Tag;
      Checkpoint(p);
      ghost var base := if n == p.last then p.saved else p.cur;
      end, e := ReadFromType(len, num, base);
      if end == Quiet {
        return;
      }
      if end == Rejected {
        PacketError(base, DataState(base, e.data));
        ReadingIntact(base, base);
        RejectedAdvance(p, e, base);
      } else {
        Answer(base, e);
        AcceptedAdvance(p, e, base);
      }
    }

    static lemma RejectedAdvance(p: Progress, e: Event, base: Data)
      requires e.Frame? && !e.ok && base == if e.n == p.last then p.saved else p.cur
      ensures Advance(p, e) == Progress(base, base, e.n, p.params)
    {
    }

    static lemma AcceptedAdvance(p: Progress, e: Event, base: Data)
      requires e.Frame? && e.ok && base == if e.n == p.last then p.saved else p.cur
      ensures Advance(p, e) == Progress(base,
        if e.kind == DATA_TYPE then Unquote(base, Tag(p.params.quote, e.data)) else base, e.n, ParamsAfter(p.params, e))
    {
    }

    /** The reply to an accepted frame. */
    method Answer(ghost base: Data, ghost e: Event)
      requires e.Frame? && e.ok && e.kind == kState && e.n == n < 224 && InitState(e.data)
      modifies this`sendPtr, this`params, this`sent, ab
      ensures params == ParamsAfter(old(params), e)
      ensures sent == old(sent) + Reply(old(params), n, e)
    {
      hide Sent;
      if kState == SEND_TYPE {
        HandleSendPacket(e.data);
      } else {
        SendShort(ACK_TYPE);
      }
    }

    /** Waiting for START_CHAR or control-C between frames. */
    method AwaitStart() returns (found: bool, interrupted: bool)
      modifies this`line
      ensures |line| <= |old(line)|
      ensures found ==> !interrupted && Receive(old(line)) == Receive([START_CHAR] + line)
      ensures !found ==> Receive(old(line)) == ([], if interrupted then Interrupt else Silence)
    {
      hide FrameParse;
      ghost var s := line;
      while line != []
        invariant |line| <= |s| && Receive(s) == Receive(line)
        decreases |line|
      {
        var c := line[0];
        line := line[1..];
        if c == START_CHAR {
          return true, false;
        }
        if c == ETX_CHAR {
          return false, true;
        }
      }
      return false, false;
    }

    /** After the events `es` of the line `s`, with `was` sent before. */
    ghost predicate After(es: seq<Event>, s: seq<byte>, was: seq<byte>, done: bool)
      reads this, mem
    {
      && Buffers() && Rep(Fold(INITIAL, es)) && Fits(|line|) && n < 224 && n == LastNumber(es, 0)
      && sent == was + Replies(es, DEFAULTS, 0)
      && Receive(s) == if done then (es, Break) else (es + Receive(line).0, Receive(line).1)
    }

    static lemma MoreEvents(es: seq<Event>, e: Event, was: seq<byte>)
      ensures Fold(INITIAL, es + [e]) == Advance(Fold(INITIAL, es), e)
      ensures LastNumber(es + [e], 0) == if e.Frame? then e.n else LastNumber(es, 0)
      ensures was + Replies(es + [e], DEFAULTS, 0) ==
        was + Replies(es, DEFAULTS, 0) + Reply(Fold(INITIAL, es).params, LastNumber(es, 0), e)
    {
      hide Advance, Fold, Replies, Reply;
      FoldAppend(INITIAL, es, e);
      RepliesAppend(INITIAL, 0, es, e);
      assert (es + [e])[..|es|] == es;
    }

    static lemma ReceiveNext(s: seq<byte>, line: seq<byte>, t: seq<byte>, es: seq<Event>)
      requires Receive(s) == (es + Receive(line).0, Receive(line).1)
      requires Receive(line) == Receive([START_CHAR] + t)
      ensures FrameParse(t) == Silent ==> Receive(s) == (es, Silence)
      ensures match FrameParse(t)
        case Silent => true
        case Got(e, rest) =>
          |rest| < |t| &&
          Receive(s) == if e.Frame? && e.ok && e.kind == BREAK_TYPE then (es + [e], Break)
                        else (es + [e] + Receive(rest).0, Receive(rest).1)
    {
      hide FrameParse;
      assert ([START_CHAR] + t)[1..] == t && es + [] == es;
      FrameParseShrinks(t);
      if FrameParse(t).Got? {
        var e, more := FrameParse(t).event, Receive(FrameParse(t).rest).0;
        assert es + ([e] + more) == es + [e] + more;
      }
    }

    /** One turn of the main loop. `Quiet` means the reception ended here, by control-C or silence. */
    method Turn(ghost es: seq<Event>, ghost s: seq<byte>, ghost was: seq<byte>)
      returns (end: Verdict, done: bool, interrupted: bool, ghost e: Event)
      requires After(es, s, was, false)
      modifies this`line, this`osDataAddr, this`kDataEscape, this`osDataAddrSaved, this`kDataEscapeSaved
      modifies this`sendPtr, this`kState, this`kStateSaved, this`lastN, this`n, this`params, this`sent
      modifies mem, sendParms, ab
      ensures Intact()
      ensures end == Quiet ==> Receive(s) == (es, if interrupted then Interrupt else Silence)
      ensures end == Quiet && interrupted ==> Rep(Fold(INITIAL, es)) && sent == was + Replies(es, DEFAULTS, 0)
      ensures end != Quiet ==> After(es + [e], s, was, done) && |line| < |old(line)|
    {
      hide FrameParse, Advance, Fold, Replies, Unquote, Reply, LastNumber, Receive, Reading;
      sendPtr := 0;
      done, e := false, BadHeader;
      var found;
      ghost var here, p := line, Fold(INITIAL, es);
      ReadingIntact(p.saved, p.cur);
      found, interrupted := AwaitStart();
      if !found {
        assert es + [] == es;
        return Quiet, false, interrupted, e;
      }
      ghost var t := line;
      ReceiveNext(s, here, t, es);
      end, e := ReceiveFrame(p);
      done := end == Accepted && kState == BREAK_TYPE;
      MoreEvents(es, e, was);
    }

    /** `k_recv`. */
    method KRecv() returns (exit: Exit)
      requires Buffers() && start + |line| <= mem.Length
      modifies this, mem, sendParms, ab
      ensures mem[..start] == old(mem[..start])
      ensures Carries(old(line), Receive(old(line)).0)
      ensures var (es, end) := Receive(old(line));
        var out := Unquote(NOTHING, Delivered(es, DEFAULTS, -1)).out;
        match exit
        case Finished(size) =>
          end == Break && size == |out| && start + size <= mem.Length && mem[start..start + size] == out
          && sent == old(sent) + Replies(es, DEFAULTS, 0)
        case Interrupted =>
          end == Interrupt && start + |out| <= mem.Length && mem[start..start + |out|] == out
          && sent == old(sent) + Replies(es, DEFAULTS, 0)
        case Waiting => end == Silence
    {
      hide FrameParse, Advance, Fold, Replies, Delivered, Unquote, Reply, Receive, LastNumber, Reading, Carries;
      ReceivedWasSent(line);
      Initialize();
      ghost var s, was, es: seq<Event> := line, sent, [];
      var done := false;
      NoEvents();
      assert was + [] == was && es + Receive(line).0 == Receive(line).0;
      while !done
        invariant After(es, s, was, done) && below == old(mem[..start]) && Intact()
        decreases !done, |line|
      {
        var end, interrupted;
        ghost var e;
        end, done, interrupted, e := Turn(es, s, was);
        if end == Quiet {
          if interrupted {
            DeliveryIsExact(es);
            StoredBytes(Fold(INITIAL, es).saved, Fold(INITIAL, es).cur);
          }
          return if interrupted then Interrupted else Waiting;
        }
        es := es + [e];
      }
      DeliveryIsExact(es);
      StoredBytes(Fold(INITIAL, es).saved, Fold(INITIAL, es).cur);
      return Finished(osDataAddr - start);
    }

    /** The assignments before the main loop. */
    method Initialize()
      requires Buffers() && start <= mem.Length
      modifies this
      ensures Rep(INITIAL) && Intact() && below == mem[..start] && n == 0 && osDataAddr == start
      ensures line == old(line) && sent == old(sent)
    {
      params := DEFAULTS;
      osDataAddr, kDataEscape, kState := start, false, 0;
      osDataAddrSaved, kDataEscapeSaved, kStateSaved := start, false, 0;
      n, lastN, below := 0, -1, mem[..start];
    }

    /** Memory holds the delivered bytes. */
    lemma StoredBytes(base: Data, d: Data)
      requires Reading(base, d)
      ensures osDataAddr == start + |d.out| <= mem.Length && mem[start..osDataAddr] == d.out
    {
    }

    lemma NoEvents()
      ensures Fold(INITIAL, []) == INITIAL && Replies([], DEFAULTS, 0) == [] && LastNumber([], 0) == 0
    {
    }
  }
}
