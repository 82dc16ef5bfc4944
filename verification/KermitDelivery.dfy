/** What a Kermit reception delivers. `Fold` is the receiver's own checkpoint-and-rollback bookkeeping;
    `Delivered` says which payloads count without any bookkeeping; the two are proved equal. */
module KermitDelivery {
  import opened Common
  import opened KermitWire

  /** The protocol parameters an accepted send-initiate frame sets. */
  datatype Params = Params(quote: byte, eol: byte, padCount: nat, padChar: byte)

  const DEFAULTS := Params(K_ESCAPE, END_CHAR, 0, 0)

  const SEND_DATA_SIZE: nat := 20

  /** How many send-initiate bytes are interpreted: the last one is ignored if it filled the buffer. */
  function Usable(data: seq<byte>): nat {
    if |data| >= SEND_DATA_SIZE - 1 then SEND_DATA_SIZE - 2 else |data|
  }

  function Negotiated(data: seq<byte>): Params {
    var n := Usable(data);
    Params(if n >= 6 then data[5] else K_ESCAPE,
           if n >= 5 then UnChar(data[4]) else END_CHAR,
           if n >= 3 then UnChar(data[2]) else 0,
           if n >= 4 then Ktrans(data[3]) else 0)
  }

  function ParamsAfter(p: Params, e: Event): Params {
    if e.Frame? && e.ok && e.kind == SEND_TYPE then Negotiated(e.data) else p
  }

  /** The payload of an accepted data frame, with the prefix in force; nothing for any other event. */
  function Payload(e: Event, quote: byte): seq<Sym> {
    if e.Frame? && e.ok && e.kind == DATA_TYPE then Tag(quote, e.data) else []
  }

  // ----- the receiver's bookkeeping

  /** `saved` is the checkpoint, `cur` the running state, `last` the last sequence number (-1 at first). */
  datatype Progress = Progress(saved: Data, cur: Data, last: int, params: Params)

  const NOTHING := Data([], false)
  const INITIAL := Progress(NOTHING, NOTHING, -1, DEFAULTS)

  /** A new sequence number checkpoints, an old one and every error roll back to the checkpoint. */
  function Advance(p: Progress, e: Event): Progress {
    match e
    case BadHeader => p.(cur := p.saved)
    case Frame(n, kind, data, ok) =>
      var base := if n == p.last then p.saved else p.cur;
      Progress(base, Unquote(base, Payload(e, p.params.quote)), n, ParamsAfter(p.params, e))
  }

  function Fold(p: Progress, es: seq<Event>): Progress
    decreases |es|
  {
    if es == [] then p else Fold(Advance(p, es[0]), es[1..])
  }

  // ----- what should be delivered

  /** The event belongs to the same run as a preceding frame numbered `n`. */
  predicate Continues(e: Event, n: int) {
    e.BadHeader? || e.n == n
  }

  function NumberAfter(e: Event, last: int): int {
    if e.Frame? then e.n else last
  }

  /** Every maximal run of events with one sequence number contributes the payload of its last event. */
  function Delivered(es: seq<Event>, params: Params, last: int): seq<Sym>
    decreases |es|
  {
    if es == [] then []
    else
      var n := NumberAfter(es[0], last);
      (if |es| > 1 && Continues(es[1], n) then [] else Payload(es[0], params.quote))
      + Delivered(es[1..], ParamsAfter(params, es[0]), n)
  }

  lemma UnquoteNothing(d: Data)
    ensures Unquote(d, []) == d
  {
  }

  lemma {:induction false} FoldDelivers(p: Progress, es: seq<Event>)
    requires es != []
    ensures Fold(p, es).cur ==
      Unquote(if Continues(es[0], p.last) then p.saved else p.cur, Delivered(es, p.params, p.last))
    decreases |es|
  {
    hide Payload;
    var e, next := es[0], Advance(p, es[0]);
    var base := if Continues(e, p.last) then p.saved else p.cur;
    var n := NumberAfter(e, p.last);
    assert next.saved == base && next.last == n && next.params == ParamsAfter(p.params, e);
    var mine, rest := Payload(e, p.params.quote), Delivered(es[1..], next.params, n);
    PayloadOfBadHeader(p.params.quote);
    UnquoteNothing(base);
    assert next.cur == Unquote(base, mine);
    if |es| == 1 {
      assert mine + [] == mine;
    } else {
      FoldDelivers(next, es[1..]);
      UnquoteConcat(base, mine, rest);
      assert [] + rest == rest;
    }
  }

  lemma PayloadOfBadHeader(q: byte)
    ensures Payload(BadHeader, q) == []
  {
  }

  /** The main theorem on events: however often frames are repeated or rejected, what the checkpointing
      leaves is the unquoted concatenation of the last payload of every run. */
  lemma DeliveryIsExact(es: seq<Event>)
    ensures Fold(INITIAL, es).cur == Unquote(NOTHING, Delivered(es, DEFAULTS, -1))
  {
    if es != [] {
      FoldDelivers(INITIAL, es);
    }
  }

  // ----- the assumption that length and sequence characters arrive intact

  /** The frames of a run of events, without the damaged headers between them. */
  function Frames(es: seq<Event>): (fs: seq<Event>)
    ensures forall i :: 0 <= i < |fs| ==> fs[i].Frame?
  {
    if es == [] then [] else (if es[0].Frame? then [es[0]] else []) + Frames(es[1..])
  }

  /** What is delivered when nothing but the sequence numbers of the frames groups them. */
  function DeliveredFrames(fs: seq<Event>, params: Params): seq<Sym>
    requires forall i :: 0 <= i < |fs| ==> fs[i].Frame?
    decreases |fs|
  {
    if fs == [] then []
    else
      (if |fs| > 1 && fs[1].n == fs[0].n then [] else Payload(fs[0], params.quote))
      + DeliveredFrames(fs[1..], ParamsAfter(params, fs[0]))
  }

  /** An accepted data frame with a payload, a damaged header right after it, and no repetition before the next
      number: what a line check could see. */
  predicate LostAt(es: seq<Event>, i: nat) {
    && i + 1 < |es| && es[i].Frame? && es[i].ok && es[i].kind == DATA_TYPE && es[i].data != []
    && es[i + 1].BadHeader?
    && (Frames(es[i + 1..]) == [] || Frames(es[i + 1..])[0].n != es[i].n)
  }

  lemma LostLater(es: seq<Event>, i: nat)
    requires es != []
    ensures LostAt(es, i + 1) <==> LostAt(es[1..], i)
  {
    if i + 2 < |es| {
      assert es[1..][i + 1..] == es[i + 2..];
    }
  }

  lemma NothingLostLater(es: seq<Event>)
    requires es != []
    ensures (forall i: nat :: !LostAt(es, i)) <==> !LostAt(es, 0) && forall i: nat :: !LostAt(es[1..], i)
  {
    hide LostAt;
    forall i: nat
      ensures LostAt(es, i + 1) <==> LostAt(es[1..], i)
    {
      LostLater(es, i);
    }
    if LostAt(es, 0) || exists i: nat :: LostAt(es[1..], i) {
    } else {
      forall i: nat
        ensures !LostAt(es, i)
      {
        if i > 0 {
          LostLater(es, i - 1);
        }
      }
    }
  }

  /** The exact condition for loss: a damaged header costs something exactly when it follows an accepted payload
      that is not repeated before the next sequence number. */
  lemma {:induction false} LossIff(es: seq<Event>, params: Params, last: int)
    ensures |Delivered(es, params, last)| <= |DeliveredFrames(Frames(es), params)|
    ensures Delivered(es, params, last) == DeliveredFrames(Frames(es), params) <==> forall i: nat :: !LostAt(es, i)
    decreases |es|
  {
    hide Payload, LostAt;
    if es == [] {
      NothingLost(es);
    } else {
      var e, n := es[0], NumberAfter(es[0], last);
      LossIff(es[1..], ParamsAfter(params, e), n);
      NothingLostLater(es);
      HeadLoss(es, params.quote);
      PayloadOfBadHeader(params.quote);
      FramesHead(es, params);
      var got, sent := Kept(es, n, params.quote), KeptFrame(es, params.quote);
      SumsEqual(got, Delivered(es[1..], ParamsAfter(params, e), n),
                sent, DeliveredFrames(Frames(es[1..]), ParamsAfter(params, e)));
    }
  }

  lemma NothingLost(es: seq<Event>)
    requires es == []
    ensures forall i: nat :: !LostAt(es, i)
  {
  }

  /** What the first event contributes, and what it would as the first of the frames alone. */
  function Kept(es: seq<Event>, n: int, quote: byte): seq<Sym>
    requires es != []
  {
    if |es| > 1 && Continues(es[1], n) then [] else Payload(es[0], quote)
  }

  function KeptFrame(es: seq<Event>, quote: byte): seq<Sym>
    requires es != []
  {
    if es[0].BadHeader? then []
    else if Frames(es[1..]) != [] && Frames(es[1..])[0].n == es[0].n then []
    else Payload(es[0], quote)
  }

  lemma FramesHead(es: seq<Event>, params: Params)
    requires es != []
    ensures DeliveredFrames(Frames(es), params)
      == KeptFrame(es, params.quote) + DeliveredFrames(Frames(es[1..]), ParamsAfter(params, es[0]))
  {
    hide Payload;
    if es[0].Frame? {
      assert Frames(es)[1..] == Frames(es[1..]);
      assert |Frames(es)| > 1 ==> Frames(es)[1] == Frames(es[1..])[0];
    } else {
      assert [] + Frames(es[1..]) == Frames(es[1..]);
      var d := DeliveredFrames(Frames(es[1..]), params);
      assert [] + d == d;
    }
  }

  /** At the first event the two differ exactly when it is lost, and then nothing of it is kept. */
  lemma HeadLoss(es: seq<Event>, quote: byte)
    requires es != []
    ensures es[0].Frame? ==>
      (if LostAt(es, 0) then Kept(es, es[0].n, quote) == [] && KeptFrame(es, quote) != []
       else Kept(es, es[0].n, quote) == KeptFrame(es, quote))
    ensures es[0].BadHeader? ==> !LostAt(es, 0) && KeptFrame(es, quote) == []
  {
    if |es| > 1 && es[0].Frame? && es[1].Frame? {
      assert Frames(es[1..])[0] == es[1];
    }
  }

  lemma SumsEqual(a: seq<Sym>, x: seq<Sym>, b: seq<Sym>, y: seq<Sym>)
    requires |x| <= |y| && (a == b || (a == [] && b != []))
    ensures |a + x| <= |b + y| && (a + x == b + y <==> a == b && x == y)
  {
    if a == b && a + x == b + y {
      assert x == (a + x)[|a|..] == y;
    }
  }

  /** So as long as nothing is lost, damaged headers change nothing: the receiver ends with the last payload of
      every maximal run of frames with one number. */
  lemma DeliveryOfFrames(es: seq<Event>)
    ensures (forall i: nat :: !LostAt(es, i))
      ==> Fold(INITIAL, es).cur == Unquote(NOTHING, DeliveredFrames(Frames(es), DEFAULTS))
  {
    hide LostAt, Fold, Delivered, DeliveredFrames, Unquote;
    DeliveryIsExact(es);
    LossIff(es, DEFAULTS, -1);
  }

  /** With intact headers nothing is lost. */
  lemma {:induction false} IntactHeaders(es: seq<Event>, params: Params, last: int)
    requires forall i :: 0 <= i < |es| ==> es[i].Frame?
    ensures Frames(es) == es && Delivered(es, params, last) == DeliveredFrames(es, params)
    decreases |es|
  {
    if es != [] {
      IntactHeaders(es[1..], ParamsAfter(params, es[0]), es[0].n);
    }
  }

  /** A line on which an acknowledged payload is lost: a header damaged by a NUL between two accepted frames
      rolls the first one back, and the second then builds on the older checkpoint. */
  lemma DamagedHeaderLosesData()
    ensures var a, b := Frame(1, DATA_TYPE, [65], true), Frame(2, DATA_TYPE, [66], true);
      var first, second := Line(1, DATA_TYPE, [65]), Line(2, DATA_TYPE, [66]);
      && Receive(first + second) == ([a, b], Silence)
      && Receive(first + ([START_CHAR, 0] + second)) == ([a, BadHeader, b], Silence)
      && LostAt([a, BadHeader, b], 0)
      && Fold(INITIAL, [a, b]).cur.out == [65, 66] && Fold(INITIAL, [a, BadHeader, b]).cur.out == [66]
  {
    hide Line, Receive, Fold, Unquote, Delivered;
    var a, b := Frame(1, DATA_TYPE, [65], true), Frame(2, DATA_TYPE, [66], true);
    var second := Line(2, DATA_TYPE, [66]);
    ReceiveLine(1, DATA_TYPE, [65], second);
    ReceiveLine(1, DATA_TYPE, [65], [START_CHAR, 0] + second);
    DamagedHeader(second);
    ReceiveLine(2, DATA_TYPE, [66], []);
    assert second + [] == second;
    ReceiveNothing();
    assert [b] + [] == [b] && [a] + [b] == [a, b] && [a] + ([BadHeader] + [b]) == [a, BadHeader, b];
    assert [a, BadHeader, b][1..] == [BadHeader, b] && Frames([BadHeader, b]) == [b] by {
      assert [BadHeader, b][1..] == [b] && [b][1..] == [];
      assert Frames([b]) == [b];
    }
    DeliveryIsExact([a, b]);
    DeliveryIsExact([a, BadHeader, b]);
    DeliveredExample();
  }

  lemma DamagedHeader(rest: seq<byte>)
    ensures Receive([START_CHAR, 0] + rest) == ([BadHeader] + Receive(rest).0, Receive(rest).1)
  {
    var s := [START_CHAR, 0] + rest;
    assert s[1..] == [0] + rest && s[1..][1..] == rest;
  }

  lemma ReceiveNothing()
    ensures Receive([]) == ([], Silence)
  {
  }

  lemma DeliveredExample()
    ensures var a, b := Frame(1, DATA_TYPE, [65], true), Frame(2, DATA_TYPE, [66], true);
      && Unquote(NOTHING, Delivered([a, b], DEFAULTS, -1)).out == [65, 66]
      && Unquote(NOTHING, Delivered([a, BadHeader, b], DEFAULTS, -1)).out == [66]
  {
    hide Unquote, Delivered, Tag;
    var a, b := Frame(1, DATA_TYPE, [65], true), Frame(2, DATA_TYPE, [66], true);
    TwoPayloads(a, b, DEFAULTS, -1);
    OneUnquoted(NOTHING, 65);
    OneUnquoted(NOTHING, 66);
    OneUnquoted(Data([65], false), 66);
    UnquoteConcat(NOTHING, Tag(K_ESCAPE, [65]), Tag(K_ESCAPE, [66]));
    assert [] + [65] == [65] && [65] + [66] == [65, 66] && [] + [66] == [66];
  }

  /** Two accepted data frames with different numbers, without and with a damaged header between them. */
  lemma TwoPayloads(a: Event, b: Event, p: Params, last: int)
    requires a.Frame? && a.ok && a.kind == DATA_TYPE && b.Frame? && b.ok && b.kind == DATA_TYPE && a.n != b.n
    ensures Delivered([a, b], p, last) == Tag(p.quote, a.data) + Tag(p.quote, b.data)
    ensures Delivered([a, BadHeader, b], p, last) == Tag(p.quote, b.data)
  {
    hide Delivered, Tag;
    LastPayload(b, p, a.n);
    DeliveredFirst(a, [b], p, last);
    assert [a] + [b] == [a, b] && [a] + [BadHeader, b] == [a, BadHeader, b];
    DeliveredLost(a, b, p, last);
  }

  lemma LastPayload(b: Event, p: Params, last: int)
    requires b.Frame? && b.ok && b.kind == DATA_TYPE
    ensures Delivered([b], p, last) == Tag(p.quote, b.data)
  {
    hide Tag;
    assert [b][1..] == [];
  }

  lemma DeliveredLost(a: Event, b: Event, p: Params, last: int)
    requires a.Frame? && a.kind == DATA_TYPE && b.Frame? && b.ok && b.kind == DATA_TYPE && a.n != b.n
    ensures Delivered([a, BadHeader, b], p, last) == Tag(p.quote, b.data)
  {
    hide Tag;
    LastPayload(b, p, a.n);
    assert [a, BadHeader, b][1..] == [BadHeader, b] && [BadHeader, b][1..] == [b];
    assert Delivered([BadHeader, b], p, a.n) == [] + Delivered([b], p, a.n);
  }

  lemma OneUnquoted(d: Data, c: byte)
    requires !d.escaped && c != K_ESCAPE
    ensures Unquote(d, Tag(K_ESCAPE, [c])) == Data(d.out + [c], false)
  {
    TagOne(c);
    UnquotePlain(d, c);
  }

  lemma TagOne(c: byte)
    ensures Tag(K_ESCAPE, [c]) == [Sym(K_ESCAPE, c)]
  {
    assert [c][1..] == [];
  }

  lemma UnquotePlain(d: Data, c: byte)
    requires !d.escaped && c != K_ESCAPE
    ensures Unquote(d, [Sym(K_ESCAPE, c)]) == Data(d.out + [c], false)
  {
    assert [Sym(K_ESCAPE, c)][1..] == [];
    UnquoteNothing(Data(d.out + [c], false));
  }

  // ----- replies

  /** The reply parameters, cut to as many as the sender offered; the last four go together. */
  function ReplyFields(offered: nat): seq<byte> {
    var fields: seq<byte> :=
      [ToChar(94), ToChar(1), ToChar(0), 0x40, ToChar(END_CHAR), '#' as int, 'N' as int, '1' as int, 'N' as int];
    if offered <= 9 then fields[..offered] else fields + [ToChar(2), ToChar(0), ToChar(94), ToChar(94)]
  }

  function Padding(count: nat, c: byte): seq<byte> {
    if count == 0 then [] else Padding(count - 1, c) + [c]
  }

  /** Padding, packet and line end, as transmitted: a NUL line end stops the sending loop instead. */
  function Sent(p: Params, n: nat, kind: byte, data: seq<byte>): seq<byte> {
    Padding(p.padCount, p.padChar) + [START_CHAR] + Packet(n, kind, data) + if p.eol == 0 then [] else [p.eol]
  }

  /** What is answered to an event; `n` is the number the last readable sequence character gave. */
  function Reply(p: Params, n: nat, e: Event): seq<byte> {
    match e
    case BadHeader => Sent(p, n, NACK_TYPE, [])
    case Frame(m, kind, data, ok) =>
      if !ok then Sent(p, m, NACK_TYPE, [])
      else if kind == SEND_TYPE then Sent(Negotiated(data), m, ACK_TYPE, ReplyFields(Usable(data)))
      else Sent(p, m, ACK_TYPE, [])
  }

  function Replies(es: seq<Event>, p: Params, n: nat): seq<byte>
    decreases |es|
  {
    if es == [] then []
    else Reply(p, n, es[0]) + Replies(es[1..], ParamsAfter(p, es[0]), if es[0].Frame? then es[0].n else n)
  }

  /** The number of the last frame, or `n` before any. */
  function LastNumber(es: seq<Event>, n: nat): nat {
    if es == [] then n
    else var e := es[|es| - 1]; if e.Frame? then e.n else LastNumber(es[..|es| - 1], n)
  }

  lemma {:induction false} FoldAppend(p: Progress, es: seq<Event>, e: Event)
    ensures Fold(p, es + [e]) == Advance(Fold(p, es), e)
    decreases |es|
  {
    hide Advance;
    if es == [] {
      assert es + [e] == [e] && [e][1..] == [];
    } else {
      assert (es + [e])[1..] == es[1..] + [e];
      FoldAppend(Advance(p, es[0]), es[1..], e);
    }
  }

  lemma {:induction false} LastNumberTail(es: seq<Event>, n: nat)
    requires es != []
    ensures LastNumber(es, n) == LastNumber(es[1..], if es[0].Frame? then es[0].n else n)
    decreases |es|
  {
    if |es| == 1 {
      assert es[..0] == [] == es[1..];
    } else if !es[|es| - 1].Frame? {
      LastNumberTail(es[..|es| - 1], n);
      assert es[..|es| - 1][1..] == es[1..][..|es| - 2];
    }
  }

  /** Replies are sent in order, each with the parameters and the number known when its event ends. */
  lemma {:induction false} RepliesAppend(p: Progress, n: nat, es: seq<Event>, e: Event)
    ensures Replies(es + [e], p.params, n) ==
      Replies(es, p.params, n) + Reply(Fold(p, es).params, LastNumber(es, n), e)
    decreases |es|
  {
    hide Reply, ParamsAfter, LastNumber;
    if es == [] {
      assert es + [e] == [e] && [e][1..] == [];
      assert LastNumber(es, n) == n by { EmptyNumber(n); }
    } else {
      assert (es + [e])[1..] == es[1..] + [e];
      var n' := if es[0].Frame? then es[0].n else n;
      AdvanceParams(p, es[0]);
      RepliesAppend(Advance(p, es[0]), n', es[1..], e);
      LastNumberTail(es, n);
    }
  }

  lemma EmptyNumber(n: nat)
    ensures LastNumber([], n) == n
  {
  }

  lemma AdvanceParams(p: Progress, e: Event)
    ensures Advance(p, e).params == ParamsAfter(p.params, e)
  {
  }

  /** Every reply packet passes the receiver's own tests, for any send-initiate payload, once the line end
      the other side asked for is replaced by the one this receiver expects. */
  lemma ReplyIsReadable(n: nat, offered: nat, rest: seq<byte>)
    requires n < 224
    ensures FrameParse(Packet(n, ACK_TYPE, []) + [END_CHAR] + rest) == Got(Frame(n, ACK_TYPE, [], true), rest)
    ensures FrameParse(Packet(n, NACK_TYPE, []) + [END_CHAR] + rest) == Got(Frame(n, NACK_TYPE, [], true), rest)
    ensures FrameParse(Packet(n, ACK_TYPE, ReplyFields(offered)) + [END_CHAR] + rest)
         == Got(Frame(n, ACK_TYPE, ReplyFields(offered), true), rest)
  {
    hide Packet, FrameParse;
    FieldsArePrintable(offered);
    PacketRoundTrip(n, ACK_TYPE, [], rest);
    PacketRoundTrip(n, NACK_TYPE, [], rest);
    PacketRoundTrip(n, ACK_TYPE, ReplyFields(offered), rest);
  }

  lemma FieldsByOffer(offered: nat)
    ensures ReplyFields(offered) == if offered <= 9 then ReplyFields(10)[..offered] else ReplyFields(10)
    ensures ReplyFields(10) == [126, 33, 32, 0x40, 45, '#' as int, 'N' as int, '1' as int, 'N' as int, 34, 32, 126, 126]
  {
  }

  lemma FieldsArePrintable(offered: nat)
    ensures |ReplyFields(offered)| <= 13
    ensures forall i :: 0 <= i < |ReplyFields(offered)| ==> !TooLow(ReplyFields(offered)[i])
  {
  }

  // ----- a whole transfer

  function Line(n: nat, kind: byte, data: seq<byte>): seq<byte> {
    [START_CHAR] + Packet(n, kind, data) + [END_CHAR]
  }

  /** A send-initiate payload that announces `q` as the control prefix. */
  function InitData(q: byte): seq<byte> {
    [ToChar(94), ToChar(1), ToChar(0), 0x40, ToChar(END_CHAR), q]
  }

  function DataLines(i: nat, chunks: seq<seq<byte>>): seq<byte>
    decreases |chunks|
  {
    if chunks == [] then [] else Line(i % 64, DATA_TYPE, chunks[0]) + DataLines(i + 1, chunks[1..])
  }

  function DataEvents(i: nat, chunks: seq<seq<byte>>): seq<Event>
    decreases |chunks|
  {
    if chunks == [] then [] else [Frame(i % 64, DATA_TYPE, chunks[0], true)] + DataEvents(i + 1, chunks[1..])
  }

  /** Send-initiate, one data frame a chunk with sequence numbers modulo 64, break. */
  function Session(q: byte, chunks: seq<seq<byte>>): seq<byte> {
    Line(0, SEND_TYPE, InitData(q)) + DataLines(1, chunks) + Line((1 + |chunks|) % 64, BREAK_TYPE, [])
  }

  lemma ReceiveLine(n: nat, kind: byte, data: seq<byte>, rest: seq<byte>)
    requires Sendable(n, kind, data)
    ensures Receive(Line(n, kind, data) + rest) ==
      if kind == BREAK_TYPE then ([Frame(n, kind, data, true)], Break)
      else ([Frame(n, kind, data, true)] + Receive(rest).0, Receive(rest).1)
  {
    hide FrameParse, Packet;
    var s := Line(n, kind, data) + rest;
    assert s[0] == START_CHAR;
    assert s[1..] == Packet(n, kind, data) + [END_CHAR] + rest;
    PacketRoundTrip(n, kind, data, rest);
  }

  predicate Chunked(chunks: seq<seq<byte>>) {
    && (forall i :: 0 <= i < |chunks| ==> |chunks[i]| <= 220)
    && forall j :: 0 <= j < |Flatten(chunks)| ==> !TooLow(Flatten(chunks)[j])
  }

  lemma {:induction false} ReceiveDataLines(i: nat, chunks: seq<seq<byte>>, rest: seq<byte>)
    requires Chunked(chunks)
    ensures Receive(DataLines(i, chunks) + rest) == (DataEvents(i, chunks) + Receive(rest).0, Receive(rest).1)
    decreases |chunks|
  {
    hide Receive, Line;
    if chunks == [] {
      assert DataLines(i, chunks) + rest == rest;
      assert DataEvents(i, chunks) + Receive(rest).0 == Receive(rest).0;
    } else {
      var more := DataLines(i + 1, chunks[1..]) + rest;
      assert DataLines(i, chunks) + rest == Line(i % 64, DATA_TYPE, chunks[0]) + more;
      ChunkedTail(chunks);
      ReceiveLine(i % 64, DATA_TYPE, chunks[0], more);
      ReceiveDataLines(i + 1, chunks[1..], rest);
      var e, es := Frame(i % 64, DATA_TYPE, chunks[0], true), DataEvents(i + 1, chunks[1..]);
      assert [e] + (es + Receive(rest).0) == DataEvents(i, chunks) + Receive(rest).0;
    }
  }

  lemma ChunkedTail(chunks: seq<seq<byte>>)
    requires Chunked(chunks) && chunks != []
    ensures Chunked(chunks[1..]) && forall j :: 0 <= j < |chunks[0]| ==> !TooLow(chunks[0][j])
  {
    var all, tail := Flatten(chunks), Flatten(chunks[1..]);
    assert forall j :: 0 <= j < |chunks[0]| ==> all[j] == chunks[0][j];
    assert forall j :: 0 <= j < |tail| ==> tail[j] == all[|chunks[0]| + j];
  }

  lemma DeliveredFirst(e: Event, rest: seq<Event>, p: Params, last: int)
    requires e.Frame? && e.ok && e.kind == DATA_TYPE && rest != [] && rest[0].Frame? && rest[0].n != e.n
    ensures Delivered([e] + rest, p, last) == Tag(p.quote, e.data) + Delivered(rest, p, e.n)
  {
    hide Tag;
    assert ([e] + rest)[1..] == rest;
  }

  lemma DeliveredStop(stop: Event, p: Params, last: int)
    requires stop.Frame? && stop.kind == BREAK_TYPE
    ensures Delivered([stop], p, last) == [] == Tag(p.quote, [])
  {
    assert [stop][1..] == [];
  }

  lemma NextEvent(i: nat, chunks: seq<seq<byte>>, stop: Event, total: nat)
    requires stop == Frame(total % 64, BREAK_TYPE, [], true) && total == i + |chunks|
    ensures (DataEvents(i, chunks) + [stop])[0].Frame? && (DataEvents(i, chunks) + [stop])[0].n == i % 64
    ensures i % 64 != (i + 1) % 64
  {
  }

  lemma {:induction false} DeliveredData(i: nat, chunks: seq<seq<byte>>, stop: Event, p: Params, last: int, total: nat)
    requires stop == Frame(total % 64, BREAK_TYPE, [], true) && total == i + |chunks|
    ensures Delivered(DataEvents(i, chunks) + [stop], p, last) == Tag(p.quote, Flatten(chunks))
    decreases |chunks|
  {
    hide Tag, Delivered;
    if chunks == [] {
      assert DataEvents(i, chunks) + [stop] == [stop];
      DeliveredStop(stop, p, last);
    } else {
      var e := Frame(i % 64, DATA_TYPE, chunks[0], true);
      var rest := DataEvents(i + 1, chunks[1..]) + [stop];
      assert DataEvents(i, chunks) + [stop] == [e] + rest;
      NextEvent(i + 1, chunks[1..], stop, total);
      NextEvent(i, chunks, stop, total);
      DeliveredFirst(e, rest, p, last);
      DeliveredData(i + 1, chunks[1..], stop, p, i % 64, total);
      TagConcat(p.quote, chunks[0], Flatten(chunks[1..]));
    }
  }

  /** End to end: a message encoded with any legal prefix and split into frames anywhere, even between a
      prefix and its character, is received as exactly that message. */
  lemma TransferRoundTrip(q: byte, msg: seq<byte>, chunks: seq<seq<byte>>)
    requires Prefix(q) && Flatten(chunks) == Encode(q, msg)
    requires forall i :: 0 <= i < |chunks| ==> |chunks[i]| <= 220
    ensures var (es, end) := Receive(Session(q, chunks));
      end == Break && Fold(INITIAL, es).cur == Data(msg, false)
  {
    hide Receive, Line, Encode, Delivered, Fold, Flatten, Unquote;
    EncodedIsPrintable(q, msg);
    var stop := Frame((1 + |chunks|) % 64, BREAK_TYPE, [], true);
    var init := Frame(0, SEND_TYPE, InitData(q), true);
    var last := Line((1 + |chunks|) % 64, BREAK_TYPE, []);
    var events := DataEvents(1, chunks) + [stop];
    ReceiveLine(0, SEND_TYPE, InitData(q), DataLines(1, chunks) + last);
    ReceiveDataLines(1, chunks, last);
    ReceiveLine((1 + |chunks|) % 64, BREAK_TYPE, [], []);
    assert last + [] == last;
    assert Session(q, chunks) == Line(0, SEND_TYPE, InitData(q)) + (DataLines(1, chunks) + last);
    assert Receive(Session(q, chunks)) == ([init] + events, Break);
    DeliveryIsExact([init] + events);
    DeliveredInit(q, chunks, init, events);
    DeliveredData(1, chunks, stop, ParamsAfter(DEFAULTS, init), 0, 1 + |chunks|);
    CodingRoundTrip(q, msg, []);
    assert [] + msg == msg;
  }

  lemma DeliveredInit(q: byte, chunks: seq<seq<byte>>, init: Event, events: seq<Event>)
    requires init == Frame(0, SEND_TYPE, InitData(q), true)
    requires events == DataEvents(1, chunks) + [Frame((1 + |chunks|) % 64, BREAK_TYPE, [], true)]
    ensures Delivered([init] + events, DEFAULTS, -1) == Delivered(events, ParamsAfter(DEFAULTS, init), 0)
    ensures ParamsAfter(DEFAULTS, init).quote == q
  {
    assert ([init] + events)[1..] == events;
    assert [] + Delivered(events, ParamsAfter(DEFAULTS, init), 0) == Delivered(events, ParamsAfter(DEFAULTS, init), 0);
  }
}
