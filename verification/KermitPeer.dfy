/** The reception as the sender sees it: what its retransmissions lead to, what it can read from the replies, and
    what the two sides agree on. */
module KermitPeer {
  import opened Common
  import opened KermitWire
  import opened KermitAccept
  import opened KermitDelivery

  // ----- retransmission

  /** All attempts at one frame: damaged headers, rejected frames with its number, repetitions of it; `f` last. */
  predicate Attempts(run: seq<Event>, f: Event) {
    && f.Frame? && run != [] && run[|run| - 1] == f
    && forall k :: 0 <= k < |run| ==>
         run[k].BadHeader? || (run[k].n == f.n && (run[k] == f || !run[k].ok))
  }

  /** What has a number of its own is not affected by how often it was tried: an accepted data frame contributes its
      payload once, anything else nothing. */
  lemma {:induction false} RunDelivers(run: seq<Event>, f: Event, rest: seq<Event>, p: Params, last: int)
    requires Attempts(run, f) && (run[0].Frame? || last == f.n)
    requires rest != [] ==> rest[0].Frame? && rest[0].n != f.n
    ensures Delivered(run + rest, p, last)
      == (if f.ok && f.kind == 'D' as int then Tag(p.quote, f.data) else [])
         + Delivered(rest, ParamsAfter(p, f), f.n)
    decreases |run|
  {
    hide Tag;
    var es := run + rest;
    if |run| == 1 {
      assert es[1..] == rest && es[0] == f;
    } else {
      assert es[1..] == run[1..] + rest && es[1] == run[1];
      assert Continues(es[1], f.n);
      RunDelivers(run[1..], f, rest, ParamsAfter(p, run[0]), f.n);
      var d := Delivered(es[1..], ParamsAfter(p, run[0]), f.n);
      assert [] + d == d;
    }
  }

  function Concat(runs: seq<seq<Event>>): seq<Event> {
    if runs == [] then [] else runs[0] + Concat(runs[1..])
  }

  /** Neighbouring frames have different numbers. */
  predicate Numbered(fs: seq<Event>) {
    && (forall k :: 0 <= k < |fs| ==> fs[k].Frame?)
    && forall k :: 0 < k < |fs| ==> fs[k].n != fs[k - 1].n
  }

  /** Every frame is tried at least once; a new one does not begin with a damaged header, which would be taken for
      another attempt at the one before. */
  predicate Tried(runs: seq<seq<Event>>, fs: seq<Event>) {
    |runs| == |fs| && forall k :: 0 <= k < |fs| ==> Attempts(runs[k], fs[k]) && runs[k][0].Frame?
  }

  /** However often frames are damaged, refused and repeated, the same is delivered as without any of it. */
  lemma {:induction false} RetransmissionIsInvisible(runs: seq<seq<Event>>, fs: seq<Event>, p: Params, last: int)
    requires Numbered(fs) && Tried(runs, fs)
    ensures Delivered(Concat(runs), p, last) == Delivered(fs, p, last)
    decreases |fs|
  {
    hide Delivered, Attempts;
    if fs != [] {
      var f, rest := fs[0], Concat(runs[1..]);
      assert Attempts([f], f) by { SingleAttempt(f); }
      assert [f] + fs[1..] == fs;
      if |fs| > 1 {
        assert runs[1..][0] == runs[1] && fs[1..][0] == fs[1];
        FirstOfRun(runs[1], fs[1]);
        assert rest[0] == runs[1][0];
      }
      FirstOfRun(runs[0], f);
      RunDelivers(runs[0], f, rest, p, last);
      RunDelivers([f], f, fs[1..], p, last);
      RetransmissionIsInvisible(runs[1..], fs[1..], ParamsAfter(p, f), f.n);
    }
  }

  lemma SingleAttempt(f: Event)
    requires f.Frame?
    ensures Attempts([f], f)
  {
  }

  lemma FirstOfRun(run: seq<Event>, f: Event)
    requires Attempts(run, f)
    ensures f.Frame? && run != [] && (run[0].Frame? ==> run[0].n == f.n)
  {
  }

  /** So a message split into frames anywhere is stored exactly, whatever happened to the frames on the way, as long
      as no damaged header directly follows an accepted frame. */
  lemma NoisyTransfer(q: byte, msg: seq<byte>, chunks: seq<seq<byte>>, runs: seq<seq<Event>>)
    requires Prefix(q) && Flatten(chunks) == Encode(q, msg)
    requires Tried(runs, SessionEvents(q, chunks))
    ensures Fold(INITIAL, Concat(runs)).cur == Data(msg, false)
  {
    hide Delivered, Fold, Flatten, Unquote, Encode, Tried, DataEvents;
    var fs := SessionEvents(q, chunks);
    SessionIsNumbered(q, chunks);
    DeliveryIsExact(Concat(runs));
    RetransmissionIsInvisible(runs, fs, DEFAULTS, -1);
    var init := Frame(0, SEND_TYPE, InitData(q), true);
    var stop := Frame((1 + |chunks|) % 64, BREAK_TYPE, [], true);
    DeliveredInit(q, chunks, init, DataEvents(1, chunks) + [stop]);
    DeliveredData(1, chunks, stop, ParamsAfter(DEFAULTS, init), 0, 1 + |chunks|);
    CodingRoundTrip(q, msg, []);
    assert [] + msg == msg;
  }

  function SessionEvents(q: byte, chunks: seq<seq<byte>>): seq<Event> {
    [Frame(0, SEND_TYPE, InitData(q), true)]
    + (DataEvents(1, chunks) + [Frame((1 + |chunks|) % 64, BREAK_TYPE, [], true)])
  }

  lemma {:induction false} DataEventsAt(i: nat, chunks: seq<seq<byte>>)
    ensures |DataEvents(i, chunks)| == |chunks|
    ensures (forall k :: 0 <= k < |chunks| ==>
               DataEvents(i, chunks)[k] == Frame((i + k) % 64, DATA_TYPE, chunks[k], true))
    decreases |chunks|
  {
    if chunks != [] {
      DataEventsAt(i + 1, chunks[1..]);
    }
  }

  lemma SessionIsNumbered(q: byte, chunks: seq<seq<byte>>)
    ensures Numbered(SessionEvents(q, chunks))
  {
    hide DataEvents;
    DataEventsAt(1, chunks);
    var fs := SessionEvents(q, chunks);
    forall k | 0 <= k < |fs|
      ensures fs[k].Frame? && fs[k].n == k % 64
    {
    }
    forall k | 0 < k < |fs|
      ensures fs[k].n != fs[k - 1].n
    {
      assert k % 64 != (k - 1) % 64;
    }
  }

  // ----- what the two sides agree on

  /** A sender's parameters, written into a send-initiate payload of at least six fields. */
  function Announce(p: Params, maxl: nat, time: nat, more: seq<byte>): seq<byte>
    requires p.padCount < 224
  {
    [ToChar(maxl), ToChar(time), ToChar(p.padCount), Ctl(p.padChar), ToChar(p.eol), p.quote] + more
  }

  /** The receiver takes over what was announced, whatever follows; of a shorter payload the fields that are there,
      with no padding, a carriage return and a number sign for the rest. */
  lemma AnnouncedIsUsed(p: Params, maxl: nat, time: nat, more: seq<byte>, k: nat)
    requires p.padCount < 224 && p.eol < 224 && (p.padChar % 128 < 32 || p.padChar % 128 == 127)
    requires k <= 6
    ensures Negotiated(Announce(p, maxl, time, more)) == p
    ensures Negotiated(Announce(p, maxl, time, more)[..k])
      == Params(if k == 6 then p.quote else '#' as int, if k >= 5 then p.eol else 13,
                if k >= 3 then p.padCount else 0, if k >= 4 then p.padChar else 0)
  {
    KtransUndoes(35, p.padChar);
  }

  /** The reply has a field for each one offered, and all thirteen once the capabilities are; read by the same rules
      it announces what the receiver itself assumes at first, and 94 characters, type 1 checks, no eight-bit or
      repeat prefix, long packets of up to 94 * 95 + 94. */
  lemma ReplyAnnounces(k: nat)
    ensures |ReplyFields(k)| == (if k <= 9 then k else 13)
    ensures Negotiated(ReplyFields(k)) == Params('#' as int, 13, 0, 0)
    ensures k >= 2 ==> UnChar(ReplyFields(k)[0]) == 94 && UnChar(ReplyFields(k)[1]) == 1
    ensures k >= 9 ==> ReplyFields(k)[6..9] == ['N' as int, '1' as int, 'N' as int]
    ensures k >= 10 ==> UnChar(ReplyFields(k)[9]) == 2 && UnChar(ReplyFields(k)[10]) == 0
    ensures k >= 10 ==> UnChar(ReplyFields(k)[11]) * 95 + UnChar(ReplyFields(k)[12]) == 94 * 95 + 94
  {
  }

  /** The twenty-byte buffer for the sender's parameters, whose last byte is given up when it is full, does not limit
      the reply: as many fields are answered as were offered. */
  lemma BufferNeverShows(data: seq<byte>)
    ensures ReplyFields(Usable(data)) == ReplyFields(|data|)
  {
  }

  // ----- what the sender reads

  /** The sender can read what is sent with these parameters: lines end as it expects, and padding is no start. */
  predicate Readable(p: Params) {
    p.eol == 13 && (p.padCount > 0 ==> p.padChar != 1 && p.padChar != 3)
  }

  predicate AlwaysReadable(es: seq<Event>, p: Params)
    decreases |es|
  {
    Readable(p) && (es != [] ==> AlwaysReadable(es[1..], ParamsAfter(p, es[0])))
  }

  /** One answer to each event, in order, under the last number that arrived: yes to a frame that was accepted, with
      the agreed parameters if it asked for them, and no to anything else. */
  function Answers(es: seq<Event>, n: nat): seq<Event>
    decreases |es|
  {
    if es == [] then []
    else
      var m := if es[0].Frame? then es[0].n else n;
      [if !IsAccepted(es[0]) then Frame(m, 'N' as int, [], true)
       else Frame(m, 'Y' as int, if es[0].kind == 'S' as int then ReplyFields(|es[0].data|) else [], true)]
      + Answers(es[1..], m)
  }

  lemma {:induction false} PaddingIsEven(count: nat, c: byte)
    ensures Padding(count, c) == seq(count, _ => c)
    decreases count
  {
    if count > 0 {
      PaddingIsEven(count - 1, c);
    }
  }

  lemma PacketIsRight(n: nat, kind: byte, data: seq<byte>)
    requires Sendable(n, kind, data)
    ensures var head := [ToChar(3 + |data|), ToChar(n), kind] + data;
      Right(head) && EventOf(head) == Frame(n, kind, data, true)
  {
    var head := [ToChar(3 + |data|), ToChar(n), kind] + data;
    assert head[3..] == data;
  }

  lemma ReplyIsRead(p: Params, n: nat, kind: byte, data: seq<byte>, rest: seq<byte>)
    requires Readable(p) && Sendable(n, kind, data) && kind != BREAK_TYPE
    ensures Receive(Sent(p, n, kind, data) + rest)
      == ([Frame(n, kind, data, true)] + Receive(rest).0, Receive(rest).1)
  {
    hide Check, Sum, Receive, Right, EventOf;
    var head := [ToChar(3 + |data|), ToChar(n), kind] + data;
    PacketIsRight(n, kind, data);
    PaddingIsEven(p.padCount, p.padChar);
    SentIsReceived(Padding(p.padCount, p.padChar), head, rest);
    assert Sent(p, n, kind, data) + rest
        == Padding(p.padCount, p.padChar) + [1] + head + [Check(Sum(head)), 13] + rest;
  }

  /** The sender reads exactly those answers from the reply line. */
  lemma {:induction false} AnswersAreRead(es: seq<Event>, p: Params, n: nat)
    requires AlwaysReadable(es, p) && n < 224
    requires forall k :: 0 <= k < |es| && es[k].Frame? ==> es[k].n < 224
    ensures Receive(Replies(es, p, n)) == (Answers(es, n), Silence)
    decreases |es|
  {
    hide Receive, ReplyFields, Sent, Readable;
    if es == [] {
      ReceiveNothing();
    } else {
      var e, m := es[0], if es[0].Frame? then es[0].n else n;
      var p', rest := ParamsAfter(p, e), Replies(es[1..], ParamsAfter(p, e), m);
      AnswersAreRead(es[1..], p', m);
      assert AlwaysReadable(es[1..], p');
      if !IsAccepted(e) {
        ReplyIsRead(p, m, 'N' as int, [], rest);
      } else if e.kind == SEND_TYPE {
        FieldsArePrintable(|e.data|);
        BufferNeverShows(e.data);
        ReplyIsRead(p', m, 'Y' as int, ReplyFields(|e.data|), rest);
      } else {
        ReplyIsRead(p, m, 'Y' as int, [], rest);
      }
    }
  }

  /** Every answer is sent as the sender last asked: the answer to an accepted parameter frame already with the padding
      and the line end of that frame. */
  lemma AnswersAsAgreed(p: Params, n: nat, e: Event)
    ensures var q := if IsAccepted(e) && e.kind == 'S' as int then Negotiated(e.data) else p;
      var m, kind := if e.Frame? then e.n else n, if IsAccepted(e) then 'Y' as int else 'N' as int;
      var fields := if IsAccepted(e) && e.kind == 'S' as int then ReplyFields(|e.data|) else [];
      Reply(p, n, e)
        == seq(q.padCount, _ => q.padChar) + [1] + Packet(m, kind, fields) + (if q.eol == 0 then [] else [q.eol])
  {
    hide Packet, Negotiated, ReplyFields;
    PaddingIsEven(if IsAccepted(e) && e.kind == 'S' as int then Negotiated(e.data).padCount else p.padCount,
                  if IsAccepted(e) && e.kind == 'S' as int then Negotiated(e.data).padChar else p.padChar);
    if e.Frame? {
      BufferNeverShows(e.data);
    }
  }
}
