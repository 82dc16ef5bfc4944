/** The Kermit wire format as `k_recv` reads it: characters, block check, frames, and the control-prefix
    coding of section 6 of the Kermit Protocol Manual, sixth edition. */
module KermitWire {
  import opened Common

  const START_CHAR: byte := 1
  const ETX_CHAR: byte := 3
  const END_CHAR: byte := 13
  const SPACE: byte := 32
  const K_ESCAPE: byte := '#' as int
  const SEND_TYPE: byte := 'S' as int
  const DATA_TYPE: byte := 'D' as int
  const ACK_TYPE: byte := 'Y' as int
  const NACK_TYPE: byte := 'N' as int
  const BREAK_TYPE: byte := 'B' as int

  function ToChar(x: int): byte {
    (x + SPACE) % 256
  }

  function UnChar(c: byte): nat {
    (c + 256 - SPACE) % 256
  }

  /** `(c & 0xE0) == 0`: a character that must not occur inside a frame. */
  predicate TooLow(c: byte) {
    c < SPACE
  }

  /** The type 1 block check of a sum. */
  function Check(sum: nat): byte {
    ToChar((sum + (sum / 64) % 4) % 64)
  }

  // ----- control prefixing

  /** `ktrans`: undo the prefixing of one character. */
  function Ktrans(c: byte): byte {
    if (c / 32) % 4 == 2 then c - 64
    else if c % 128 == 63 then c + 64
    else c
  }

  /** The prefix characters the protocol allows. */
  predicate Prefix(q: byte) {
    33 <= q <= 62 || 96 <= q <= 126
  }

  /** Flip bit 6. */
  function Ctl(b: byte): byte {
    if (b / 64) % 2 == 1 then b - 64 else b + 64
  }

  function EncodeByte(q: byte, b: byte): seq<byte> {
    if b % 128 < 32 || b % 128 == 127 then [q, Ctl(b)]
    else if b % 128 == q then [q, b]
    else [b]
  }

  function Encode(q: byte, msg: seq<byte>): seq<byte> {
    if msg == [] then [] else EncodeByte(q, msg[0]) + Encode(q, msg[1..])
  }

  /** A payload character with the prefix in force when it arrived. */
  datatype Sym = Sym(quote: byte, c: byte)

  /** The data handler: bytes stored so far, and whether the last character was a prefix. */
  datatype Data = Data(out: seq<byte>, escaped: bool)

  function DataChar(d: Data, q: byte, c: byte): Data {
    if d.escaped then Data(d.out + [Ktrans(c)], false)
    else if c == q then Data(d.out, true)
    else Data(d.out + [c], false)
  }

  function Unquote(d: Data, syms: seq<Sym>): Data
    decreases |syms|
  {
    if syms == [] then d else Unquote(DataChar(d, syms[0].quote, syms[0].c), syms[1..])
  }

  function Tag(q: byte, s: seq<byte>): (t: seq<Sym>)
    ensures |t| == |s| && forall i :: 0 <= i < |s| ==> t[i] == Sym(q, s[i])
  {
    if s == [] then [] else [Sym(q, s[0])] + Tag(q, s[1..])
  }

  lemma TagConcat(q: byte, a: seq<byte>, b: seq<byte>)
    ensures Tag(q, a + b) == Tag(q, a) + Tag(q, b)
  {
  }

  lemma {:induction false} UnquoteConcat(d: Data, a: seq<Sym>, b: seq<Sym>)
    ensures Unquote(d, a + b) == Unquote(Unquote(d, a), b)
    decreases |a|
  {
    if a == [] {
      assert a + b == b;
    } else {
      assert (a + b)[1..] == a[1..] + b;
      UnquoteConcat(DataChar(d, a[0].quote, a[0].c), a[1..], b);
    }
  }

  lemma KtransUndoes(q: byte, b: byte)
    requires Prefix(q)
    ensures b % 128 < 32 || b % 128 == 127 ==> Ktrans(Ctl(b)) == b
    ensures b % 128 == q ==> Ktrans(b) == b
  {
  }

  /** Decoding the encoding of any byte string stores exactly that string. */
  lemma {:induction false} CodingRoundTrip(q: byte, msg: seq<byte>, done: seq<byte>)
    requires Prefix(q)
    ensures Unquote(Data(done, false), Tag(q, Encode(q, msg))) == Data(done + msg, false)
    decreases |msg|
  {
    if msg == [] {
      assert done + msg == done;
    } else {
      var b, e, rest := msg[0], EncodeByte(q, msg[0]), Encode(q, msg[1..]);
      TagConcat(q, e, rest);
      UnquoteConcat(Data(done, false), Tag(q, e), Tag(q, rest));
      OneByte(q, b, done);
      CodingRoundTrip(q, msg[1..], done + [b]);
      assert done + [b] + msg[1..] == done + msg;
    }
  }

  lemma OneByte(q: byte, b: byte, done: seq<byte>)
    requires Prefix(q)
    ensures Unquote(Data(done, false), Tag(q, EncodeByte(q, b))) == Data(done + [b], false)
  {
    KtransUndoes(q, b);
    var t, d := Tag(q, EncodeByte(q, b)), Data(done, false);
    assert Unquote(d, t) == Unquote(DataChar(d, q, EncodeByte(q, b)[0]), t[1..]);
    if |t| == 2 {
      assert t[1..] == [Sym(q, EncodeByte(q, b)[1])];
      assert t[1..][1..] == [];
      assert Unquote(Data(done, true), t[1..]) == DataChar(Data(done, true), q, EncodeByte(q, b)[1]);
    } else {
      assert t[1..] == [];
    }
  }

  /** Every character of an encoding passes the receiver's range test. */
  lemma {:induction false} EncodedIsPrintable(q: byte, msg: seq<byte>)
    requires Prefix(q)
    ensures forall i :: 0 <= i < |Encode(q, msg)| ==> !TooLow(Encode(q, msg)[i])
  {
    if msg != [] {
      EncodedIsPrintable(q, msg[1..]);
    }
  }

  // ----- frames

  /** What the receiver makes of the characters after one START_CHAR. `data` is what arrived before any
      error. A bad length or sequence character is reported as `BadHeader`. */
  datatype Event = BadHeader | Frame(n: nat, kind: byte, data: seq<byte>, ok: bool)

  /** An event and the unread rest, or the line falling silent inside the frame. */
  datatype Scanned = Got(event: Event, rest: seq<byte>) | Silent

  datatype BodyEnd = Full(rest: seq<byte>) | Bad(rest: seq<byte>) | Cut

  /** Read `count` data characters. */
  function Body(s: seq<byte>, count: nat): (seq<byte>, BodyEnd)
    decreases count
  {
    if count == 0 then ([], Full(s))
    else if s == [] then ([], Cut)
    else if TooLow(s[0]) then ([], Bad(s[1..]))
    else
      var (data, end) := Body(s[1..], count - 1);
      ([s[0]] + data, end)
  }

  /** Block check and END_CHAR. */
  function Trailer(s: seq<byte>, n: nat, kind: byte, data: seq<byte>, sum: nat): Scanned {
    if s == [] then Silent
    else if TooLow(s[0]) || s[0] != Check(sum) then Got(Frame(n, kind, data, false), s[1..])
    else if |s| == 1 then Silent
    else Got(Frame(n, kind, data, s[1] == END_CHAR), s[2..])
  }

  function DataAndTrailer(s: seq<byte>, n: nat, kind: byte, count: nat, sum: nat): Scanned {
    var (data, end) := Body(s, count);
    match end
    case Cut => Silent
    case Bad(rest) => Got(Frame(n, kind, data, false), rest)
    case Full(rest) => Trailer(rest, n, kind, data, sum + Sum(data))
  }

  function AtLeast0(x: int): nat {
    if x < 0 then 0 else x
  }

  /** The extended header: two length characters and a header check. */
  function Extended(s: seq<byte>, n: nat, kind: byte, sum: nat): Scanned {
    if s == [] then Silent
    else if TooLow(s[0]) then Got(Frame(n, kind, [], false), s[1..])
    else if |s| == 1 then Silent
    else if TooLow(s[1]) then Got(Frame(n, kind, [], false), s[2..])
    else if |s| == 2 then Silent
    else if TooLow(s[2]) || s[2] != Check(sum + s[0] as int + s[1] as int) then Got(Frame(n, kind, [], false), s[3..])
    else
      DataAndTrailer(s[3..], n, kind, AtLeast0(UnChar(s[0]) * 95 + UnChar(s[1]) - 1),
                     sum + s[0] as int + s[1] as int + s[2] as int)
  }

  /** From the packet type on, `len` and `num` being the length and sequence characters. */
  function AfterNumber(s: seq<byte>, len: byte, num: byte): Scanned {
    if s == [] then Silent
    else if TooLow(s[0]) then Got(Frame(UnChar(num), 0, [], false), s[1..])
    else
      var sum := len as int + num as int + s[0] as int;
      if UnChar(len) == 0 then Extended(s[1..], UnChar(num), s[0], sum)
      else DataAndTrailer(s[1..], UnChar(num), s[0], AtLeast0(UnChar(len) - 3), sum)
  }

  /** Everything after START_CHAR. */
  function FrameParse(s: seq<byte>): Scanned {
    if s == [] then Silent
    else if TooLow(s[0]) then Got(BadHeader, s[1..])
    else if |s| == 1 then Silent
    else if TooLow(s[1]) then Got(BadHeader, s[2..])
    else AfterNumber(s[2..], s[0], s[1])
  }

  /** How a reception ends: an accepted break frame, a control-C between frames, or silence. */
  datatype End = Break | Interrupt | Silence

  lemma {:induction false} BodyShrinks(s: seq<byte>, count: nat)
    ensures var (data, end) := Body(s, count);
      && |data| <= count && |data| <= |s|
      && (end.Full? ==> |data| == count && |end.rest| + |data| == |s|)
      && (end.Bad? ==> |end.rest| + |data| + 1 == |s|)
    decreases count
  {
    if count > 0 && s != [] && !TooLow(s[0]) {
      BodyShrinks(s[1..], count - 1);
    }
  }

  lemma DataAndTrailerShrinks(s: seq<byte>, n: nat, kind: byte, count: nat, sum: nat)
    ensures DataAndTrailer(s, n, kind, count, sum).Got? ==> |DataAndTrailer(s, n, kind, count, sum).rest| <= |s|
  {
    hide Sum;
    BodyShrinks(s, count);
  }

  lemma FrameParseShrinks(s: seq<byte>)
    ensures FrameParse(s).Got? ==> |FrameParse(s).rest| < |s|
  {
    hide DataAndTrailer;
    if |s| > 2 {
      var t := s[2..][1..];
      var sum := s[0] as int + s[1] as int + s[2] as int;
      DataAndTrailerShrinks(t, UnChar(s[1]), s[2], AtLeast0(UnChar(s[0]) - 3), sum);
      if |t| > 2 {
        DataAndTrailerShrinks(t[3..], UnChar(s[1]), s[2], AtLeast0(UnChar(t[0]) * 95 + UnChar(t[1]) - 1),
                              sum + t[0] as int + t[1] as int + t[2] as int);
      }
    }
  }

  /** The whole reception: skip to START_CHAR, read a frame, go on until a break is accepted. */
  function Receive(s: seq<byte>): (seq<Event>, End)
    decreases |s|
  {
    if s == [] then ([], Silence)
    else if s[0] == ETX_CHAR then ([], Interrupt)
    else if s[0] != START_CHAR then Receive(s[1..])
    else
      match FrameParse(s[1..])
      case Silent => ([], Silence)
      case Got(e, rest) =>
        FrameParseShrinks(s[1..]);
        if e.Frame? && e.ok && e.kind == BREAK_TYPE then ([e], Break)
        else
          var (more, end) := Receive(rest);
          ([e] + more, end)
  }

  // ----- packets built by a sender

  /** Length to block check, without START_CHAR and terminator. */
  function Packet(n: nat, kind: byte, data: seq<byte>): seq<byte> {
    var head := [ToChar(3 + |data|), ToChar(n), kind] + data;
    head + [Check(Sum(head))]
  }

  predicate Sendable(n: nat, kind: byte, data: seq<byte>) {
    n < 224 && |data| <= 220 && !TooLow(kind) && forall i :: 0 <= i < |data| ==> !TooLow(data[i])
  }

  lemma {:induction false} BodyOfData(data: seq<byte>, rest: seq<byte>)
    requires forall i :: 0 <= i < |data| ==> !TooLow(data[i])
    ensures Body(data + rest, |data|) == (data, Full(rest))
  {
    if data == [] {
      assert data + rest == rest;
    } else {
      assert (data + rest)[1..] == data[1..] + rest && data == [data[0]] + data[1..];
      BodyOfData(data[1..], rest);
    }
  }

  lemma {:induction false} SumOfThree(x: byte, y: byte, z: byte)
    ensures Sum([x, y, z]) == x + y + z
  {
    assert [x, y, z][..2] == [x, y] && [x, y][..1] == [x] && [x][..0] == [];
    assert Sum([x]) == x && Sum([x, y]) == x + y;
  }

  /** A packet built this way passes every test of the receiver and carries its data. */
  lemma PacketRoundTrip(n: nat, kind: byte, data: seq<byte>, rest: seq<byte>)
    requires Sendable(n, kind, data)
    ensures FrameParse(Packet(n, kind, data) + [END_CHAR] + rest) == Got(Frame(n, kind, data, true), rest)
  {
    hide Body, Sum, Check;
    var len := ToChar(3 + |data|);
    var head := [len, ToChar(n), kind];
    var check := Check(Sum(head + data));
    var tail := [check, END_CHAR] + rest;
    var s := Packet(n, kind, data) + [END_CHAR] + rest;
    assert s == head + (data + tail);
    assert s[2..][1..] == data + tail && s[0] == len && s[1] == ToChar(n) && s[2] == kind;
    BodyOfData(data, tail);
    SumConcat(head, data);
    SumOfThree(len, ToChar(n), kind);
    CheckIsPrintable(Sum(head + data));
    assert tail[2..] == rest;
  }

  /** The header of an extended packet: a zero length, two length characters and a check of their own. */
  function LongHeader(n: nat, kind: byte, count: nat): seq<byte> {
    var head := [ToChar(0), ToChar(n), kind, ToChar((count + 1) / 95), ToChar((count + 1) % 95)];
    head + [Check(Sum(head))]
  }

  function LongPacket(n: nat, kind: byte, data: seq<byte>): seq<byte> {
    var all := LongHeader(n, kind, |data|) + data;
    all + [Check(Sum(all))]
  }

  /** Extended packets pass the receiver's tests as well. */
  lemma LongPacketRoundTrip(n: nat, kind: byte, data: seq<byte>, rest: seq<byte>)
    requires n < 224 && (|data| + 1) / 95 < 224 && !TooLow(kind) && forall i :: 0 <= i < |data| ==> !TooLow(data[i])
    ensures FrameParse(LongPacket(n, kind, data) + [END_CHAR] + rest) == Got(Frame(n, kind, data, true), rest)
  {
    hide FrameParse, Body, Sum, Check, Extended, LongHeader, ToChar, UnChar;
    var h, count := LongHeader(n, kind, |data|), |data|;
    var check := Check(Sum(h + data));
    var tail := [check, END_CHAR] + rest;
    var s := LongPacket(n, kind, data) + [END_CHAR] + rest;
    assert s == h + (data + tail);
    HeaderRead(n, kind, count, data + tail);
    BodyOfData(data, tail);
    SumConcat(h, data);
    CheckIsPrintable(Sum(h + data));
    assert tail[2..] == rest;
  }

  /** Reading an extended header leads to its data. */
  lemma HeaderRead(n: nat, kind: byte, count: nat, rest: seq<byte>)
    requires n < 224 && (count + 1) / 95 < 224 && !TooLow(kind)
    ensures FrameParse(LongHeader(n, kind, count) + rest)
      == DataAndTrailer(rest, n, kind, count, Sum(LongHeader(n, kind, count)))
  {
    hide Sum, Check, DataAndTrailer, Extended, ToChar, UnChar, TooLow;
    var zero, num, hi, lo := ToChar(0), ToChar(n), ToChar((count + 1) / 95), ToChar((count + 1) % 95);
    var head := [zero, num, kind, hi, lo];
    var check := Check(Sum(head));
    CharRoundTrip(0);
    CharRoundTrip(n);
    SumOfFive(zero, num, kind, hi, lo);
    SumConcat(head, [check]);
    SumOfOne(check);
    var s := LongHeader(n, kind, count) + rest;
    assert s == [zero, num, kind] + ([hi, lo, check] + rest);
    assert s[2..][1..] == [hi, lo, check] + rest;
    LengthRead(n, kind, count, zero as int + num as int + kind as int, rest);
  }

  lemma CharRoundTrip(x: nat)
    requires x < 224
    ensures UnChar(ToChar(x)) == x && !TooLow(ToChar(x))
  {
  }

  lemma LengthRead(n: nat, kind: byte, count: nat, sum: nat, rest: seq<byte>)
    requires (count + 1) / 95 < 224
    ensures var hi, lo := ToChar((count + 1) / 95), ToChar((count + 1) % 95);
      var check := Check(sum + hi as int + lo as int);
      Extended([hi, lo, check] + rest, n, kind, sum)
      == DataAndTrailer(rest, n, kind, count, sum + hi as int + lo as int + check as int)
  {
    hide Check, DataAndTrailer, ToChar, UnChar, TooLow;
    CharRoundTrip((count + 1) / 95);
    CharRoundTrip((count + 1) % 95);
    var hi, lo := ToChar((count + 1) / 95), ToChar((count + 1) % 95);
    CheckIsPrintable(sum + hi as int + lo as int);
    assert ([hi, lo, Check(sum + hi as int + lo as int)] + rest)[3..] == rest;
  }

  lemma SumOfFive(x: byte, y: byte, z: byte, u: byte, v: byte)
    ensures Sum([x, y, z, u, v]) == x as int + y as int + z as int + u as int + v as int
  {
    SumOfThree(x, y, z);
    assert [x, y, z, u, v][..4] == [x, y, z, u] && [x, y, z, u][..3] == [x, y, z];
    assert Sum([x, y, z, u]) == x as int + y as int + z as int + u as int;
  }

  lemma CheckIsPrintable(sum: nat)
    ensures !TooLow(Check(sum))
  {
  }
}
