/** Which frames are accepted. The receiver's step-by-step reading is compared with a description of the whole
    frame, so that nothing is acknowledged whose length, header check, block check or end is wrong. */
module KermitAccept {
  import opened Common
  import opened KermitWire
  import opened Arith

  predicate Printable(s: seq<byte>) {
    forall i :: 0 <= i < |s| ==> s[i] >= 32
  }

  predicate IsAccepted(e: Event) {
    e.Frame? && e.ok
  }

  /** Header and data of a frame whose length is in its first character. */
  predicate Short(head: seq<byte>) {
    |head| >= 3 && head[0] > 32 && |head| == if head[0] < 35 then 3 else head[0] - 32
  }

  /** Header and data of an extended frame: a zero length, two length characters and their own check. */
  predicate Long(head: seq<byte>) {
    && |head| >= 6 && head[0] == 32 && head[5] == Check(Sum(head[..5]))
    && |head| == if head[3] == head[4] == 32 then 6 else 5 + 95 * (head[3] as int - 32) + (head[4] as int - 32)
  }

  /** Everything of a right frame but its block check and end. */
  predicate Right(head: seq<byte>) {
    Printable(head) && (Short(head) || Long(head))
  }

  /** The event such a frame stands for. */
  function EventOf(head: seq<byte>): (e: Event)
    requires Right(head)
    ensures IsAccepted(e)
  {
    Frame(head[1] - 32, head[2], head[if head[0] > 32 then 3 else 6..], true)
  }

  // ----- the exact condition

  lemma {:induction false} BodyExact(s: seq<byte>, count: nat, data: seq<byte>, rest: seq<byte>)
    ensures Body(s, count) == (data, Full(rest)) <==> s == data + rest && |data| == count && Printable(data)
    decreases count
  {
    if count == 0 {
      assert data == [] ==> data + rest == rest;
    } else if s != [] && data != [] {
      BodyExact(s[1..], count - 1, data[1..], rest);
      assert data + rest == [data[0]] + (data[1..] + rest) && data == [data[0]] + data[1..];
      assert s == [s[0]] + s[1..];
    }
  }

  lemma TrailerExact(s: seq<byte>, n: nat, kind: byte, data: seq<byte>, sum: nat, rest: seq<byte>)
    ensures Trailer(s, n, kind, data, sum) == Got(Frame(n, kind, data, true), rest) <==>
      s == [Check(sum), 13] + rest
  {
    hide Check;
    CheckIsPrintable(sum);
    if |s| >= 2 {
      assert s == [s[0], s[1]] + s[2..];
    }
  }

  lemma DataExact(s: seq<byte>, n: nat, kind: byte, count: nat, sum: nat, data: seq<byte>, rest: seq<byte>)
    ensures DataAndTrailer(s, n, kind, count, sum) == Got(Frame(n, kind, data, true), rest) <==>
      |data| == count && Printable(data) && s == data + ([Check(sum + Sum(data)), 13] + rest)
  {
    hide Check, Sum, Trailer, Body;
    var tail := [Check(sum + Sum(data)), 13] + rest;
    BodyExact(s, count, data, tail);
    var (d, end) := Body(s, count);
    if end.Full? {
      BodyExact(s, count, d, end.rest);
      TrailerOfData(end.rest, n, kind, d, sum + Sum(d));
      TrailerExact(end.rest, n, kind, d, sum + Sum(d), rest);
    }
  }

  lemma TrailerOfData(s: seq<byte>, n: nat, kind: byte, data: seq<byte>, sum: nat)
    ensures Trailer(s, n, kind, data, sum).Got? ==>
      var e := Trailer(s, n, kind, data, sum).event; e.Frame? && e.data == data
  {
  }

  lemma EventOfData(s: seq<byte>, n: nat, kind: byte, count: nat, sum: nat)
    ensures DataAndTrailer(s, n, kind, count, sum).Got? ==>
      var e := DataAndTrailer(s, n, kind, count, sum).event; e.Frame? && e.n == n && e.kind == kind
  {
    hide Check, Sum, Body;
  }

  lemma Regroup(a: seq<byte>, b: seq<byte>, c: seq<byte>, d: seq<byte>)
    ensures a + b + c + d == a + (b + (c + d))
  {
  }

  lemma CancelPrefix(s: seq<byte>, k: nat, x: seq<byte>)
    requires k <= |s|
    ensures s == s[..k] + x <==> s[k..] == x
  {
    assert s == s[..k] + s[k..] && (s[..k] + x)[k..] == x;
  }

  lemma ShortExact(s: seq<byte>, n: nat, kind: byte, data: seq<byte>, rest: seq<byte>)
    requires |s| >= 3 && s[0] > 32 && s[1] >= 32 && s[2] >= 32
    ensures FrameParse(s) == Got(Frame(n, kind, data, true), rest) <==>
      var head := s[..3] + data;
      Right(head) && EventOf(head) == Frame(n, kind, data, true) && s == head + [Check(Sum(head)), 13] + rest
  {
    hide Check, Sum, DataAndTrailer;
    var sum := s[0] as int + s[1] as int + s[2] as int;
    var head, tail := s[..3] + data, [Check(sum + Sum(data)), 13] + rest;
    DataExact(s[3..], UnChar(s[1]), s[2], AtLeast0(UnChar(s[0]) - 3), sum, data, rest);
    EventOfData(s[3..], UnChar(s[1]), s[2], AtLeast0(UnChar(s[0]) - 3), sum);
    assert s[2..][1..] == s[3..];
    SumOfThree(s[0], s[1], s[2]);
    assert s[..3] == [s[0], s[1], s[2]];
    SumConcat(s[..3], data);
    Regroup(s[..3], data, [Check(Sum(head)), 13], rest);
    CancelPrefix(s, 3, data + tail);
    assert head[3..] == data;
  }

  lemma ExtendedExact(s: seq<byte>, n: nat, kind: byte, sum: nat, data: seq<byte>, rest: seq<byte>)
    requires |s| >= 3 && s[0] >= 32 && s[1] >= 32
    ensures Extended(s, n, kind, sum) == Got(Frame(n, kind, data, true), rest) <==>
      var total := sum + s[0] as int + s[1] as int;
      && s[2] == Check(total) && Printable(data)
      && |data| == AtLeast0(95 * (s[0] as int - 32) + (s[1] as int - 32) - 1)
      && s[3..] == data + ([Check(total + s[2] as int + Sum(data)), 13] + rest)
  {
    hide Check, Sum, DataAndTrailer, AtLeast0;
    var total := sum + s[0] as int + s[1] as int;
    var count := AtLeast0(UnChar(s[0]) * 95 + UnChar(s[1]) - 1);
    CheckIsPrintable(total);
    DataExact(s[3..], n, kind, count, total + s[2] as int, data, rest);
  }

  lemma LongExact(s: seq<byte>, n: nat, kind: byte, data: seq<byte>, rest: seq<byte>)
    requires |s| >= 6 && s[0] == 32 && s[1] >= 32 && s[2] >= 32 && s[3] >= 32 && s[4] >= 32
    ensures FrameParse(s) == Got(Frame(n, kind, data, true), rest) <==>
      var head := s[..6] + data;
      Right(head) && EventOf(head) == Frame(n, kind, data, true) && s == head + [Check(Sum(head)), 13] + rest
  {
    hide Check, Sum, Extended, Right, EventOf;
    var sum := s[0] as int + s[1] as int + s[2] as int;
    assert s[2..][1..] == s[3..] && s[3..][3..] == s[6..] && AfterNumber(s[2..], s[0], s[1]) == FrameParse(s);
    ExtendedExact(s[3..], n, kind, sum, data, rest);
    EventOfExtended(s[3..], UnChar(s[1]), s[2], sum);
    SumOfSix(s[0], s[1], s[2], s[3], s[4], s[5]);
    assert s[..6] == [s[0], s[1], s[2], s[3], s[4], s[5]];
    LongTail(s, data, rest, sum + s[3] as int + s[4] as int + s[5] as int);
    RightLong(s, data);
  }

  lemma LongTail(s: seq<byte>, data: seq<byte>, rest: seq<byte>, sum: nat)
    requires |s| >= 6 && Sum(s[..6]) == sum
    ensures s == s[..6] + data + [Check(Sum(s[..6] + data)), 13] + rest <==>
      s[6..] == data + ([Check(sum + Sum(data)), 13] + rest)
  {
    hide Check, Sum;
    SumConcat(s[..6], data);
    var end := [Check(sum + Sum(data)), 13];
    Regroup(s[..6], data, end, rest);
    CancelPrefix(s, 6, data + (end + rest));
  }

  lemma RightLong(s: seq<byte>, data: seq<byte>)
    requires |s| >= 6 && s[0] == 32 && s[1] >= 32 && s[2] >= 32 && s[3] >= 32 && s[4] >= 32
    ensures var head := s[..6] + data;
      var total := s[0] as int + s[1] as int + s[2] as int + s[3] as int + s[4] as int;
      && (Right(head) <==>
          && s[5] == Check(total) && Printable(data)
          && |data| == AtLeast0(95 * (s[3] as int - 32) + (s[4] as int - 32) - 1))
      && (Right(head) ==> EventOf(head) == Frame(s[1] - 32, s[2], data, true))
  {
    hide Check, Sum;
    var total := s[0] as int + s[1] as int + s[2] as int + s[3] as int + s[4] as int;
    var head := s[..6] + data;
    CheckIsPrintable(total);
    PrintableConcat(s[..6], data);
    SumOfSix(s[0], s[1], s[2], s[3], s[4], s[5]);
    assert head[..5] == [s[0], s[1], s[2], s[3], s[4]];
    assert head[6..] == data;
  }

  lemma PrintableConcat(a: seq<byte>, b: seq<byte>)
    ensures Printable(a + b) <==> Printable(a) && Printable(b)
  {
    assert Printable(a + b) ==> a == (a + b)[..|a|] && b == (a + b)[|a|..];
  }

  lemma SumOfSix(x: byte, y: byte, z: byte, u: byte, v: byte, w: byte)
    ensures Sum([x, y, z, u, v]) == x as int + y as int + z as int + u as int + v as int
    ensures Sum([x, y, z, u, v, w]) == x as int + y as int + z as int + u as int + v as int + w as int
  {
    hide Sum;
    SumOfFive(x, y, z, u, v);
    SumOfOne(w);
    SumConcat([x, y, z, u, v], [w]);
    assert [x, y, z, u, v] + [w] == [x, y, z, u, v, w];
  }

  lemma EventOfExtended(s: seq<byte>, n: nat, kind: byte, sum: nat)
    ensures Extended(s, n, kind, sum).Got? ==>
      var e := Extended(s, n, kind, sum).event; e.Frame? && e.n == n && e.kind == kind
  {
    hide Check, Sum, DataAndTrailer;
    if |s| >= 3 {
      EventOfData(s[3..], n, kind, AtLeast0(UnChar(s[0]) * 95 + UnChar(s[1]) - 1),
                  sum + s[0] as int + s[1] as int + s[2] as int);
    }
  }

  /** A frame is accepted exactly when it is a right header and its data, both free of control characters,
      followed by the block check over all of it and a carriage return. */
  lemma AcceptedIff(s: seq<byte>, e: Event, rest: seq<byte>)
    requires e.Frame? && e.ok
    ensures FrameParse(s) == Got(e, rest) <==>
      exists head :: Right(head) && EventOf(head) == e && s == head + [Check(Sum(head)), 13] + rest
  {
    hide Check, Sum, FrameParse, Right, EventOf;
    if FrameParse(s) == Got(e, rest) {
      AcceptedHead(s, e, rest);
      assert Right(HeadOf(s, e.data));
    }
    forall head | Right(head) && EventOf(head) == e && s == head + [Check(Sum(head)), 13] + rest
      ensures FrameParse(s) == Got(e, rest)
    {
      HeadAccepted(s, head, e, rest);
    }
  }

  function HeadOf(s: seq<byte>, data: seq<byte>): seq<byte> {
    if |s| >= 6 && s[0] == 32 then s[..6] + data else if |s| >= 3 then s[..3] + data else []
  }

  lemma AcceptedHead(s: seq<byte>, e: Event, rest: seq<byte>)
    requires FrameParse(s) == Got(e, rest) && e.Frame? && e.ok
    ensures var head := HeadOf(s, e.data);
      Right(head) && EventOf(head) == e && s == head + [Check(Sum(head)), 13] + rest
  {
    hide Check, Sum, FrameParse, Right, EventOf;
    HeaderRight(s);
    if s[0] > 32 {
      ShortExact(s, e.n, e.kind, e.data, rest);
    } else {
      LongExact(s, e.n, e.kind, e.data, rest);
    }
  }

  /** What an accepted frame must begin with. */
  lemma HeaderRight(s: seq<byte>)
    requires FrameParse(s).Got? && FrameParse(s).event.Frame? && FrameParse(s).event.ok
    ensures |s| >= 3 && s[0] >= 32 && s[1] >= 32 && s[2] >= 32
    ensures s[0] == 32 ==> |s| >= 6 && s[3] >= 32 && s[4] >= 32 && s[5] >= 32
  {
    hide Check, Sum, DataAndTrailer;
    if |s| >= 3 {
      assert s[2..][1..] == s[3..];
    }
  }

  lemma HeadAccepted(s: seq<byte>, head: seq<byte>, e: Event, rest: seq<byte>)
    requires Right(head) && EventOf(head) == e && s == head + [Check(Sum(head)), 13] + rest
    ensures FrameParse(s) == Got(e, rest)
  {
    hide Check, Sum, FrameParse;
    forall i | 0 <= i < |head| ensures s[i] == head[i] >= 32 { }
    if head[0] > 32 {
      assert s[..3] + e.data == head;
      ShortExact(s, e.n, e.kind, e.data, rest);
    } else {
      assert s[..6] + e.data == head;
      LongExact(s, e.n, e.kind, e.data, rest);
    }
  }

  // ----- what is refused

  /** A damaged header is exactly a control character in place of the length or the number; every other event
      carries the number that arrived, accepted or not. */
  lemma HeaderEvent(s: seq<byte>)
    requires FrameParse(s).Got?
    ensures s != [] && (FrameParse(s).event.BadHeader? <==> s[0] < 32 || (|s| > 1 && s[1] < 32))
    ensures FrameParse(s).event.Frame? ==> |s| > 1 && s[1] == 32 + FrameParse(s).event.n
  {
    hide Check, Sum, DataAndTrailer, Extended;
    if |s| >= 3 && s[0] >= 32 && s[1] >= 32 && s[2] >= 32 {
      var sum := s[0] as int + s[1] as int + s[2] as int;
      EventOfExtended(s[2..][1..], UnChar(s[1]), s[2], sum);
      EventOfData(s[2..][1..], UnChar(s[1]), s[2], AtLeast0(UnChar(s[0]) - 3), sum);
    }
  }

  /** Reading stopped at the first control character at the latest. */
  predicate StopsInTime(s: seq<byte>, r: Scanned) {
    match r
    case Silent => Printable(s)
    case Got(e, rest) => |rest| < |s| && rest == s[|s| - |rest|..] && Printable(s[..|s| - |rest| - 1])
  }

  /** A control character ends the frame it stands in; without one a frame is accepted, refused for a check, or
      still incomplete. */
  lemma ControlEnds(s: seq<byte>)
    ensures StopsInTime(s, FrameParse(s))
  {
    hide Check, Sum, DataAndTrailer, Extended, StopsInTime;
    if |s| >= 3 && s[0] >= 32 && s[1] >= 32 && s[2] >= 32 {
      var sum := s[0] as int + s[1] as int + s[2] as int;
      assert s[2..][1..] == s[3..];
      DataEnds(s[3..], UnChar(s[1]), s[2], AtLeast0(UnChar(s[0]) - 3), sum);
      ExtendedEnds(s[3..], UnChar(s[1]), s[2], sum);
      StopsLater(s, 3, FrameParse(s));
    } else {
      HeaderEnds(s);
    }
  }

  lemma StopsLater(s: seq<byte>, k: nat, r: Scanned)
    requires k <= |s| && Printable(s[..k]) && StopsInTime(s[k..], r)
    ensures StopsInTime(s, r)
  {
    assert forall i :: 0 <= i < k ==> s[i] == s[..k][i];
    if r.Silent? {
      forall i | 0 <= i < |s| ensures s[i] >= 32 { if i >= k { assert s[i] == s[k..][i - k]; } }
    } else {
      var n := |s| - |r.rest| - 1;
      assert s[k..][n - k + 1..] == s[n + 1..];
      forall i | 0 <= i < n ensures s[i] >= 32 { if i >= k { assert s[i] == s[k..][..n - k][i - k]; } }
    }
  }

  lemma HeaderEnds(s: seq<byte>)
    requires |s| < 3 || s[0] < 32 || s[1] < 32 || s[2] < 32
    ensures StopsInTime(s, FrameParse(s))
  {
    hide DataAndTrailer, Extended;
    if |s| >= 3 {
      assert s[2..][1..] == s[3..];
    }
  }

  lemma ExtendedEnds(s: seq<byte>, n: nat, kind: byte, sum: nat)
    ensures StopsInTime(s, Extended(s, n, kind, sum))
  {
    hide Check, Sum, DataAndTrailer;
    if |s| >= 3 && s[0] >= 32 && s[1] >= 32 && s[2] >= 32 {
      DataEnds(s[3..], n, kind, AtLeast0(UnChar(s[0]) * 95 + UnChar(s[1]) - 1),
               sum + s[0] as int + s[1] as int + s[2] as int);
      if s[2] == Check(sum + s[0] as int + s[1] as int) {
        hide StopsInTime;
        StopsLater(s, 3, Extended(s, n, kind, sum));
      }
    }
  }

  lemma {:induction false} BodyEnds(s: seq<byte>, count: nat)
    ensures match Body(s, count).1
      case Cut => Printable(s)
      case Bad(rest) => |rest| < |s| && rest == s[|s| - |rest|..] && Printable(s[..|s| - |rest| - 1])
      case Full(rest) => |rest| <= |s| && rest == s[|s| - |rest|..] && Printable(s[..|s| - |rest|])
    decreases count
  {
    if count > 0 && s != [] && s[0] >= 32 {
      BodyEnds(s[1..], count - 1);
    }
  }

  lemma DataEnds(s: seq<byte>, n: nat, kind: byte, count: nat, sum: nat)
    ensures StopsInTime(s, DataAndTrailer(s, n, kind, count, sum))
  {
    hide Check, Sum, Body;
    BodyEnds(s, count);
  }

  // ----- what the block check is worth

  /** The type 1 check folds the two upper bits of the sum's low byte onto the six lower ones. */
  lemma CheckFolds(k: nat, a: nat, b: nat)
    requires a < 4 && b < 64
    ensures Check(256 * k + 64 * a + b) == 32 + (if a + b < 64 then a + b else a + b - 64)
  {
    var sum, m := 256 * k + 64 * a + b, 4 * k + a;
    ModShift(b, m, 64);
    assert sum / 64 == m;
    ModShift(a, k, 4);
    assert (sum / 64) % 4 == a;
    ModShift(a + b, m, 64);
    assert (sum + a) % 64 == (a + b) % 64;
  }

  /** The two differ by one bit (at least). */
  predicate OneBit(x: int, y: int) {
    x - y in {1, 2, 4, 8, 16, 32, 64, 128} || y - x in {1, 2, 4, 8, 16, 32, 64, 128}
  }

  lemma BitAdded(s: nat, d: nat)
    requires d in {1, 2, 4, 8, 16, 32, 64, 128}
    ensures Check(s) != Check(s + d)
  {
    hide Check;
    var k, a, b := s / 256, s / 64 % 4, s % 64;
    assert s == 256 * k + 64 * a + b;
    CheckFolds(k, a, b);
    if d < 64 && b + d < 64 {
      CheckFolds(k, a, b + d);
    } else if d < 64 && a < 3 {
      CheckFolds(k, a + 1, b + d - 64);
    } else if d < 64 {
      CheckFolds(k + 1, 0, b + d - 64);
    } else if a + d / 64 < 4 {
      CheckFolds(k, a + d / 64, b);
    } else {
      CheckFolds(k + 1, a + d / 64 - 4, b);
    }
  }

  lemma OneBitShows(s: nat, t: nat)
    requires OneBit(s, t)
    ensures Check(s) != Check(t)
  {
    hide Check;
    if s < t { BitAdded(s, t - s); } else { BitAdded(t, s - t); }
  }

  lemma UpdateShows(s: seq<byte>, i: nat, v: byte)
    requires i < |s| && OneBit(s[i], v)
    ensures Check(Sum(s[i := v])) != Check(Sum(s))
  {
    hide Sum, Check;
    SumUpdate(s, i, v);
    OneBitShows(Sum(s), Sum(s[i := v]));
  }

  /** The header check of an extended frame does not survive a damaged bit in what it covers, or in itself. */
  lemma HeaderDamageShows(head: seq<byte>, i: nat, v: byte, got: seq<byte>)
    requires Long(head) && 1 <= i <= 5 && OneBit(head[i], v)
    requires |got| >= 6 && got[..6] == head[..6][i := v]
    ensures !Long(got)
  {
    hide Check, Sum, OneBit;
    BitsDiffer(head[i], v);
    assert got[5] == got[..6][5] && got[..5] == got[..6][..5];
    if i < 5 {
      assert got[..5] == head[..5][i := v];
      UpdateShows(head[..5], i, v);
    } else {
      assert got[..5] == head[..5];
    }
  }

  lemma BitsDiffer(x: int, y: int)
    requires OneBit(x, y)
    ensures x != y
  {
  }

  /** `s` begins with the frame of `head`. */
  predicate Begins(s: seq<byte>, head: seq<byte>) {
    && |s| >= |head| + 2 && (forall j :: 0 <= j < |head| ==> s[j] == head[j])
    && s[|head|] == Check(Sum(head)) && s[|head| + 1] == 13
  }

  lemma EndOfFrame(s: seq<byte>, head: seq<byte>)
    requires Begins(s, head) && Right(head)
    ensures |s| >= |head| + 2 && s[|head| + 1] == 13 && forall j :: 0 <= j <= |head| ==> s[j] >= 32
  {
    hide Check, Sum, Short, Long;
    CheckIsPrintable(Sum(head));
  }

  /** Damage to one bit leaves the carriage return where the lengths expect it. */
  lemma SameLength(t: seq<byte>, head: seq<byte>, i: nat, s: seq<byte>, got: seq<byte>)
    requires Right(head) && Right(got) && Begins(t, head) && Begins(s, got)
    requires i < |head| + 2 <= |s| && OneBit(t[i], s[i])
    requires forall j :: 0 <= j < |head| + 2 && j != i ==> s[j] == t[j]
    ensures |got| == |head|
  {
    hide OneBit, Right, Begins;
    EndOfFrame(s, got);
    EndOfFrame(t, head);
    if i > 0 {
      if t[0] == 32 && i <= 5 {
        LongHeaderDamage(t, head, i, s, got);
      } else {
        SameHeaderSameLength(t, head, i, s, got);
      }
    }
  }

  lemma LongHeaderDamage(t: seq<byte>, head: seq<byte>, i: nat, s: seq<byte>, got: seq<byte>)
    requires Right(head) && Begins(t, head) && Begins(s, got)
    requires 1 <= i <= 5 && t[0] == s[0] == 32 && |head| + 2 <= |s| && OneBit(t[i], s[i])
    requires forall j :: 0 <= j < |head| + 2 && j != i ==> s[j] == t[j]
    ensures !Right(got)
  {
    hide Check, Sum, OneBit;
    if |got| >= 6 {
      assert got[..6] == head[..6][i := s[i]];
      HeaderDamageShows(head, i, s[i], got);
    }
  }

  /** The length of a frame is read off its first characters. */
  lemma SameHeaderSameLength(t: seq<byte>, head: seq<byte>, i: nat, s: seq<byte>, got: seq<byte>)
    requires Right(head) && Right(got) && Begins(t, head) && Begins(s, got) && |head| + 2 <= |s|
    requires i > 0 && (t[0] == 32 ==> i > 5)
    requires forall j :: 0 <= j < |head| + 2 && j != i ==> s[j] == t[j]
    ensures |head| == |got|
  {
    hide Check, Sum;
    assert got[0] == s[0] == t[0] == head[0];
  }

  /** Damage anywhere else leaves an end that is not the right one. */
  lemma EndDamageShows(t: seq<byte>, head: seq<byte>, i: nat, s: seq<byte>, got: seq<byte>)
    requires Begins(t, head) && |got| == |head|
    requires i < |head| + 2 <= |s| && OneBit(t[i], s[i])
    requires forall j :: 0 <= j < |head| + 2 && j != i ==> s[j] == t[j]
    ensures !Begins(s, got)
  {
    hide Check, Sum, OneBit;
    BitsDiffer(t[i], s[i]);
    var arrived := s[..|head|];
    assert Begins(s, got) ==> got == arrived;
    if i < |head| {
      assert arrived == head[i := s[i]];
      UpdateShows(head, i, s[i]);
    } else {
      assert arrived == head;
    }
  }

  /** A frame with one damaged bit, wherever it is, is never accepted. */
  lemma OneBitDamageIsRefused(head: seq<byte>, i: nat, v: byte, rest: seq<byte>)
    requires Right(head) && i < |head| + 2
    requires OneBit((head + [Check(Sum(head)), 13])[i], v)
    ensures var r := FrameParse((head + [Check(Sum(head)), 13])[i := v] + rest);
      r.Got? && r.event.Frame? ==> !r.event.ok
  {
    hide Check, Sum, FrameParse, OneBit, Right, EventOf;
    var t := head + [Check(Sum(head)), 13];
    var s := t[i := v] + rest;
    var r := FrameParse(s);
    if r.Got? && r.event.Frame? && r.event.ok {
      AcceptedHead(s, r.event, r.rest);
      var got := HeadOf(s, r.event.data);
      SameLength(t, head, i, s, got);
      EndDamageShows(t, head, i, s, got);
    }
  }

  // ----- whole receptions

  /** If the event is an accepted frame, the characters are that frame, whole and right. */
  ghost predicate Vouches(seg: seq<byte>, e: Event) {
    IsAccepted(e) ==>
      exists head :: Right(head) && EventOf(head) == e && seg == [1] + head + [Check(Sum(head)), 13]
  }

  /** Every accepted event has its own right frame on the line, in the same order. */
  ghost predicate Carries(line: seq<byte>, es: seq<Event>)
    decreases |es|
  {
    es != [] ==>
      exists i, j :: 0 <= i <= j <= |line| && Vouches(line[i..j], es[0]) && Carries(line[j..], es[1..])
  }

  /** The reception ended with a break exactly if the last event is an accepted one, and none came before. */
  predicate StopsAtBreak(es: seq<Event>, end: End) {
    && (end == Break ==> es != [])
    && forall i :: 0 <= i < |es| ==>
         (IsAccepted(es[i]) && es[i].kind == 'B' as int <==> end == Break && i == |es| - 1)
  }

  lemma StopsLaterAtBreak(e: Event, es: seq<Event>, end: End)
    requires StopsAtBreak(es, end) && !(IsAccepted(e) && e.kind == 'B' as int)
    ensures StopsAtBreak([e] + es, end)
  {
    forall i | 0 < i < |[e] + es|
      ensures ([e] + es)[i] == es[i - 1]
    {
    }
  }

  /** Nothing is received that was not sent as a right frame, and reception ends with the first accepted break. */
  lemma {:induction false} ReceivedWasSent(s: seq<byte>)
    ensures Carries(s, Receive(s).0)
    ensures StopsAtBreak(Receive(s).0, Receive(s).1)
    decreases |s|
  {
    hide FrameParse, Vouches;
    if s != [] && s[0] != 1 && s[0] != 3 {
      ReceivedWasSent(s[1..]);
      CarriesLater(s, 1, Receive(s[1..]).0);
    } else if s != [] && s[0] == 1 && FrameParse(s[1..]).Got? {
      var e, rest := FrameParse(s[1..]).event, FrameParse(s[1..]).rest;
      FrameParseShrinks(s[1..]);
      ControlEnds(s[1..]);
      ReceivedWasSent(rest);
      VouchedFrame(s, e, rest);
      var more := if IsAccepted(e) && e.kind == BREAK_TYPE then [] else Receive(rest).0;
      if !(IsAccepted(e) && e.kind == BREAK_TYPE) {
        StopsLaterAtBreak(e, more, Receive(rest).1);
      }
      assert Receive(s).0 == [e] + more && ([e] + more)[1..] == more;
      assert rest == s[|s| - |rest|..];
      assert Carries(s, [e] + more) by {
        assert Vouches(s[0..|s| - |rest|], e) && Carries(s[|s| - |rest|..], ([e] + more)[1..]);
      }
    }
  }

  lemma CarriesLater(s: seq<byte>, k: nat, es: seq<Event>)
    requires k <= |s| && Carries(s[k..], es)
    ensures Carries(s, es)
  {
    hide Vouches;
    if es != [] {
      var i, j :| 0 <= i <= j <= |s[k..]| && Vouches(s[k..][i..j], es[0]) && Carries(s[k..][j..], es[1..]);
      assert s[k..][i..j] == s[k + i..k + j] && s[k..][j..] == s[k + j..];
    }
  }

  lemma VouchedFrame(s: seq<byte>, e: Event, rest: seq<byte>)
    requires s != [] && s[0] == 1 && FrameParse(s[1..]) == Got(e, rest)
    requires |rest| < |s| && rest == s[|s| - |rest|..]
    ensures Vouches(s[0..|s| - |rest|], e)
  {
    hide FrameParse, Check, Sum, Right, EventOf;
    if IsAccepted(e) {
      AcceptedHead(s[1..], e, rest);
      var head := HeadOf(s[1..], e.data);
      assert s == [1] + head + [Check(Sum(head)), 13] + rest;
      assert s[0..|s| - |rest|] == [1] + head + [Check(Sum(head)), 13];
    }
  }

  /** Nothing that was sent as a right frame is missed, whatever stands between the frames. */
  lemma {:induction false} SentIsReceived(junk: seq<byte>, head: seq<byte>, rest: seq<byte>)
    requires (forall i :: 0 <= i < |junk| ==> junk[i] != 1 && junk[i] != 3) && Right(head)
    ensures var e := EventOf(head);
      Receive(junk + [1] + head + [Check(Sum(head)), 13] + rest)
      == if e.kind == 'B' as int then ([e], Break) else ([e] + Receive(rest).0, Receive(rest).1)
    decreases |junk|
  {
    hide FrameParse, Check, Sum, Right, EventOf;
    var t := head + [Check(Sum(head)), 13] + rest;
    var s := junk + [1] + head + [Check(Sum(head)), 13] + rest;
    assert s == junk + ([1] + t);
    if junk == [] {
      assert s[1..] == t;
      HeadAccepted(t, head, EventOf(head), rest);
    } else {
      SentIsReceived(junk[1..], head, rest);
      assert s[1..] == junk[1..] + [1] + head + [Check(Sum(head)), 13] + rest;
    }
  }

  /** A control-C between frames ends the reception. */
  lemma {:induction false} ControlCEnds(junk: seq<byte>, rest: seq<byte>)
    requires forall i :: 0 <= i < |junk| ==> junk[i] != 1 && junk[i] != 3
    ensures Receive(junk + [3] + rest) == ([], Interrupt)
    decreases |junk|
  {
    hide FrameParse;
    if junk == [] {
      assert junk + [3] + rest == [3] + rest;
    } else {
      ControlCEnds(junk[1..], rest);
      assert (junk + [3] + rest)[1..] == junk[1..] + [3] + rest;
    }
  }
}
