/** The log buffer: a line tagger that feeds a ring kept in one of two layouts, and the stream it stores. */
module LogRing {
  import opened Common
  import Arith

  const LOGBUFF_LEN: nat := 16384
  const DEFAULT_LEVEL: nat := 4
  const BUF_SIZE: nat := 1024

  // ----- the tagged stream

  predicate HasTag(s: string) {
    |s| >= 3 && s[0] == '<' && '0' <= s[1] <= '7' && s[2] == '>'
  }

  /** Length of the first line, its line feed included when there is one. */
  function LineLen(s: string): (m: nat)
    ensures m <= |s| && (s != "" ==> m > 0)
  {
    if s == "" then 0 else if s[0] == '\n' then 1 else 1 + LineLen(s[1..])
  }

  /** Whether the first line is complete. */
  predicate Ended(s: string) {
    s != "" && s[LineLen(s) - 1] == '\n'
  }

  lemma {:induction false} LineShape(s: string)
    requires s != ""
    ensures forall i :: 0 <= i < LineLen(s) - 1 ==> s[i] != '\n'
    ensures Ended(s) || LineLen(s) == |s|
  {
    if |s| > 1 && s[0] != '\n' {
      LineShape(s[1..]);
      assert forall i :: 0 < i < |s| ==> s[i] == s[1..][i - 1];
    }
  }

  /** The two facts of LineShape fix the length of the first line. */
  lemma {:induction false} LineLenIs(s: string, m: nat)
    requires 0 < m <= |s| && forall i :: 0 <= i < m - 1 ==> s[i] != '\n'
    requires s[m - 1] == '\n' || m == |s|
    ensures LineLen(s) == m
  {
    if m > 1 {
      LineLenIs(s[1..], m - 1);
    }
  }

  /** What a call inserts before the text at a point where the level is `level` (negative at a line start). */
  function Inserted(level: int, s: string): string {
    if level < 0 && !HasTag(s) then ['<', (DEFAULT_LEVEL + '0' as nat) as char, '>'] else ""
  }

  function LevelOf(level: int, s: string): int {
    if level >= 0 then level else if HasTag(s) then s[1] as int - '0' as int else DEFAULT_LEVEL
  }

  /** The first line as it is stored. */
  function Head(level: int, s: string): string {
    Inserted(level, s) + s[..LineLen(s)]
  }

  /** The text a call stores, and the level it leaves. */
  function Tagged(level: int, s: string): (r: (string, int))
    decreases |s|
  {
    if s == "" then ("", level)
    else if Ended(s) then
      var (rest, after) := Tagged(-1, s[LineLen(s)..]);
      (Head(level, s) + rest, after)
    else (Head(level, s), LevelOf(level, s))
  }

  /** The level after the first line. */
  function LevelAfter(level: int, s: string): int {
    if Ended(s) then -1 else LevelOf(level, s)
  }

  /** What follows the first line. */
  function Following(s: string): (rest: string)
    ensures s != "" ==> |rest| < |s|
  {
    if Ended(s) then s[LineLen(s)..] else ""
  }

  lemma TaggedStep(level: int, s: string)
    requires s != ""
    ensures Tagged(level, s) == (Head(level, s) + Tagged(LevelAfter(level, s), Following(s)).0,
                                 Tagged(LevelAfter(level, s), Following(s)).1)
  {
    hide Head, LevelOf;
    assert Head(level, s) + "" == Head(level, s);
  }

  lemma TaggedEmpty(level: int)
    ensures Tagged(level, "") == ("", level)
  {
  }

  predicate LineStart(s: string, p: nat) {
    p < |s| && (p == 0 || s[p - 1] == '\n')
  }

  lemma HeadShape(s: string)
    requires s != ""
    ensures HasTag(Head(-1, s))
    ensures forall i :: 0 <= i < |Head(-1, s)| - 1 ==> Head(-1, s)[i] != '\n'
  {
    LineShape(s);
    var h := Head(-1, s);
    if HasTag(s) {
      assert LineLen(s) >= 3 by {
        assert forall i :: 0 <= i < 3 ==> s[i] != '\n';
      }
      assert h == s[..LineLen(s)];
    } else {
      assert forall i :: 3 <= i < |h| ==> h[i] == s[i - 3];
    }
  }

  /** Text with its inserted tag in front: its first line is the stored head. */
  lemma HeadIsFirstLine(level: int, s: string)
    requires s != ""
    ensures (var t := Inserted(level, s) + s;
             t[..LineLen(t)] == Head(level, s) && (Ended(t) <==> Ended(s))
             && LineLen(t) == |Inserted(level, s)| + LineLen(s))
  {
    hide HasTag;
    LineShape(s);
    var ins := Inserted(level, s);
    assert forall i :: |ins| <= i < |ins + s| ==> (ins + s)[i] == s[i - |ins|];
    LineLenIs(ins + s, |ins| + LineLen(s));
  }

  /** From a line start on, every line that is stored begins with a level tag. */
  lemma {:induction false} EveryLineIsTagged(s: string, p: nat)
    requires LineStart(Tagged(-1, s).0, p)
    ensures HasTag(Tagged(-1, s).0[p..])
    decreases |s|
  {
    hide Head;
    HeadShape(s);
    var out, head := Tagged(-1, s).0, Head(-1, s);
    var rest := if Ended(s) then Tagged(-1, s[LineLen(s)..]).0 else "";
    assert out == head + rest;
    if p == 0 {
      assert forall i :: 0 <= i < 3 ==> out[p..][i] == head[i];
    } else {
      LineStartInRest(head, rest, p);
      EveryLineIsTagged(s[LineLen(s)..], p - |head|);
      assert out[p..] == rest[p - |head|..];
    }
  }

  lemma LineStartInRest(head: string, rest: string, p: nat)
    requires p > 0 && LineStart(head + rest, p)
    requires forall i :: 0 <= i < |head| - 1 ==> head[i] != '\n'
    ensures p >= |head| && LineStart(rest, p - |head|)
  {
  }

  // ----- lines one by one

  /** A tag is one of eight texts. */
  lemma TagIs(s: string)
    ensures HasTag(s) <==> exists k :: 0 <= k < 8 && "<" + ["01234567"[k]] + ">" <= s
  {
    if HasTag(s) {
      var k := s[1] as int - '0' as int;
      assert "<" + ["01234567"[k]] + ">" == s[..3];
    }
  }

  /** Complete lines, each with its line feed. */
  function Complete(lines: seq<string>): string {
    if lines == [] then "" else lines[0] + "\n" + Complete(lines[1..])
  }

  /** The same with a level 4 tag in front of every line that brings none. */
  function CompleteTagged(lines: seq<string>): string {
    if lines == [] then ""
    else (if HasTag(lines[0]) then "" else "<4>") + lines[0] + "\n" + CompleteTagged(lines[1..])
  }

  lemma FirstLineOf(line: string, rest: string)
    requires '\n' !in line
    ensures LineLen(line + "\n" + rest) == |line| + 1 && Ended(line + "\n" + rest)
    ensures HasTag(line + "\n" + rest) <==> HasTag(line)
  {
    LineLenIs(line + "\n" + rest, |line| + 1);
  }

  /** Complete lines are stored line by line: a tag of their own stays, and without one the default level is put in
      front; the next text starts a new line. */
  lemma {:induction false} LineByLine(lines: seq<string>)
    requires forall i :: 0 <= i < |lines| ==> '\n' !in lines[i]
    ensures Tagged(-1, Complete(lines)) == (CompleteTagged(lines), -1)
    decreases |lines|
  {
    hide LineLen, HasTag;
    if lines != [] {
      var s, rest := Complete(lines), Complete(lines[1..]);
      FirstLineOf(lines[0], rest);
      LineByLine(lines[1..]);
      assert s[LineLen(s)..] == rest && s[..LineLen(s)] == lines[0] + "\n";
      TaggedStep(-1, s);
      var tag := if HasTag(lines[0]) then "" else "<4>";
      assert Inserted(-1, s) == tag;
      assert tag + (lines[0] + "\n") + CompleteTagged(lines[1..]) == tag + lines[0] + "\n" + CompleteTagged(lines[1..]);
    }
  }

  /** Text without a line feed is stored as it is in the middle of a line, and keeps the level of the line; at a line
      start it sets the level from its tag or to the default one. */
  lemma PartOfLine(level: int, s: string)
    requires '\n' !in s && s != ""
    ensures level >= 0 ==> Tagged(level, s) == (s, level)
    ensures level < 0 && HasTag(s) ==> Tagged(level, s) == (s, s[1] as int - '0' as int)
    ensures level < 0 && !HasTag(s) ==> Tagged(level, s) == ("<4>" + s, 4)
  {
    LineShape(s);
    assert s[..|s|] == s && "" + s == s;
  }

  /** A line continued by another call ends as usual, without a second tag. */
  lemma EndOfLine(level: int, line: string, rest: string)
    requires '\n' !in line && level >= 0
    ensures Tagged(level, line + "\n" + rest)
      == (line + "\n" + Tagged(-1, rest).0, Tagged(-1, rest).1)
  {
    var s := line + "\n" + rest;
    FirstLineOf(line, rest);
    assert s[LineLen(s)..] == rest && s[..LineLen(s)] == line + "\n";
    assert Head(level, s) == "" + (line + "\n") == line + "\n";
    TaggedStep(level, s);
  }

  /** Takes out of a stored text the tags its input did not have. */
  function Untag(level: int, s: string, out: string): string
    decreases |s|
  {
    var k, m := |Inserted(level, s)|, LineLen(s);
    if s == "" || |out| < k + m then "" else out[k..k + m] + Untag(-1, s[m..], out[k + m..])
  }

  /** The input survives: removing the inserted tags gives it back. */
  lemma {:induction false} NothingElseChanges(level: int, s: string)
    ensures Untag(level, s, Tagged(level, s).0) == s
    decreases |s|
  {
    hide Inserted;
    if s != "" {
      LineShape(s);
      var out, k, m := Tagged(level, s).0, |Inserted(level, s)|, LineLen(s);
      var rest := Tagged(-1, s[m..]).0;
      assert out == Inserted(level, s) + s[..m] + rest;
      assert out[k..k + m] == s[..m];
      assert out[k + m..] == rest;
      NothingElseChanges(-1, s[m..]);
      assert s == s[..m] + s[m..];
    }
  }

  // ----- the last characters of a stream

  function Last(s: string): (r: string)
    ensures |r| == if |s| <= 16384 then |s| else 16384
  {
    if |s| <= LOGBUFF_LEN then s else s[|s| - LOGBUFF_LEN..]
  }

  lemma LastOfShort(s: string)
    requires |s| <= LOGBUFF_LEN
    ensures Last(s) == s
  {
  }

  lemma LastOfLast(a: string, b: string)
    ensures Last(Last(a) + b) == Last(a + b)
  {
  }

  /** Everything stored by a series of calls, and the level after it. */
  function Stream(level: int, calls: seq<string>): (string, int)
    decreases |calls|
  {
    if calls == [] then ("", level)
    else
      var (s, l) := Tagged(level, calls[0]);
      var (rest, after) := Stream(l, calls[1..]);
      (s + rest, after)
  }

  /** The ring's contents after a series of calls, one call at a time. */
  function Contents(c: string, level: int, calls: seq<string>): string
    decreases |calls|
  {
    if calls == [] then c
    else Contents(Last(c + Tagged(level, calls[0]).0), Tagged(level, calls[0]).1, calls[1..])
  }

  /** Over any series of calls the ring holds the last characters of the whole tagged stream. */
  lemma {:induction false} RingHoldsStream(c: string, level: int, calls: seq<string>)
    ensures Contents(Last(c), level, calls) == Last(c + Stream(level, calls).0)
    decreases |calls|
  {
    hide Last, Tagged;
    if calls == [] {
      assert c + "" == c;
    } else {
      var (s, l) := Tagged(level, calls[0]);
      LastOfLast(c, s);
      RingHoldsStream(c + s, l, calls[1..]);
      assert c + s + Stream(l, calls[1..]).0 == c + (s + Stream(l, calls[1..]).0);
    }
  }

  // ----- the ring

  /** The ring slot of an unsigned counter. */
  function Slot(n: nat): (k: nat)
    ensures k < LOGBUFF_LEN
  {
    n % LOGBUFF_LEN
  }

  function Wrap(n: nat): (k: nat)
    ensures k < WRAP
  {
    n % WRAP
  }

  /** The counters wrap at a multiple of the ring's length, so wrapping one moves no slot. */
  lemma WrapKeepsSlot(n: nat, i: nat)
    ensures Slot(Wrap(n) + i) == Slot(n + i) && Slot(Wrap(n + i)) == Slot(n + i)
  {
    WholeRings(n, i);
    WholeRings(n + i, 0);
  }

  lemma WholeRings(n: nat, i: nat)
    ensures Slot(Wrap(n) + i) == Slot(n + i)
  {
    var k := n / WRAP * (WRAP / LOGBUFF_LEN);
    assert n + i == Wrap(n) + i + k * LOGBUFF_LEN;
    Arith.ModShift(Wrap(n) + i, k, LOGBUFF_LEN);
  }

  /** The slots of a window no longer than the ring are distinct. */
  lemma SlotsDistinct(start: nat, i: nat, j: nat)
    requires i < j < LOGBUFF_LEN
    ensures Slot(start + i) != Slot(start + j)
  {
  }

  /** The `size` characters of the ring from the counter `start` on. */
  function View(ring: seq<char>, start: nat, size: nat): (s: string)
    requires |ring| == LOGBUFF_LEN
    ensures |s| == size && forall i :: 0 <= i < size ==> s[i] == ring[Slot(start + i)]
  {
    seq(size, i requires 0 <= i < size => ring[Slot(start + i)])
  }

  lemma WrapKeepsView(ring: seq<char>, start: nat, size: nat)
    requires |ring| == LOGBUFF_LEN
    ensures View(ring, Wrap(start), size) == View(ring, start, size)
  {
    hide Slot, Wrap;
    forall i | 0 <= i < size
      ensures View(ring, Wrap(start), size)[i] == View(ring, start, size)[i]
    {
      WrapKeepsSlot(start, i);
    }
  }

  lemma PutGrows(ring: seq<char>, start: nat, size: nat, c: char)
    requires |ring| == LOGBUFF_LEN && size < LOGBUFF_LEN
    ensures View(ring[Slot(start + size) := c], start, size + 1) == View(ring, start, size) + [c]
  {
    hide Slot;
    var next := View(ring[Slot(start + size) := c], start, size + 1);
    forall i | 0 <= i < size
      ensures next[i] == View(ring, start, size)[i]
    {
      SlotsDistinct(start, i, size);
    }
  }

  lemma PutSlides(ring: seq<char>, start: nat, c: char)
    requires |ring| == LOGBUFF_LEN
    ensures View(ring[Slot(start + LOGBUFF_LEN) := c], start + 1, LOGBUFF_LEN)
      == View(ring, start, LOGBUFF_LEN)[1..] + [c]
  {
    hide Slot;
    var kept := View(ring, start + 1, LOGBUFF_LEN - 1);
    PutGrows(ring, start + 1, LOGBUFF_LEN - 1, c);
    assert start + 1 + (LOGBUFF_LEN - 1) == start + LOGBUFF_LEN;
    forall i | 0 <= i < LOGBUFF_LEN - 1
      ensures kept[i] == View(ring, start, LOGBUFF_LEN)[1..][i]
    {
      assert start + 1 + i == start + (1 + i);
    }
    assert kept == View(ring, start, LOGBUFF_LEN)[1..];
  }

  /** One step of either layout: the ring holds the last characters of what it held and the new one. */
  lemma PutIsLast(ring: seq<char>, start: nat, size: nat, c: char)
    requires |ring| == LOGBUFF_LEN && size <= LOGBUFF_LEN
    ensures (var next := ring[Slot(start + size) := c];
             Last(View(ring, start, size) + [c])
             == if size < LOGBUFF_LEN then View(next, start, size + 1) else View(next, Wrap(start + 1), size))
  {
    hide View, Slot, Wrap;
    if size < LOGBUFF_LEN {
      PutGrows(ring, start, size, c);
    } else {
      PutSlides(ring, start, c);
      WrapKeepsView(ring[Slot(start + size) := c], start + 1, size);
      assert (View(ring, start, size) + [c])[1..] == View(ring, start, size)[1..] + [c];
    }
  }

  /** Layout 1 keeps a start and a size, layout 2 a start and an end, all 32-bit counters. */
  datatype Header = V1(start: nat, size: nat) | V2(start: nat, end: nat)

  function SizeOf(h: Header): nat
    requires h.start < WRAP
  {
    match h
    case V1(_, size) => size
    case V2(start, end) => Wrap(end + WRAP - start)
  }

  /** Layout 2 after its end moved on: the window grew, or must give up its oldest character. */
  lemma EndStep(s: nat, e: nat)
    requires HeaderOk(V2(s, e))
    ensures Slot(e) == Slot(s + SizeOf(V2(s, e)))
    ensures SizeOf(V2(s, Wrap(e + 1))) == SizeOf(V2(s, e)) + 1
    ensures SizeOf(V2(Wrap(s + 1), Wrap(e + 1))) == SizeOf(V2(s, e))
  {
    hide Slot, Wrap;
    WrapOnce(e + WRAP - s);
    WrapOnce(e + 1);
    WrapOnce(s + 1);
    WrapOnce(Wrap(e + 1) + WRAP - s);
    WrapOnce(Wrap(e + 1) + WRAP - Wrap(s + 1));
    WrapKeepsSlot(e + WRAP, 0);
    WrapOnce(e + WRAP);
  }

  lemma WrapOnce(n: nat)
    requires n < 2 * WRAP
    ensures Wrap(n) == if n < WRAP then n else n - WRAP
  {
  }

  predicate HeaderOk(h: Header) {
    h.start < WRAP && (h.V2? ==> h.end < WRAP) && SizeOf(h) <= LOGBUFF_LEN
  }

  /** A scratch buffer whose tail had an insertion put in front of it. */
  lemma TailOfText(buf: seq<char>, tail: seq<char>, ins: string, q: nat, p: nat, bufEnd: nat)
    requires q <= p < bufEnd < |buf| && |ins| == p - q && buf[q..] == ins + tail
    ensures buf[p..] == tail && buf[q..bufEnd] == ins + tail[..bufEnd - p] && buf[bufEnd] == tail[bufEnd - p]
    ensures forall k :: p <= k <= bufEnd ==> buf[k..bufEnd] == tail[..bufEnd - p][k - p..]
  {
    assert forall i :: q <= i < |buf| ==> buf[i] == buf[q..][i - q];
  }

  /** The ghost side of one pass: both the ring and the specification move on by one line. */
  lemma PrintStep(was: string, emitted: string, level: int, rest: string)
    requires rest != ""
    ensures Last(Last(was + emitted) + Head(level, rest)) == Last(was + (emitted + Head(level, rest)))
    ensures emitted + Tagged(level, rest).0
      == emitted + Head(level, rest) + Tagged(LevelAfter(level, rest), Following(rest)).0
    ensures Tagged(level, rest).1 == Tagged(LevelAfter(level, rest), Following(rest)).1
  {
    hide Last, Head, Tagged, LevelAfter, Following;
    TaggedStep(level, rest);
    LastOfLast(was + emitted, Head(level, rest));
    assert was + emitted + Head(level, rest) == was + (emitted + Head(level, rest));
  }

  class Log {
    const lbuf: array<char>
    const buf: array<char>
    var header: Header
    var chars: nat
    var msgLevel: int

    constructor (version: int)
      ensures Valid() && Ring() == "" && msgLevel == -1 && header.V2? == (version == 2)
      ensures fresh(lbuf) && fresh(buf)
    {
      lbuf, buf := new char[LOGBUFF_LEN](_ => '\0'), new char[BUF_SIZE](_ => '\0');
      header := if version == 2 then V2(0, 0) else V1(0, 0);
      chars, msgLevel := 0, -1;
    }

    predicate Valid()
      reads this`header
    {
      lbuf.Length == LOGBUFF_LEN && buf.Length == BUF_SIZE && lbuf != buf && HeaderOk(header)
    }

    /** The characters in the ring, oldest first. */
    ghost function Ring(): (s: string)
      requires Valid()
      reads this`header, lbuf
      ensures |s| <= LOGBUFF_LEN
    {
      View(lbuf[..], header.start, SizeOf(header))
    }

    /** `logbuff_reset`, which leaves the tagger's level alone. */
    method Reset()
      requires Valid()
      modifies this`header, this`chars, lbuf
      ensures Valid() && Ring() == "" && chars == 0 && header.V1? == old(header.V1?)
    {
      for i := 0 to lbuf.Length
        modifies lbuf
      {
        lbuf[i] := '\0';
      }
      header := if header.V2? then V2(0, 0) else V1(0, 0);
      chars := 0;
    }

    /** `log show`. The size is masked like an index, so a full ring shows nothing. */
    method Show() returns (out: string)
      requires Valid()
      ensures out == if |Ring()| == LOGBUFF_LEN then "" else Ring()
    {
      hide Slot;
      var size := SizeOf(header);
      out := "";
      for i := 0 to size % LOGBUFF_LEN
        invariant out == View(lbuf[..], header.start, i)
      {
        out := out + [lbuf[Slot(header.start + i)]];
      }
    }

    method PutV1(c: char)
      requires Valid() && header.V1?
      modifies this`header, lbuf
      ensures Valid() && Ring() == Last(old(Ring()) + [c]) && header.V1?
    {
      hide View, Last, Slot, Wrap;
      ghost var was := lbuf[..];
      var s, n := header.start, header.size;
      PutIsLast(was, s, n, c);
      WrapKeepsSlot(s, n);
      lbuf[Slot(Wrap(s + n))] := c;
      assert lbuf[..] == was[Slot(s + n) := c];
      if n < LOGBUFF_LEN {
        header := V1(s, n + 1);
      } else {
        header := V1(Wrap(s + 1), n);
      }
    }

    method PutV2(c: char)
      requires Valid() && header.V2?
      modifies this`header, lbuf
      ensures Valid() && Ring() == Last(old(Ring()) + [c]) && header.V2?
    {
      hide View, Last, Slot, Wrap;
      ghost var was := lbuf[..];
      var s, e := header.start, header.end;
      PutIsLast(was, s, SizeOf(header), c);
      EndStep(s, e);
      lbuf[Slot(e)] := c;
      assert lbuf[..] == was[Slot(e) := c];
      header := V2(s, Wrap(e + 1));
      if Wrap(header.end + WRAP - header.start) > LOGBUFF_LEN {
        header := V2(Wrap(s + 1), header.end);
      }
    }

    /** Store one character, in either layout. */
    method Put(c: char)
      requires Valid()
      modifies this`header, this`chars, lbuf
      ensures Valid() && Ring() == Last(old(Ring()) + [c]) && header.V1? == old(header.V1?)
      ensures chars == Wrap(old(chars) + 1)
    {
      hide View, Last, HeaderOk, Wrap;
      match header {
        case V2(_, _) => PutV2(c);
        case V1(_, _) => PutV1(c);
      }
      chars := Wrap(chars + 1);
    }

    /** The inner loop: store the scratch text from `start` up to its first line feed or its end. */
    method Emit(start: nat, bufEnd: nat) returns (p: nat, lineFeed: bool)
      requires Valid() && start < bufEnd <= BUF_SIZE
      modifies this`header, this`chars, lbuf
      ensures Valid() && header.V1? == old(header.V1?)
      ensures lineFeed == Ended(buf[start..bufEnd])
      ensures p == start + LineLen(buf[start..bufEnd]) - (if lineFeed then 1 else 0)
      ensures Ring() == Last(old(Ring()) + buf[start..bufEnd][..LineLen(buf[start..bufEnd])])
    {
      hide View, Last, HeaderOk, LineLen;
      ghost var was := Ring();
      ghost var text := buf[start..bufEnd];
      p, lineFeed := start, false;
      assert was + text[..0] == was;
      LastOfShort(was);
      while p < bufEnd
        invariant start <= p <= bufEnd && buf[start..bufEnd] == text
        invariant Valid() && header.V1? == old(header.V1?)
        invariant Ring() == Last(was + text[..p - start])
        invariant forall i :: 0 <= i < p - start ==> text[i] != '\n'
      {
        ghost var k := p - start;
        assert buf[p] == text[k];
        Put(buf[p]);
        LastOfLast(was + text[..k], [text[k]]);
        assert was + text[..k] + [text[k]] == was + text[..k + 1];
        if buf[p] == '\n' {
          lineFeed := true;
          LineLenIs(text, k + 1);
          return;
        }
        p := p + 1;
      }
      LineLenIs(text, |text|);
    }

    method WriteTag(q: nat)
      requires Valid() && q + 3 <= BUF_SIZE
      modifies buf
      ensures buf[q..] == Inserted(-1, "") + old(buf[q + 3..])
    {
      buf[q] := '<';
      buf[q + 1] := (DEFAULT_LEVEL + '0' as nat) as char;
      buf[q + 2] := '>';
    }

    /** The tag test, and the tag written over the three characters before `p`. */
    method TagLine(p: nat, bufEnd: nat) returns (q: nat)
      requires Valid() && 3 <= p < bufEnd < BUF_SIZE && buf[bufEnd] == '\0'
      modifies this`msgLevel, buf
      ensures q == p - |Inserted(old(msgLevel), old(buf[p..bufEnd]))|
      ensures buf[q..] == Inserted(old(msgLevel), old(buf[p..bufEnd])) + old(buf[p..])
      ensures msgLevel == LevelOf(old(msgLevel), old(buf[p..bufEnd]))
    {
      ghost var s := buf[p..bufEnd];
      q := p;
      if msgLevel < 0 {
        if buf[p] != '<' || buf[p + 1] < '0' || buf[p + 1] > '7' || buf[p + 2] != '>' {
          q := p - 3;
          WriteTag(q);
          assert buf[q + 1] == buf[q..][1];
        }
        msgLevel := buf[q + 1] as int - '0' as int;
      }
    }

    /** `strcpy (buf + 3, line)`. */
    method CopyLine(line: string)
      requires Valid() && |line| <= BUF_SIZE - 4
      modifies buf
      ensures buf[3..3 + |line|] == line && buf[3 + |line|] == '\0'
    {
      for i := 0 to |line|
        invariant buf[3..3 + i] == line[..i]
      {
        buf[3 + i] := line[i];
      }
      buf[3 + |line|] := '\0';
    }

    /** The text the outer loop still has to store. */
    function Unread(p: nat, bufEnd: nat): string
      requires bufEnd <= buf.Length
      reads buf
    {
      if p < bufEnd then buf[p..bufEnd] else ""
    }

    /** One pass of the outer loop: tag the line at `p`, store it, and move past it. */
    method PrintLine(p: nat, bufEnd: nat) returns (next: nat)
      requires Valid() && 3 <= p < bufEnd < BUF_SIZE && buf[bufEnd] == '\0'
      modifies this`header, this`chars, this`msgLevel, lbuf, buf
      ensures Valid() && header.V1? == old(header.V1?) && buf[bufEnd] == '\0'
      ensures Ring() == Last(old(Ring()) + Head(old(msgLevel), old(Unread(p, bufEnd))))
      ensures msgLevel == LevelAfter(old(msgLevel), old(Unread(p, bufEnd)))
      ensures p < next <= bufEnd + 1 && Unread(next, bufEnd) == Following(old(Unread(p, bufEnd)))
    {
      hide View, Last, HeaderOk, LineLen, Inserted, LevelOf, Ended, Head;
      ghost var before, tail, rest := msgLevel, buf[p..], buf[p..bufEnd];
      assert tail[..bufEnd - p] == rest;
      var q := TagLine(p, bufEnd);
      TailOfText(buf[..], tail, Inserted(before, rest), q, p, bufEnd);
      HeadIsFirstLine(before, rest);
      LineShape(rest);
      var lineFeed;
      next, lineFeed := Emit(q, bufEnd);
      if lineFeed {
        msgLevel := -1;
      }
      next := next + 1;
    }

    /** `logbuff_printk`: the ring receives the tagged text, whichever layout it uses. */
    method Printk(line: string) returns (i: nat)
      requires Valid() && |line| <= BUF_SIZE - 4 && '\0' !in line
      modifies this`header, this`chars, this`msgLevel, lbuf, buf
      ensures Valid() && i == |line| && header.V1? == old(header.V1?)
      ensures Ring() == Last(old(Ring()) + Tagged(old(msgLevel), line).0)
      ensures msgLevel == Tagged(old(msgLevel), line).1
    {
      hide View, Last, HeaderOk, LineLen, Inserted, LevelAfter, Ended, Head, Tagged;
      ghost var was, level := Ring(), msgLevel;
      CopyLine(line);
      i := |line|;
      var bufEnd := 3 + i;
      var p: nat := 3;
      ghost var emitted := "";
      LastOfShort(was);
      TaggedEmpty(msgLevel);
      assert Unread(p, bufEnd) == line by {
        if line == "" {
          assert buf[3..3 + |line|] == "";
        }
      }
      assert was + "" == was && "" + Tagged(level, line).0 == Tagged(level, line).0;
      while p < bufEnd
        invariant 3 <= p <= bufEnd + 1 && buf[bufEnd] == '\0'
        invariant Valid() && header.V1? == old(header.V1?)
        invariant Ring() == Last(was + emitted)
        invariant Tagged(level, line) == (emitted + Tagged(msgLevel, Unread(p, bufEnd)).0,
                                          Tagged(msgLevel, Unread(p, bufEnd)).1)
      {
        ghost var before, rest := msgLevel, Unread(p, bufEnd);
        p := PrintLine(p, bufEnd);
        PrintStep(was, emitted, before, rest);
        emitted := emitted + Head(before, rest);
      }
      TaggedEmpty(msgLevel);
      assert emitted + "" == emitted;
    }
  }
}
