/** Reading blocks from a floppy whose transfers may fail: `fdc_read_data` with its retries and
    recalibrations, and the block-to-track arithmetic of `fdc_issue_cmd`. */
module Floppy {
  import opened Common
  import opened Arith

  const RW_RETRIES: nat := 3
  const CAL_RETRIES: nat := 3

  /** Sectors per track side and heads. */
  datatype Geometry = Geometry(sect: nat, head: nat)

  predicate GeometryOk(g: Geometry) {
    0 < g.sect < 256 && 1 <= g.head <= 2
  }

  // ----- where a block lies

  function Track(g: Geometry, b: nat): nat
    requires GeometryOk(g)
  {
    SideBlocks(g);
    b / (g.sect * g.head)
  }

  function Rest(g: Geometry, b: nat): nat
    requires GeometryOk(g)
  {
    SideBlocks(g);
    b % (g.sect * g.head)
  }

  function Head(g: Geometry, b: nat): nat
    requires GeometryOk(g)
  {
    Rest(g, b) / g.sect
  }

  /** Sectors are numbered from 1. */
  function Sector(g: Geometry, b: nat): nat
    requires GeometryOk(g)
  {
    Rest(g, b) % g.sect + 1
  }

  lemma SideBlocks(g: Geometry)
    requires GeometryOk(g)
    ensures g.sect * g.head > 0
  {
    MulAtLeast(g.head, g.sect);
  }

  /** The nested divisions are one division by the track side and one by the heads. */
  lemma Mapping(g: Geometry, b: nat)
    requires GeometryOk(g)
    ensures Track(g, b) == (b / g.sect) / g.head
    ensures Head(g, b) == (b / g.sect) % g.head < g.head
    ensures Sector(g, b) == b % g.sect + 1 <= g.sect
  {
    DivModNested(b, g.sect, g.head);
  }

  /** The mapping inverts to the block number. */
  lemma MappingInverts(g: Geometry, b: nat)
    requires GeometryOk(g)
    ensures (Track(g, b) * g.head + Head(g, b)) * g.sect + (Sector(g, b) - 1) == b
  {
    Mapping(g, b);
    var q := b / g.sect;
    assert (q / g.head) * g.head + q % g.head == q;
  }

  /** Blocks that fit on the rest of a side are consecutive sectors of it. */
  lemma SameSide(g: Geometry, b: nat, j: nat)
    requires GeometryOk(g) && b % g.sect + j < g.sect
    ensures Track(g, b + j) == Track(g, b) && Head(g, b + j) == Head(g, b) && Sector(g, b + j) == Sector(g, b) + j
  {
    hide Track, Head, Sector;
    Mapping(g, b);
    Mapping(g, b + j);
    DivModUnique(b + j, g.sect, b / g.sect, b % g.sect + j);
  }

  /** One read command as the controller sees it; `failedAt` is the byte where the transfer broke, or -1. */
  datatype Command = Read(track: nat, head: nat, sector: nat, count: nat, failedAt: int)

  function Failures(cs: seq<Command>): nat {
    if cs == [] then 0 else Failures(cs[..|cs| - 1]) + if cs[|cs| - 1].failedAt >= 0 then 1 else 0
  }

  predicate OnOneSide(g: Geometry, c: Command) {
    1 <= c.sector && c.sector + c.count <= g.sect + 1 && c.head < g.head
  }

  class Drive {
    const g: Geometry
    const sectSize: nat
    const platter: (nat, nat, nat) -> seq<byte>
    const fault: nat -> int
    const seekWorks: nat -> bool
    const recalibrateWorks: nat -> bool
    const issueWorks: nat -> bool
    var trace: seq<Command>
    var seeks: nat
    var recalibrations: nat
    var blnr: nat
    /** The track the heads stand on. */
    var cylinder: nat

    constructor (g: Geometry, sectSize: nat, platter: (nat, nat, nat) -> seq<byte>, fault: nat -> int,
                 seekWorks: nat -> bool, recalibrateWorks: nat -> bool, issueWorks: nat -> bool, blnr: nat,
                 cylinder: nat)
      requires GeometryOk(g) && forall t, h, s :: |platter(t, h, s)| == sectSize
      ensures this.g == g && this.sectSize == sectSize && this.platter == platter && this.blnr == blnr
      ensures Medium() && trace == []
    {
      this.g, this.sectSize, this.platter, this.fault := g, sectSize, platter, fault;
      this.seekWorks, this.recalibrateWorks, this.issueWorks := seekWorks, recalibrateWorks, issueWorks;
      this.blnr, this.cylinder, trace, seeks, recalibrations := blnr, cylinder, [], 0, 0;
    }

    ghost predicate Medium() {
      GeometryOk(g) && forall t, h, s :: |platter(t, h, s)| == sectSize
    }

    /** Size of `n` sectors. */
    function Bytes(n: nat): nat {
      n * sectSize
    }

    /** Consecutive sectors of one side. */
    ghost function SideBytes(t: nat, h: nat, s: nat, count: nat): (r: seq<byte>)
      requires Medium()
      ensures |r| == count * sectSize
    {
      if count == 0 then [] else
        assert count * sectSize == (count - 1) * sectSize + sectSize;
        SideBytes(t, h, s, count - 1) + platter(t, h, s + (count - 1))
    }

    /** The contents of a block. */
    ghost function BlockBytes(b: nat): (r: seq<byte>)
      requires Medium()
      ensures |r| == sectSize
    {
      platter(Track(g, b), Head(g, b), Sector(g, b))
    }

    ghost function Blocks(b: nat, count: nat): (r: seq<byte>)
      requires Medium()
      ensures |r| == count * sectSize
    {
      if count == 0 then [] else
        assert count * sectSize == (count - 1) * sectSize + sectSize;
        Blocks(b, count - 1) + BlockBytes(b + (count - 1))
    }

    lemma {:induction false} BlocksOnSide(b: nat, count: nat)
      requires Medium() && b % g.sect + count <= g.sect
      ensures Blocks(b, count) == SideBytes(Track(g, b), Head(g, b), Sector(g, b), count)
    {
      hide Track, Head, Sector;
      if count > 0 {
        BlocksOnSide(b, count - 1);
        SameSide(g, b, count - 1);
      }
    }

    lemma {:induction false} BlocksConcat(b: nat, j: nat, k: nat)
      requires Medium()
      ensures Blocks(b, j + k) == Blocks(b, j) + Blocks(b + j, k)
    {
      hide BlockBytes;
      if k > 0 {
        BlocksConcat(b, j, k - 1);
        assert Blocks(b, j) + (Blocks(b + j, k - 1) + BlockBytes(b + j + (k - 1)))
            == Blocks(b, j) + Blocks(b + j, k - 1) + BlockBytes(b + j + (k - 1));
      }
    }

    /** The heads stand where the current block is. */
    predicate OnTrack()
      requires GeometryOk(g)
      reads this`blnr, this`cylinder
    {
      cylinder == Track(g, blnr)
    }

    /** `fdc_seek` to the track of the current block, and the check of its status. */
    method Seek() returns (ok: bool)
      requires GeometryOk(g)
      modifies this`seeks, this`cylinder
      ensures seeks == old(seeks) + 1 && ok == seekWorks(old(seeks))
      ensures ok ==> OnTrack()
    {
      ok := seekWorks(seeks);
      if ok {
        cylinder := Track(g, blnr);
      }
      seeks := seeks + 1;
    }

    /** `fdc_recalibrate` moves the heads to track 0. */
    method Recalibrate() returns (ok: bool)
      modifies this`recalibrations, this`cylinder
      ensures recalibrations == old(recalibrations) + 1 && ok == recalibrateWorks(old(recalibrations))
      ensures ok ==> cylinder == 0
    {
      ok := recalibrateWorks(recalibrations);
      if ok {
        cylinder := 0;
      }
      recalibrations := recalibrations + 1;
    }

    /** Since the given counts, the last seek or recalibration did not work, or the next command will not. */
    predicate Broken(seeksBefore: nat, recalibrationsBefore: nat)
      reads this`seeks, this`recalibrations, this`trace
    {
      || (seeksBefore < seeks && !seekWorks(seeks - 1))
      || (recalibrationsBefore < recalibrations && !recalibrateWorks(recalibrations - 1))
      || !issueWorks(|trace|)
    }

    /** One read command and its transfer into `buffer[offset..]`. What arrives is read where the heads stand. */
    method Transfer(buffer: array<byte>, offset: nat, count: nat)
      returns (issued: bool, complete: bool, ghost failedAt: int)
      requires Medium() && offset + count * sectSize <= buffer.Length && blnr % g.sect + count <= g.sect
      modifies this`trace, buffer
      ensures buffer[..offset] == old(buffer[..offset])
      ensures issued == issueWorks(|old(trace)|) && (!issued ==> trace == old(trace))
      ensures issued ==> complete == (failedAt < 0)
      ensures issued ==> trace == old(trace) + [Read(Track(g, blnr), Head(g, blnr), Sector(g, blnr), count, failedAt)]
      ensures issued && complete && OnTrack() ==> buffer[offset..offset + count * sectSize] == Blocks(blnr, count)
    {
      hide Track, Head, Sector, SideBytes, Blocks;
      var t, h, s := Track(g, blnr), Head(g, blnr), Sector(g, blnr);
      Mapping(g, blnr);
      BlocksOnSide(blnr, count);
      issued := issueWorks(|trace|);
      complete, failedAt := false, -1;
      if !issued {
        return;
      }
      var len := sectSize * count;
      ghost var data := SideBytes(cylinder, h, s, count);
      var i := 0;
      while i < len && i != fault(|trace|)
        invariant 0 <= i <= len == |data|
        invariant buffer[..offset] == old(buffer[..offset])
        modifies buffer
        invariant forall j :: 0 <= j < i ==> buffer[offset + j] == data[j]
      {
        buffer[offset + i] := ByteAt(cylinder, h, s, count, i);
        i := i + 1;
      }
      complete := i == len;
      failedAt := if complete then -1 else i;
      trace := trace + [Read(t, h, s, count, if complete then -1 else i)];
      if complete {
        assert forall j :: 0 <= j < len ==> buffer[offset..offset + len][j] == data[j];
      }
    }

    /** The `i`-th byte of a transfer. */
    function ByteAt(t: nat, h: nat, s: nat, count: nat, i: nat): (b: byte)
      requires Medium() && i < sectSize * count
      ensures b == SideBytes(t, h, s, count)[i]
      decreases count
    {
      var low := (count - 1) * sectSize;
      assert count * sectSize == low + sectSize;
      if i < low then ByteAt(t, h, s, count - 1, i) else platter(t, h, s + (count - 1))[i - low]
    }

    /** The commands issued by one call, and how many of their transfers failed. */
    ghost predicate Traced(was: seq<Command>, errors: nat)
      reads this`trace
    {
      && was <= trace && Failures(trace) == Failures(was) + errors
      && forall i :: |was| <= i < |trace| ==> OnOneSide(g, trace[i])
    }

    lemma TracedMore(was: seq<Command>, before: seq<Command>, errors: nat, c: Command)
      requires was <= before && Failures(before) == Failures(was) + errors && trace == before + [c]
      requires forall i :: |was| <= i < |before| ==> OnOneSide(g, before[i])
      requires OnOneSide(g, c)
      ensures Traced(was, errors + if c.failedAt >= 0 then 1 else 0)
    {
      assert trace[..|trace| - 1] == before;
    }

    function FirstCount(blocks: nat): nat
      requires GeometryOk(g)
      reads this`blnr
    {
      if g.sect - blnr % g.sect > blocks then blocks else g.sect - blnr % g.sect
    }

    /** `fdc_read_data`. On success the buffer holds the blocks in order and at most 24 transfers broke; giving
        up means that 25 did, or that a seek, a recalibration or a command did not work. */
    method ReadData(buffer: array<byte>, blocks: nat) returns (ok: bool, ghost errors: nat)
      requires Medium() && buffer.Length >= Bytes(blocks)
      modifies this`trace, this`seeks, this`recalibrations, this`blnr, this`cylinder, buffer
      ensures Traced(old(trace), errors)
      ensures ok ==> errors <= 24 && blnr == old(blnr) + blocks
      ensures ok ==> buffer[..Bytes(blocks)] == Blocks(old(blnr), blocks)
      ensures !ok ==> errors == 25 || Broken(old(seeks), old(recalibrations))
    {
      hide Blocks, OnOneSide, Failures, BlockBytes, Traced, Medium, SideFits, Bytes, Track;
      errors := 0;
      MediumGeometry();
      ghost var was, start := trace, blnr;
      var left: nat, offset: nat := blocks, 0;
      var retriesRw: nat, retriesCal: nat := 0, 0;
      ghost var done: nat := 0;
      NothingYet(start);
      var works := Seek();
      if !works {
        return false, errors;
      }
      var count: nat := FirstCount(left);
      FirstFits(left);
      while true
        invariant retriesRw <= 4 && retriesCal <= 4 && errors == 5 * retriesCal + retriesRw
        invariant Traced(was, errors) && GeometryOk(g) && seeks > old(seeks) && recalibrations >= old(recalibrations)
        invariant done + left == blocks && blnr == start + done && offset == Bytes(done) <= buffer.Length
        invariant count <= left && SideFits(blnr, count, left) && OnTrack()
        invariant buffer[..offset] == Blocks(start, done)
        decreases left, 4 - retriesCal, 4 - retriesRw
      {
        Room(offset, done, count, left, blocks);
        var issued, complete := TracedTransfer(buffer, offset, count, left, was, errors);
        if !issued {
          return false, errors;
        }
        if !complete {
          errors := errors + 1;
          var again;
          again, retriesRw, retriesCal := Retry(retriesRw, retriesCal);
          if !again {
            return false, errors;
          }
          continue;
        }
        Advance(buffer[..], offset, start, done, count);
        NextSide(blnr, count, left);
        offset, done := offset + Bytes(count), done + count;
        blnr, left := blnr + count, left - count;
        if left == 0 {
          break;
        }
        count := if g.sect > left then left else g.sect;
        works := Seek();
        if !works {
          return false, errors;
        }
      }
      return true, errors;
    }

    /** After a broken transfer: try again, or recalibrate and seek, or give up. */
    method Retry(rw: nat, cal: nat) returns (again: bool, rw': nat, cal': nat)
      requires rw <= 4 && cal <= 4 && GeometryOk(g) && OnTrack()
      modifies this`seeks, this`recalibrations, this`cylinder
      ensures seeks >= old(seeks) && recalibrations >= old(recalibrations)
      ensures again ==> rw' <= 4 && cal' <= 4 && 5 * cal' + rw' == 5 * cal + rw + 1
      ensures again ==> (cal' > cal || (cal' == cal && rw' > rw)) && OnTrack()
      ensures !again ==> 5 * cal + rw + 1 == 25 || Broken(old(seeks), old(recalibrations))
    {
      again, rw', cal' := false, rw + 1, cal;
      if rw > RW_RETRIES {
        cal' := cal + 1;
        if cal > CAL_RETRIES {
          return;
        }
        var works := Recalibrate();
        if !works {
          return;
        }
        rw' := 0;
        works := Seek();
        if !works {
          return;
        }
      }
      again := true;
    }

    method TracedTransfer(buffer: array<byte>, offset: nat, count: nat, ghost left: nat,
                          ghost was: seq<Command>, ghost errors: nat)
      returns (issued: bool, complete: bool)
      requires Medium() && offset + Bytes(count) <= buffer.Length && SideFits(blnr, count, left)
      requires Traced(was, errors) && OnTrack()
      modifies this`trace, buffer
      ensures buffer[..offset] == old(buffer[..offset])
      ensures Traced(was, errors + if issued && !complete then 1 else 0)
      ensures !issued ==> !issueWorks(|trace|)
      ensures issued && complete ==> buffer[offset..offset + Bytes(count)] == Blocks(blnr, count)
    {
      hide Blocks, OnOneSide, Failures, Track, Head, Sector;
      ghost var before := trace;
      ghost var failedAt;
      issued, complete, failedAt := Transfer(buffer, offset, count);
      if issued {
        CommandFits(count, failedAt);
        TracedMore(was, before, errors, Read(Track(g, blnr), Head(g, blnr), Sector(g, blnr), count, failedAt));
      }
    }

    lemma CommandFits(count: nat, failedAt: int)
      requires GeometryOk(g) && blnr % g.sect + count <= g.sect
      ensures OnOneSide(g, Read(Track(g, blnr), Head(g, blnr), Sector(g, blnr), count, failedAt))
    {
      hide Track, Head, Sector;
      Mapping(g, blnr);
    }

    /** A read stays on its side, and stops short of the side's end only if it reads everything left. */
    predicate SideFits(b: nat, count: nat, left: nat)
      requires GeometryOk(g)
    {
      b % g.sect + count <= g.sect && (b % g.sect + count == g.sect || count == left)
    }

    lemma FirstFits(left: nat)
      requires GeometryOk(g)
      ensures FirstCount(left) <= left && SideFits(blnr, FirstCount(left), left)
    {
    }

    lemma MediumGeometry()
      requires Medium()
      ensures GeometryOk(g)
    {
    }

    lemma NothingYet(b: nat)
      requires Medium()
      ensures Blocks(b, 0) == [] && Traced(trace, 0) && Bytes(0) == 0
    {
    }

    lemma Room(offset: nat, done: nat, count: nat, left: nat, blocks: nat)
      requires offset == Bytes(done) && done + left == blocks && count <= left
      ensures offset + Bytes(count) == Bytes(done + count) <= Bytes(blocks)
    {
      MulDistributes(done, count, sectSize);
      MulMonotone(done + count, blocks, sectSize);
    }

    lemma Advance(s: seq<byte>, offset: nat, start: nat, done: nat, count: nat)
      requires Medium() && offset + Bytes(count) <= |s|
      requires s[..offset] == Blocks(start, done) && s[offset..offset + Bytes(count)] == Blocks(start + done, count)
      ensures s[..offset + Bytes(count)] == Blocks(start, done + count)
    {
      hide Blocks;
      BlocksConcat(start, done, count);
      assert s[..offset + Bytes(count)] == s[..offset] + s[offset..offset + Bytes(count)];
    }

    /** After the rest of a side, the next block starts a side. */
    lemma NextSide(b: nat, count: nat, left: nat)
      requires GeometryOk(g) && SideFits(b, count, left) && count <= left
      ensures left > count ==> SideFits(b + count, if g.sect > left - count then left - count else g.sect, left - count)
      ensures left > count ==> count > 0
    {
      if b % g.sect + count == g.sect {
        MulDistributes(b / g.sect, 1, g.sect);
        DivModUnique(b + count, g.sect, b / g.sect + 1, 0);
      }
    }
  }
}
