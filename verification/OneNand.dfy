/** OneNAND block writes and reads that skip unusable blocks, with the skip carried from one write to the
    next, and the proof that writing in pieces is the same as writing at once. */
module OneNand {
  import opened Common
  import opened Arith

  type Block = seq<byte>

  // ----- which blocks a transfer uses

  /** Usable blocks from `b` on. */
  function Good(usable: seq<bool>, b: nat): nat
    decreases if b < |usable| then |usable| - b else 0
  {
    if b >= |usable| then 0 else (if usable[b] then 1 else 0) + Good(usable, b + 1)
  }

  /** The block after the `k`-th usable one from `b` on. */
  function End(usable: seq<bool>, b: nat, k: nat): (e: nat)
    requires k <= Good(usable, b)
    ensures e >= b + k
    decreases if b < |usable| then |usable| - b else 0
  {
    if k == 0 then b else End(usable, b + 1, if usable[b] then k - 1 else k)
  }

  /** The next `k` usable blocks. */
  function Places(usable: seq<bool>, b: nat, k: nat): (p: seq<nat>)
    requires k <= Good(usable, b)
    ensures |p| == k
    decreases if b < |usable| then |usable| - b else 0
  {
    if k == 0 then [] else if usable[b] then [b] + Places(usable, b + 1, k - 1) else Places(usable, b + 1, k)
  }

  lemma {:induction false} EndBound(usable: seq<bool>, b: nat, k: nat)
    requires k <= Good(usable, b) && b <= |usable|
    ensures End(usable, b, k) <= |usable|
    decreases |usable| - b
  {
    if k > 0 {
      EndBound(usable, b + 1, if usable[b] then k - 1 else k);
    }
  }

  /** The places are usable, in order, and none is left out. */
  lemma {:induction false} PlacesAreNext(usable: seq<bool>, b: nat, k: nat)
    requires k <= Good(usable, b) && b <= |usable|
    ensures forall c :: c in Places(usable, b, k) <==> b <= c < End(usable, b, k) && c < |usable| && usable[c]
    ensures forall i, j :: 0 <= i < j < k ==> Places(usable, b, k)[i] < Places(usable, b, k)[j]
    decreases |usable| - b
  {
    if k > 0 {
      var m := if usable[b] then k - 1 else k;
      var rest := Places(usable, b + 1, m);
      PlacesAreNext(usable, b + 1, m);
      EndBound(usable, b + 1, m);
      assert forall i :: 0 <= i < |rest| ==> rest[i] in rest;
    }
  }

  lemma GoodMeansInside(usable: seq<bool>, b: nat)
    requires Good(usable, b) > 0
    ensures b < |usable|
  {
  }

  /** Taking `j` and then `k` blocks is taking `j + k`. */
  lemma {:induction false} EndCompose(usable: seq<bool>, b: nat, j: nat, k: nat)
    requires j + k <= Good(usable, b)
    ensures k <= Good(usable, End(usable, b, j))
    ensures End(usable, End(usable, b, j), k) == End(usable, b, j + k)
    decreases if b < |usable| then |usable| - b else 0
  {
    if j > 0 {
      EndCompose(usable, b + 1, if usable[b] then j - 1 else j, k);
    }
  }

  // ----- the flash after a write

  /** Write `k` blocks of `buf` from block `b` on. */
  function Put(content: seq<Block>, usable: seq<bool>, size: nat, b: nat, k: nat, buf: seq<byte>): (r: seq<Block>)
    requires |content| == |usable| && k <= Good(usable, b) && |buf| == k * size
    ensures |r| == |content|
    decreases if b < |usable| then |usable| - b else 0
  {
    if k == 0 then content
    else if usable[b] then
      SizeStep(k, size);
      Put(content[b := buf[..size]], usable, size, b + 1, k - 1, buf[size..])
    else Put(content, usable, size, b + 1, k, buf)
  }

  lemma SizeStep(k: nat, size: nat)
    requires k > 0
    ensures k * size == (k - 1) * size + size && (k - 1) * size >= 0
  {
    assert (k - 1) * size >= 0;
  }

  function Chunk(buf: seq<byte>, size: nat, i: nat): seq<byte>
    requires (i + 1) * size <= |buf| && 0 <= i * size <= (i + 1) * size
  {
    buf[i * size..(i + 1) * size]
  }

  lemma ChunkBounds(i: nat, k: nat, size: nat)
    requires i < k
    ensures 0 <= i * size <= (i + 1) * size <= k * size
  {
    MulMonotone(0, i, size);
    MulMonotone(i, i + 1, size);
    MulMonotone(i + 1, k, size);
  }

  /** Block `i` of the data is in the `i`-th usable block, and nothing else has changed. */
  lemma {:induction false} PutIsExact(content: seq<Block>, usable: seq<bool>, size: nat, b: nat, k: nat,
                                        buf: seq<byte>, c: nat)
    requires |content| == |usable| && k <= Good(usable, b) && |buf| == k * size && c < |content|
    ensures var r, p := Put(content, usable, size, b, k, buf), Places(usable, b, k);
      && (c !in p ==> r[c] == content[c])
      && (forall i :: 0 <= i < k && p[i] == c ==>
            0 <= i * size <= (i + 1) * size <= |buf| && r[c] == Chunk(buf, size, i))
    decreases if b < |usable| then |usable| - b else 0
  {
    var r, p := Put(content, usable, size, b, k, buf), Places(usable, b, k);
    if k == 0 {
    } else if usable[b] {
      SizeStep(k, size);
      var content', buf' := content[b := buf[..size]], buf[size..];
      var rest := Places(usable, b + 1, k - 1);
      PutIsExact(content', usable, size, b + 1, k - 1, buf', c);
      GoodMeansInside(usable, b);
      PlacesAreNext(usable, b + 1, k - 1);
      forall i | 0 <= i < k && p[i] == c
        ensures 0 <= i * size <= (i + 1) * size <= |buf| && r[c] == Chunk(buf, size, i)
      {
        ChunkBounds(i, k, size);
        if i == 0 {
          assert b !in rest;
          assert Chunk(buf, size, 0) == buf[..size];
        } else {
          ChunkBounds(i - 1, k - 1, size);
          assert rest[i - 1] == c;
          assert (i - 1) * size + size == i * size && i * size + size == (i + 1) * size;
          assert Chunk(buf', size, i - 1) == Chunk(buf, size, i);
        }
      }
    } else {
      PutIsExact(content, usable, size, b + 1, k, buf, c);
    }
  }

  lemma {:induction false} PutCompose(content: seq<Block>, usable: seq<bool>, size: nat, b: nat, j: nat, k: nat,
                                        x: seq<byte>, y: seq<byte>)
    requires |content| == |usable| && j + k <= Good(usable, b) && |x| == j * size && |y| == k * size
    ensures |x + y| == (j + k) * size && k <= Good(usable, End(usable, b, j))
    ensures Put(Put(content, usable, size, b, j, x), usable, size, End(usable, b, j), k, y)
         == Put(content, usable, size, b, j + k, x + y)
    decreases if b < |usable| then |usable| - b else 0
  {
    assert (j + k) * size == j * size + k * size;
    EndCompose(usable, b, j, k);
    if j == 0 {
      assert x + y == y;
    } else if usable[b] {
      SizeStep(j, size);
      SizeStep(j + k, size);
      assert (x + y)[..size] == x[..size] && (x + y)[size..] == x[size..] + y;
      PutCompose(content[b := x[..size]], usable, size, b + 1, j - 1, k, x[size..], y);
    } else {
      PutCompose(content, usable, size, b + 1, j, k, x, y);
    }
  }

  // ----- the writer's state over several calls

  /** The flash and the two static variables, in blocks. */
  datatype State = State(content: seq<Block>, next: nat, skip: nat)

  /** The block a write to `to` begins at. */
  function StartBlock(s: State, to: nat): nat {
    if to == s.next then to + s.skip else to
  }

  function Carried(s: State, to: nat): nat {
    if to == s.next then s.skip else 0
  }

  function Write(s: State, usable: seq<bool>, size: nat, to: nat, k: nat, buf: seq<byte>): State
    requires |s.content| == |usable| && k <= Good(usable, StartBlock(s, to)) && |buf| == k * size
  {
    var b := StartBlock(s, to);
    State(Put(s.content, usable, size, b, k, buf), to + k, Carried(s, to) + End(usable, b, k) - b - k)
  }

  /** Two consecutive writes equal one. */
  lemma SplitWrite(s: State, usable: seq<bool>, size: nat, to: nat, j: nat, k: nat, x: seq<byte>, y: seq<byte>)
    requires |s.content| == |usable| && j + k <= Good(usable, StartBlock(s, to)) && |x| == j * size && |y| == k * size
    ensures |x + y| == (j + k) * size
    ensures var s1 := Write(s, usable, size, to, j, x);
      && k <= Good(usable, StartBlock(s1, to + j))
      && Write(s1, usable, size, to + j, k, y) == Write(s, usable, size, to, j + k, x + y)
  {
    hide Put, Good, End;
    var b := StartBlock(s, to);
    PutCompose(s.content, usable, size, b, j, k, x, y);
    EndCompose(usable, b, j, k);
    var s1 := Write(s, usable, size, to, j, x);
    assert StartBlock(s1, to + j) == End(usable, b, j);
  }

  function Total(counts: seq<nat>): nat {
    if counts == [] then 0 else counts[0] + Total(counts[1..])
  }

  predicate Sized(counts: seq<nat>, bufs: seq<seq<byte>>, size: nat) {
    |counts| == |bufs| && forall i :: 0 <= i < |bufs| ==> |bufs[i]| == counts[i] * size
  }

  lemma {:induction false} FlattenSize(counts: seq<nat>, bufs: seq<seq<byte>>, size: nat)
    requires Sized(counts, bufs, size)
    ensures |Flatten(bufs)| == Total(counts) * size
    decreases |bufs|
  {
    if bufs != [] {
      FlattenSize(counts[1..], bufs[1..], size);
      assert (counts[0] + Total(counts[1..])) * size == counts[0] * size + Total(counts[1..]) * size;
    }
  }

  /** The state after writing the pieces one after the other at consecutive offsets. */
  ghost predicate WritesTo(s: State, usable: seq<bool>, size: nat, to: nat,
                           counts: seq<nat>, bufs: seq<seq<byte>>, end: State)
    requires |s.content| == |usable| && Sized(counts, bufs, size)
    decreases |bufs|
  {
    if bufs == [] then end == s
    else
      && counts[0] <= Good(usable, StartBlock(s, to))
      && WritesTo(Write(s, usable, size, to, counts[0], bufs[0]), usable, size, to + counts[0],
                  counts[1..], bufs[1..], end)
  }

  /** Any series of block-multiple writes at consecutive offsets leaves exactly the state of one large
      write of all the data. */
  lemma {:induction false} PiecesEqualOneWrite(s: State, usable: seq<bool>, size: nat, to: nat,
                                                 counts: seq<nat>, bufs: seq<seq<byte>>, end: State)
    requires |s.content| == |usable| && Sized(counts, bufs, size) && bufs != []
    requires Total(counts) <= Good(usable, StartBlock(s, to))
    ensures |Flatten(bufs)| == Total(counts) * size
    ensures WritesTo(s, usable, size, to, counts, bufs, end) <==>
      end == Write(s, usable, size, to, Total(counts), Flatten(bufs))
    decreases |bufs|
  {
    hide Good, Write;
    FlattenSize(counts, bufs, size);
    FlattenSize(counts[1..], bufs[1..], size);
    var k, rest := counts[0], Total(counts[1..]);
    SplitWrite(s, usable, size, to, k, rest, bufs[0], Flatten(bufs[1..]));
    var s1 := Write(s, usable, size, to, k, bufs[0]);
    WriteKeepsSize(s, usable, size, to, k, bufs[0]);
    if |bufs| > 1 {
      PiecesEqualOneWrite(s1, usable, size, to + k, counts[1..], bufs[1..], end);
    } else {
      assert bufs[1..] == [] && counts[1..] == [];
      assert bufs[0] + [] == bufs[0];
      assert Flatten(bufs) == bufs[0] && Total(counts) == k;
    }
  }

  lemma WriteKeepsSize(s: State, usable: seq<bool>, size: nat, to: nat, k: nat, buf: seq<byte>)
    requires |s.content| == |usable| && k <= Good(usable, StartBlock(s, to)) && |buf| == k * size
    ensures |Write(s, usable, size, to, k, buf).content| == |s.content|
  {
  }

  // ----- reading back

  /** What a read of `k` blocks from block `b` returns. */
  function Get(content: seq<Block>, readable: seq<bool>, b: nat, k: nat): seq<byte>
    requires |content| == |readable| && k <= Good(readable, b)
    decreases if b < |readable| then |readable| - b else 0
  {
    if k == 0 then []
    else if readable[b] then content[b] + Get(content, readable, b + 1, k - 1)
    else Get(content, readable, b + 1, k)
  }

  lemma {:induction false} PutBelow(content: seq<Block>, usable: seq<bool>, size: nat, b: nat, k: nat,
                                      buf: seq<byte>, c: nat)
    requires |content| == |usable| && k <= Good(usable, b) && |buf| == k * size && c < b && c < |content|
    ensures Put(content, usable, size, b, k, buf)[c] == content[c]
    decreases if b < |usable| then |usable| - b else 0
  {
    if k > 0 {
      SizeStep(k, size);
      if usable[b] {
        PutBelow(content[b := buf[..size]], usable, size, b + 1, k - 1, buf[size..], c);
      } else {
        PutBelow(content, usable, size, b + 1, k, buf, c);
      }
    }
  }

  /** Where reading and writing find the same blocks usable, a read returns what was written. */
  lemma {:induction false} ReadBack(content: seq<Block>, usable: seq<bool>, readable: seq<bool>, size: nat,
                                      b: nat, k: nat, buf: seq<byte>)
    requires |content| == |usable| == |readable| && k <= Good(usable, b) && |buf| == k * size
    requires forall c :: b <= c < End(usable, b, k) && c < |usable| ==> readable[c] == usable[c]
    ensures k <= Good(readable, b)
    ensures Get(Put(content, usable, size, b, k, buf), readable, b, k) == buf
    decreases if b < |usable| then |usable| - b else 0
  {
    if k > 0 {
      SizeStep(k, size);
      var r := Put(content, usable, size, b, k, buf);
      if usable[b] {
        var content' := content[b := buf[..size]];
        ReadBack(content', usable, readable, size, b + 1, k - 1, buf[size..]);
        PutBelow(content', usable, size, b + 1, k - 1, buf[size..], b);
        assert r[b] == buf[..size];
        assert buf == buf[..size] + buf[size..];
      } else {
        ReadBack(content, usable, readable, size, b + 1, k, buf);
      }
    }
  }

  /** A series of writes that starts afresh at `to` is read back whole from `to`. */
  lemma SeriesReadBack(s: State, usable: seq<bool>, readable: seq<bool>, size: nat, to: nat,
                       counts: seq<nat>, bufs: seq<seq<byte>>, end: State)
    requires |s.content| == |usable| == |readable| && Sized(counts, bufs, size) && bufs != []
    requires to != s.next || s.skip == 0
    requires Total(counts) <= Good(usable, to)
    requires WritesTo(s, usable, size, to, counts, bufs, end)
    requires forall c :: to <= c < End(usable, to, Total(counts)) && c < |usable| ==> readable[c] == usable[c]
    ensures Total(counts) <= Good(readable, to) && |end.content| == |readable|
    ensures Get(end.content, readable, to, Total(counts)) == Flatten(bufs)
  {
    hide Good, Put, Get, End, Total, Flatten, WritesTo;
    PiecesEqualOneWrite(s, usable, size, to, counts, bufs, end);
    ReadBack(s.content, usable, readable, size, to, Total(counts), Flatten(bufs));
  }

  // ----- the driver

  class Chip {
    const blockSize: nat
    const isBad: seq<bool>
    const writeFails: seq<bool>
    const readFails: seq<bool>
    const blocks: array<Block>
    var nextOfs: nat
    var skipOfs: nat

    constructor (blockSize: nat, isBad: seq<bool>, writeFails: seq<bool>, readFails: seq<bool>)
      requires blockSize > 0 && |isBad| == |writeFails| == |readFails|
      ensures Valid() && fresh(blocks) && nextOfs == 0 && skipOfs == 0
      ensures this.blockSize == blockSize && this.isBad == isBad
      ensures this.writeFails == writeFails && this.readFails == readFails
    {
      this.blockSize, this.isBad, this.writeFails, this.readFails := blockSize, isBad, writeFails, readFails;
      blocks := new Block[|isBad|](_ => []);
      nextOfs, skipOfs := 0, 0;
    }

    predicate Valid() {
      blockSize > 0 && |isBad| == |writeFails| == |readFails| == blocks.Length
    }

    /** The static offsets are whole blocks. */
    predicate Aligned()
      requires blockSize > 0
      reads this
    {
      nextOfs % blockSize == 0 && skipOfs % blockSize == 0
    }

    function Writable(): (w: seq<bool>)
      requires Valid()
      ensures |w| == blocks.Length
    {
      seq(|isBad|, b requires 0 <= b < |isBad| => !isBad[b] && !writeFails[b])
    }

    function Readable(): (r: seq<bool>)
      requires Valid()
      ensures |r| == blocks.Length
    {
      seq(|isBad|, b requires 0 <= b < |isBad| => !isBad[b] && !readFails[b])
    }

    /** The driver's state, in blocks. */
    function Abstract(): State
      requires Valid()
      reads this, blocks
    {
      State(blocks[..], nextOfs / blockSize, skipOfs / blockSize)
    }

    lemma InBlocks(ofs: nat, b: nat)
      requires blockSize > 0 && ofs == b * blockSize
      ensures ofs / blockSize == b && ofs % blockSize == 0
    {
      DivModUnique(ofs, blockSize, b, 0);
    }

    /** `mtd->write` of one block: nothing is stored when it fails. */
    method MtdWrite(n: nat, data: Block) returns (failed: bool)
      requires Valid() && n < blocks.Length
      modifies blocks
      ensures failed == writeFails[n]
      ensures blocks[..] == if failed then old(blocks[..]) else old(blocks[..])[n := data]
    {
      failed := writeFails[n];
      if !failed {
        blocks[n] := data;
      }
    }

    /** `mtd->read_oob` of one block: nothing arrives when it fails. */
    method MtdRead(n: nat) returns (failed: bool, data: Block)
      requires Valid() && n < blocks.Length
      ensures failed == readFails[n] && data == if failed then [] else blocks[n]
    {
      failed := readFails[n];
      data := if failed then [] else blocks[n];
    }

    /** `onenand_block_write`, for offsets and lengths that are whole blocks, when enough usable blocks
        follow. */
    method BlockWrite(to: nat, buf: seq<byte>) returns (retlen: nat)
      requires Valid() && Aligned() && to % blockSize == 0 && |buf| % blockSize == 0
      requires |buf| / blockSize <= Good(Writable(), StartBlock(Abstract(), to / blockSize))
      modifies this, blocks
      ensures Aligned() && retlen == |buf|
      ensures (|buf| / blockSize) * blockSize == |buf|
      ensures Abstract() == Write(old(Abstract()), Writable(), blockSize, to / blockSize, |buf| / blockSize, buf)
    {
      hide Good, Put, End;
      ghost var s := Abstract();
      ghost var t, k := to / blockSize, |buf| / blockSize;
      Offsets(to, |buf|, t, k, s);
      var ofs := to;
      if to == nextOfs {
        ofs := to + skipOfs;
      } else {
        skipOfs := 0;
      }
      nextOfs := to + |buf|;
      retlen := WriteLoop(ofs, buf, StartBlock(s, t), k);
    }

    /** The byte offsets of the call in blocks. */
    lemma Offsets(to: nat, len: nat, t: nat, k: nat, s: State)
      requires Valid() && Aligned() && to % blockSize == 0 && len % blockSize == 0
      requires t == to / blockSize && k == len / blockSize && s == Abstract()
      ensures to == nextOfs <==> t == s.next
      ensures len == k * blockSize && to == t * blockSize && to + skipOfs == (t + s.skip) * blockSize
      ensures (to + len) / blockSize == t + k && (to + len) % blockSize == 0
      ensures 0 / blockSize == 0 && 0 % blockSize == 0
    {
      assert to == t * blockSize && len == k * blockSize;
      assert nextOfs == s.next * blockSize && skipOfs == s.skip * blockSize;
      assert (t + k) * blockSize == t * blockSize + k * blockSize;
      assert (t + s.skip) * blockSize == t * blockSize + s.skip * blockSize;
      InBlocks(to + len, t + k);
      InBlocks(0, 0);
    }

    /** The loop: bad blocks and failed writes are skipped and counted in `skip_ofs`. */
    method WriteLoop(start: nat, data: seq<byte>, ghost b0: nat, ghost k0: nat) returns (retlen: nat)
      requires Valid() && Aligned() && start == b0 * blockSize && |data| == k0 * blockSize
      requires k0 <= Good(Writable(), b0)
      modifies this`skipOfs, blocks
      ensures Aligned() && retlen == |data|
      ensures skipOfs / blockSize == old(skipOfs) / blockSize + End(Writable(), b0, k0) - b0 - k0
      ensures blocks[..] == Put(old(blocks[..]), Writable(), blockSize, b0, k0, data)
    {
      ghost var w := Writable();
      InBlocks(|data|, k0);
      var left, ofs, buf := |data| / blockSize, start, data;
      ghost var b, was := b0, blocks[..];
      retlen := 0;
      while left > 0
        invariant ofs == b * blockSize && |buf| == left * blockSize && left <= Good(w, b)
        invariant retlen + |buf| == |data| && b0 + k0 <= b + left
        invariant Aligned() && skipOfs / blockSize == old(skipOfs) / blockSize + b + left - b0 - k0
        invariant End(w, b, left) == End(w, b0, k0)
        invariant Put(blocks[..], w, blockSize, b, left, buf) == Put(was, w, blockSize, b0, k0, data)
        decreases |w| - b
      {
        InBlocks(ofs, b);
        var n := ofs / blockSize;
        SizeStep(left, blockSize);
        assert (b + 1) * blockSize == b * blockSize + blockSize;
        ModShift(skipOfs, 1, blockSize);
        var failed := true;
        if !isBad[n] {
          failed := MtdWrite(n, buf[..blockSize]);
        }
        if failed {
          skipOfs := skipOfs + blockSize;
        } else {
          buf, left, retlen := buf[blockSize..], left - 1, retlen + blockSize;
        }
        ofs, b := ofs + blockSize, b + 1;
      }
    }

    /** `onenand_block_read`, without the out-of-band case. */
    method BlockRead(from: nat, len: nat) returns (buf: seq<byte>)
      requires Valid() && from % blockSize == 0 && len / blockSize <= Good(Readable(), from / blockSize)
      ensures buf == Get(blocks[..], Readable(), from / blockSize, len / blockSize)
    {
      ghost var r := Readable();
      var left: nat, ofs: nat := len / blockSize, from;
      ghost var b0, k0 := from / blockSize, len / blockSize;
      ghost var b := b0;
      buf := [];
      while left > 0
        invariant ofs == b * blockSize && left <= Good(r, b)
        invariant buf + Get(blocks[..], r, b, left) == Get(blocks[..], r, b0, k0)
        decreases |r| - b
      {
        InBlocks(ofs, b);
        var n := ofs / blockSize;
        assert (b + 1) * blockSize == b * blockSize + blockSize;
        var failed, data := true, [];
        if !isBad[n] {
          failed, data := MtdRead(n);
        }
        if !failed {
          ghost var more := Get(blocks[..], r, b + 1, left - 1);
          assert buf + (data + more) == buf + data + more;
          buf := buf + data;
          left := left - 1;
        }
        ofs, b := ofs + blockSize, b + 1;
      }
    }
  }
}
