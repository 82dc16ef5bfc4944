/** EEPROM access: `eeprom_write` and `eeprom_read` cut a range into transfers that hide the device's page wrap. */
module Eeprom {
  import opened Common
  import Arith

  const I2C_RXTX_LEN: nat := 128
  /** The block the code takes the low address byte from. */
  const BLOCK_SIZE: nat := 0x100

  // ----- chip addresses

  /** Bitwise or. */
  function BitOr(a: nat, b: nat): nat
    decreases a + b
  {
    if a == 0 && b == 0 then 0
    else 2 * BitOr(a / 2, b / 2) + (if a % 2 == 1 || b % 2 == 1 then 1 else 0)
  }

  lemma {:induction false} OrZero(b: nat)
    ensures BitOr(0, b) == b
    decreases b
  {
    if b > 0 {
      OrZero(b / 2);
    }
  }

  /** A number below the lowest bit of the other is inserted without a carry. */
  lemma {:induction false} OrIsSum(low: nat, high: nat, k: nat)
    requires low < Pow2(k) && high % Pow2(k) == 0
    ensures BitOr(low, high) == high + low
    decreases k
  {
    if k == 0 {
      OrZero(high);
    } else {
      HalfOfMultiple(high, Pow2(k - 1));
      OrIsSum(low / 2, high / 2, k - 1);
    }
  }

  lemma HalfOfMultiple(high: nat, p: nat)
    requires p > 0 && high % (2 * p) == 0
    ensures high % 2 == 0 && (high / 2) % p == 0
  {
    var q := high / (2 * p);
    Arith.MulAssociates(q, 2, p);
    assert high == q * (2 * p) == 2 * (q * p);
    Arith.DivModUnique(high / 2, p, q, 0);
  }

  /** A device at `dev` that answers to 2^selBits chip addresses, each a bank of 256 or 65536 bytes. */
  datatype Geometry = Geometry(dev: nat, selBits: nat, addrLen: nat, page: nat) {
    predicate Ok() {
      && 1 <= addrLen <= 2 && 0 < page && BLOCK_SIZE % page == 0
      && dev % Pow2(selBits) == 0 && dev + Pow2(selBits) <= 256
    }

    function Bank(): nat {
      if addrLen == 1 then 0x100 else 0x1_0000
    }

    function Capacity(): nat {
      Pow2(selBits) * Bank()
    }

    /** `addr[0]`: the block number with the device address inserted. */
    function Chip(offset: nat): nat {
      BitOr(offset / Bank() % 256, dev)
    }

    /** The part of the offset sent as the word address. */
    function WordAddress(offset: nat): nat {
      offset % Bank()
    }

    predicate Answers(chip: nat) {
      dev <= chip < dev + Pow2(selBits)
    }

    /** The cell a chip and a word address stand for. */
    function Cell(chip: nat, word: nat): nat {
      chip % Pow2(selBits) * Bank() + word
    }
  }

  /** Every offset inside the device reaches its own cell, through an address the device answers to. */
  lemma AddressReachesCell(g: Geometry, offset: nat)
    requires g.Ok() && offset < g.Capacity()
    ensures g.Answers(g.Chip(offset)) && g.WordAddress(offset) < g.Bank()
    ensures g.Cell(g.Chip(offset), g.WordAddress(offset)) == offset
  {
    hide Pow2, BitOr;
    var p, bank := Pow2(g.selBits), g.Bank();
    var block := offset / bank;
    assert block < p by {
      if block >= p {
        Arith.MulMonotone(p, block, bank);
      }
    }
    OrIsSum(block, g.dev, g.selBits);
    var q := g.dev / p;
    assert g.dev == q * p;
    Arith.ModShift(block, q, p);
    assert block % p == block by {
      Arith.DivModUnique(block, p, 0, block);
    }
    assert offset == block * bank + offset % bank;
  }

  // ----- the device

  /** The cell of the `i`-th byte of a transfer: the address counter only moves inside its page. */
  function Spot(at: nat, i: nat, page: nat): int
    requires page > 0
  {
    at - at % page + (at % page + i) % page
  }

  lemma SpotInside(at: nat, i: nat, page: nat, n: nat)
    requires page > 0 && n % page == 0 && at < n
    ensures 0 <= Spot(at, i, page) < n
  {
    var q, m := at / page, n / page;
    assert at == q * page + at % page && n == m * page;
    if q + 1 > m {
      Arith.MulMonotone(m, q, page);
      assert false;
    }
    Arith.MulMonotone(q + 1, m, page);
    Arith.MulDistributes(q, 1, page);
  }

  /** A transfer that stays inside its page goes to consecutive cells. */
  lemma SpotInPage(at: nat, i: nat, page: nat)
    requires page > 0 && at % page + i < page
    ensures Spot(at, i, page) == at + i
  {
    Arith.DivModUnique(at % page + i, page, 0, at % page + i);
  }

  /** The cells after a write transfer. */
  function Written(cells: seq<byte>, at: nat, data: seq<byte>, page: nat): (r: seq<byte>)
    requires page > 0 && |cells| % page == 0 && at < |cells|
    ensures |r| == |cells|
    decreases |data|
  {
    if data == [] then cells
    else
      SpotInside(at, |data| - 1, page, |cells|);
      Written(cells, at, data[..|data| - 1], page)[Spot(at, |data| - 1, page) := data[|data| - 1]]
  }

  lemma NothingWritten(cells: seq<byte>, at: nat, page: nat)
    requires page > 0 && |cells| % page == 0 && at < |cells|
    ensures Written(cells, at, [], page) == cells
  {
  }

  lemma WrittenStep(cells: seq<byte>, at: nat, data: seq<byte>, page: nat)
    requires page > 0 && |cells| % page == 0 && at < |cells| && data != []
    ensures 0 <= Spot(at, |data| - 1, page) < |cells|
    ensures Written(cells, at, data, page)
      == Written(cells, at, data[..|data| - 1], page)[Spot(at, |data| - 1, page) := data[|data| - 1]]
  {
    hide Spot;
    SpotInside(at, |data| - 1, page, |cells|);
  }

  /** The bytes of a read transfer. */
  function ReadOut(cells: seq<byte>, at: nat, n: nat, page: nat): (r: seq<byte>)
    requires page > 0 && |cells| % page == 0 && at < |cells|
    ensures |r| == n
    decreases n
  {
    if n == 0 then []
    else
      SpotInside(at, n - 1, page, |cells|);
      ReadOut(cells, at, n - 1, page) + [cells[Spot(at, n - 1, page)]]
  }

  /** The cells with a range replaced. */
  function Updated(cells: seq<byte>, at: nat, data: seq<byte>): seq<byte>
    requires at + |data| <= |cells|
  {
    cells[..at] + data + cells[at + |data|..]
  }

  lemma {:induction false} WrittenInPage(cells: seq<byte>, at: nat, data: seq<byte>, page: nat)
    requires page > 0 && |cells| % page == 0 && at + |data| <= |cells| && at < |cells| && at % page + |data| <= page
    ensures Written(cells, at, data, page) == Updated(cells, at, data)
    decreases |data|
  {
    hide Spot;
    if data == [] {
      assert Updated(cells, at, data) == cells;
    } else {
      var n := |data| - 1;
      SpotInPage(at, n, page);
      WrittenInPage(cells, at, data[..n], page);
      assert Updated(cells, at, data[..n])[at + n := data[n]] == Updated(cells, at, data);
    }
  }

  lemma {:induction false} ReadInPage(cells: seq<byte>, at: nat, n: nat, page: nat)
    requires page > 0 && |cells| % page == 0 && at + n <= |cells| && at < |cells| && at % page + n <= page
    ensures ReadOut(cells, at, n, page) == cells[at..at + n]
    decreases n
  {
    hide Spot;
    if n > 0 {
      SpotInPage(at, n - 1, page);
      ReadInPage(cells, at, n - 1, page);
      assert cells[at..at + n] == cells[at..at + (n - 1)] + [cells[at + n - 1]];
    }
  }

  // ----- chunks

  /** The length of the next transfer. */
  function Chunk(offset: nat, end: nat, page: nat): nat
    requires page > 0 && offset <= end
  {
    Min(end - offset, Min(page - offset % BLOCK_SIZE % page, I2C_RXTX_LEN))
  }

  /** Every transfer is non-empty, fits the bus buffer and stays inside one page, so the loops end. */
  lemma ChunkFits(offset: nat, end: nat, page: nat)
    requires page > 0 && BLOCK_SIZE % page == 0 && offset < end
    ensures 0 < Chunk(offset, end, page) <= I2C_RXTX_LEN && offset + Chunk(offset, end, page) <= end
    ensures offset % page + Chunk(offset, end, page) <= page
  {
    var k := BLOCK_SIZE / page;
    var q := offset / BLOCK_SIZE;
    assert BLOCK_SIZE == k * page && offset == q * BLOCK_SIZE + offset % BLOCK_SIZE;
    Arith.MulAssociates(q, k, page);
    Arith.ModShift(offset % BLOCK_SIZE, q * k, page);
  }

  /** Two adjacent updates are one. */
  lemma UpdatesJoin(cells: seq<byte>, at: nat, a: seq<byte>, b: seq<byte>)
    requires at + |a| + |b| <= |cells|
    ensures Updated(Updated(cells, at, a), at + |a|, b) == Updated(cells, at, a + b)
  {
  }

  lemma CapacityIsWholePages(g: Geometry, page: nat)
    requires g.Ok() && page > 0 && BLOCK_SIZE % page == 0
    ensures g.Capacity() % page == 0
  {
    hide Pow2;
    var k := BLOCK_SIZE / page;
    var banks := if g.addrLen == 1 then 1 else 0x100;
    assert BLOCK_SIZE == k * page && g.Bank() == banks * BLOCK_SIZE;
    Arith.MulAssociates(banks, k, page);
    Arith.MulAssociates(Pow2(g.selBits), banks * k, page);
    Arith.DivModUnique(g.Capacity(), page, Pow2(g.selBits) * (banks * k), 0);
  }

  /** A buffer with the first `n` bytes read from `at` on. */
  function Filled(was: seq<byte>, all: seq<byte>, at: nat, n: nat): seq<byte>
    requires at + n <= |all| && n <= |was|
  {
    all[at..at + n] + was[n..]
  }

  lemma NothingFilled(was: seq<byte>, all: seq<byte>, at: nat)
    requires at <= |all|
    ensures Filled(was, all, at, 0) == was
  {
  }

  lemma ReadsJoin(was: seq<byte>, all: seq<byte>, at: nat, to: nat, len: nat)
    requires at + to + len <= |all| && to + len <= |was|
    ensures (var now := Filled(was, all, at, to);
             |now| == |was|
             && Filled(was, all, at, to + len) == now[..to] + all[at + to..at + to + len] + now[to + len..])
  {
  }

  class Device {
    const cells: array<byte>
    const g: Geometry

    constructor (g: Geometry)
      requires g.Ok()
      ensures Valid() && this.g == g && fresh(cells)
    {
      this.g := g;
      cells := new byte[g.Capacity()];
    }

    predicate Valid() {
      g.Ok() && cells.Length == g.Capacity()
    }

    /** A write transfer on the bus. */
    method I2cWrite(chip: nat, word: nat, buffer: array<byte>, from: nat, len: nat)
      requires Valid() && g.Answers(chip) && word < g.Bank() && g.Cell(chip, word) < cells.Length
      requires 0 < len <= I2C_RXTX_LEN && from + len <= buffer.Length && buffer != cells
      requires cells.Length % g.page == 0
      modifies cells
      ensures cells[..] == Written(old(cells[..]), g.Cell(chip, word), buffer[from..from + len], g.page)
    {
      hide Spot, Pow2, BitOr, Written;
      NothingWritten(cells[..], g.Cell(chip, word), g.page);
      ghost var was, data := cells[..], buffer[from..from + len];
      var at := g.Cell(chip, word);
      for i := 0 to len
        invariant cells[..] == Written(was, at, data[..i], g.page)
      {
        SpotInside(at, i, g.page, cells.Length);
        assert data[..i + 1][..i] == data[..i] && data[i] == buffer[from + i];
        WrittenStep(was, at, data[..i + 1], g.page);
        cells[Spot(at, i, g.page)] := buffer[from + i];
      }
      assert data[..len] == data;
    }

    /** A read transfer; reading wraps inside the 256-byte block. */
    method I2cRead(chip: nat, word: nat, buffer: array<byte>, to: nat, len: nat)
      requires Valid() && g.Answers(chip) && word < g.Bank() && g.Cell(chip, word) < cells.Length
      requires 0 < len <= I2C_RXTX_LEN && to + len <= buffer.Length && buffer != cells
      requires cells.Length % BLOCK_SIZE == 0
      modifies buffer
      ensures buffer[..] == old(buffer[..])[..to] + ReadOut(cells[..], g.Cell(chip, word), len, BLOCK_SIZE)
                            + old(buffer[..])[to + len..]
    {
      hide Spot, Pow2, BitOr;
      ghost var before, after, all := buffer[..to], buffer[to + len..], cells[..];
      var at := g.Cell(chip, word);
      for i := 0 to len
        invariant cells[..] == all
        invariant buffer[..to + i] == before + ReadOut(all, at, i, BLOCK_SIZE)
        invariant buffer[to + len..] == after
      {
        SpotInside(at, i, BLOCK_SIZE, cells.Length);
        ghost var done := buffer[..to + i];
        buffer[to + i] := cells[Spot(at, i, BLOCK_SIZE)];
        assert buffer[..to + (i + 1)] == done + [cells[Spot(at, i, BLOCK_SIZE)]];
      }
      assert buffer[..] == buffer[..to + len] + buffer[to + len..];
    }

    /** `eeprom_write`: one linear update of the range. */
    method EepromWrite(offset0: nat, buffer: array<byte>, cnt: nat)
      requires Valid() && offset0 + cnt <= cells.Length && cnt <= buffer.Length && buffer != cells
      modifies cells
      ensures cells[..] == Updated(old(cells[..]), offset0, buffer[..cnt])
    {
      hide Written, Updated, Chunk, Pow2, BitOr;
      ghost var was := cells[..];
      CapacityIsWholePages(g, g.page);
      var offset, from, end := offset0, 0, offset0 + cnt;
      NoUpdate(was, offset0);
      assert buffer[..0] == [];
      while offset < end
        invariant offset == offset0 + from <= end
        invariant cells[..] == Updated(was, offset0, buffer[..from])
      {
        ChunkFits(offset, end, g.page);
        AddressReachesCell(g, offset);
        var len := Chunk(offset, end, g.page);
        I2cWrite(g.Chip(offset), g.WordAddress(offset), buffer, from, len);
        WrittenInPage(Updated(was, offset0, buffer[..from]), offset, buffer[from..from + len], g.page);
        UpdatesJoin(was, offset0, buffer[..from], buffer[from..from + len]);
        assert buffer[..from] + buffer[from..from + len] == buffer[..from + len];
        from := from + len;
        offset := offset + len;
      }
    }

    /** `eeprom_read`: the linear contents of the range. */
    method EepromRead(offset0: nat, buffer: array<byte>, cnt: nat)
      requires Valid() && offset0 + cnt <= cells.Length && cnt <= buffer.Length && buffer != cells
      modifies buffer
      ensures buffer[..] == Filled(old(buffer[..]), cells[..], offset0, cnt)
    {
      hide ReadOut, Chunk, Pow2, BitOr, Spot, Filled;
      ghost var was, all := buffer[..], cells[..];
      CapacityIsWholePages(g, BLOCK_SIZE);
      var offset, to, end := offset0, 0, offset0 + cnt;
      NothingFilled(was, all, offset0);
      while offset < end
        invariant offset == offset0 + to <= end && cells[..] == all
        invariant buffer[..] == Filled(was, all, offset0, to)
      {
        ChunkFits(offset, end, BLOCK_SIZE);
        AddressReachesCell(g, offset);
        var len := Chunk(offset, end, BLOCK_SIZE);
        I2cRead(g.Chip(offset), g.WordAddress(offset), buffer, to, len);
        ReadInPage(all, offset, len, BLOCK_SIZE);
        ReadsJoin(was, all, offset0, to, len);
        to := to + len;
        offset := offset + len;
      }
    }
  }

  lemma NoUpdate(cells: seq<byte>, at: nat)
    requires at <= |cells|
    ensures Updated(cells, at, []) == cells
  {
  }
}
