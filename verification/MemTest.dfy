/** One iteration of the alternative memory test over a memory that may be faulty in any combination of
    two ways: word addresses that reach the same cell, and cell bits stuck at 0 or 1. */
module MemTest {
  import opened Common

  const PATTERN := 0xaaaaaaaa
  const ANTI_PATTERN := 0x55555555

  // ----- words of `width` bits, and stuck bits in them

  /** The one's complement of a word. */
  function Not(v: int, width: nat): int {
    Pow2(width) - 1 - v
  }

  /** The bits `k..width` of a word, right-aligned in `v`, after the stuck bits have had their way. */
  function HeldBits(v: nat, k: nat, width: nat, zeros: set<nat>, ones: set<nat>): (r: nat)
    requires k <= width && v < Pow2(width - k)
    ensures r < Pow2(width - k)
    decreases width - k
  {
    if k == width then 0
    else 2 * HeldBits(v / 2, k + 1, width, zeros, ones) + if k in ones then 1 else if k in zeros then 0 else v % 2
  }

  /** What has been stored once stays the same when it is stored again. */
  lemma {:induction false} HeldBitsFixed(v: nat, k: nat, width: nat, zeros: set<nat>, ones: set<nat>)
    requires k <= width && v < Pow2(width - k)
    ensures HeldBits(HeldBits(v, k, width, zeros, ones), k, width, zeros, ones) == HeldBits(v, k, width, zeros, ones)
    decreases width - k
  {
    if k < width {
      HeldBitsFixed(v / 2, k + 1, width, zeros, ones);
      assert HeldBits(v, k, width, zeros, ones) / 2 == HeldBits(v / 2, k + 1, width, zeros, ones);
    }
  }

  lemma {:induction false} HeldBitsIdentity(v: nat, k: nat, width: nat, zeros: set<nat>, ones: set<nat>)
    requires k <= width && v < Pow2(width - k)
    requires forall b :: k <= b < width ==> b !in zeros && b !in ones
    ensures HeldBits(v, k, width, zeros, ones) == v
    decreases width - k
  {
    if k < width {
      HeldBitsIdentity(v / 2, k + 1, width, zeros, ones);
    }
  }

  /** A cell that holds both a word and its complement has no stuck bit. */
  lemma {:induction false} HeldBothWays(v: nat, k: nat, width: nat, zeros: set<nat>, ones: set<nat>)
    requires k <= width && v < Pow2(width - k)
    requires HeldBits(v, k, width, zeros, ones) == v
    requires HeldBits(Not(v, width - k), k, width, zeros, ones) == Not(v, width - k)
    ensures forall b :: k <= b < width ==> b !in zeros && b !in ones
    decreases width - k
  {
    if k < width {
      var u := Not(v, width - k);
      assert u / 2 == Not(v / 2, width - (k + 1)) && u % 2 == 1 - v % 2;
      assert HeldBits(v, k, width, zeros, ones) / 2 == HeldBits(v / 2, k + 1, width, zeros, ones);
      assert HeldBits(u, k, width, zeros, ones) / 2 == HeldBits(u / 2, k + 1, width, zeros, ones);
      HeldBothWays(v / 2, k + 1, width, zeros, ones);
    }
  }

  class Memory {
    const width: nat
    const cellOf: seq<nat>
    const stuckAt0: seq<set<nat>>
    const stuckAt1: seq<set<nat>>
    const cells: array<nat>

    constructor (width: nat, cellOf: seq<nat>, stuckAt0: seq<set<nat>>, stuckAt1: seq<set<nat>>)
      requires |stuckAt0| == |stuckAt1| && |cellOf| < Pow2(width)
      requires forall i :: 0 <= i < |cellOf| ==> cellOf[i] < |stuckAt0|
      ensures this.cellOf == cellOf && this.stuckAt0 == stuckAt0 && this.stuckAt1 == stuckAt1 && this.width == width
      ensures fresh(cells) && Wired()
    {
      this.width, this.cellOf, this.stuckAt0, this.stuckAt1 := width, cellOf, stuckAt0, stuckAt1;
      cells := new nat[|stuckAt0|](_ => 0);
    }

    ghost predicate Wired() {
      && |stuckAt0| == |stuckAt1| == cells.Length
      && |cellOf| < Pow2(width)
      && forall i :: 0 <= i < |cellOf| ==> cellOf[i] < cells.Length
    }

    /** No two of the first `n` word addresses reach the same cell. */
    ghost predicate Injective(n: nat)
      requires n <= |cellOf|
    {
      forall i, j :: 0 <= i < j < n ==> cellOf[i] != cellOf[j]
    }

    ghost predicate UnstuckCell(c: nat)
      requires Wired() && c < cells.Length
    {
      forall b :: 0 <= b < width ==> b !in stuckAt0[c] && b !in stuckAt1[c]
    }

    /** No bit of a cell reached by the first `n` word addresses is stuck. */
    ghost predicate Unstuck(n: nat)
      requires Wired() && n <= |cellOf|
    {
      forall i :: 0 <= i < n ==> UnstuckCell(cellOf[i])
    }

    ghost predicate Healthy(n: nat)
      requires Wired() && n <= |cellOf|
    {
      Injective(n) && Unstuck(n)
    }

    /** What cell `c` holds after `v` is stored in it. */
    function Stored(c: nat, v: nat): nat
      requires Wired() && c < cells.Length
    {
      if v < Pow2(width) then HeldBits(v, 0, width, stuckAt0[c], stuckAt1[c]) else 0
    }

    /** The cell of address `i` can hold the test pattern of `i`. */
    ghost predicate HoldsPattern(i: nat)
      requires Wired() && i < |cellOf|
    {
      Stored(cellOf[i], i + 1) == i + 1
    }

    function Load(i: nat): nat
      requires Wired() && i < |cellOf|
      reads cells
    {
      cells[cellOf[i]]
    }

    method Store(i: nat, v: nat)
      requires Wired() && i < |cellOf|
      modifies cells
      ensures cells[..] == old(cells[..])[cellOf[i] := Stored(cellOf[i], v)]
    {
      cells[cellOf[i]] := Stored(cellOf[i], v);
    }

    lemma StoredIsFixed(c: nat, v: nat)
      requires Wired() && c < cells.Length && v < Pow2(width)
      ensures Stored(c, Stored(c, v)) == Stored(c, v)
    {
      HeldBitsFixed(v, 0, width, stuckAt0[c], stuckAt1[c]);
    }

    lemma BothWaysMeansUnstuck(c: nat, v: nat)
      requires Wired() && c < cells.Length && v < Pow2(width)
      requires Stored(c, v) == v && Stored(c, Not(v, width)) == Not(v, width)
      ensures UnstuckCell(c)
    {
      HeldBothWays(v, 0, width, stuckAt0[c], stuckAt1[c]);
    }

    lemma UnstuckStores(c: nat, v: nat)
      requires Wired() && c < cells.Length && UnstuckCell(c) && v < Pow2(width)
      ensures Stored(c, v) == v
    {
      HeldBitsIdentity(v, 0, width, stuckAt0[c], stuckAt1[c]);
    }

    // ----- the three loops

    /** `w` maps each cell that addresses below `n` reach to the last of those addresses, others to -1. */
    ghost predicate LastWriters(w: seq<int>, n: nat)
      requires Wired() && n <= |cellOf|
    {
      && |w| == cells.Length
      && (forall i :: 0 <= i < n ==> i <= w[cellOf[i]])
      && (forall c :: 0 <= c < |w| ==> -1 <= w[c] < n && (w[c] >= 0 ==> cellOf[w[c]] == c))
    }

    /** First loop: word `i` gets `i + 1`. The ghost result is each cell's last writer. */
    method Fill(n: nat) returns (ghost writer: seq<int>)
      requires Wired() && n <= |cellOf|
      modifies cells
      ensures LastWriters(writer, n)
      ensures forall c :: 0 <= c < cells.Length && writer[c] >= 0 ==> cells[c] == Stored(c, writer[c] + 1)
    {
      hide HeldBits;
      writer := seq(cells.Length, _ => -1);
      var pattern: nat, offset: nat := 1, 0;
      while offset < n
        invariant offset <= n && pattern == offset + 1
        invariant LastWriters(writer, offset)
        invariant forall c :: 0 <= c < cells.Length && writer[c] >= 0 ==> cells[c] == Stored(c, writer[c] + 1)
      {
        Store(offset, pattern);
        writer := writer[cellOf[offset] := offset];
        pattern, offset := pattern + 1, offset + 1;
      }
    }

    /** The second loop after `k` words: each cell reached so far was `first` read by one address and has
        `recent`ly been inverted by another; the rest still hold what their last writer left. */
    ghost predicate Checked(s: seq<nat>, writer: seq<int>, first: seq<int>, recent: seq<int>, k: nat)
      requires Wired() && k <= |cellOf| && |s| == |writer| == |recent| == |first| == cells.Length
    {
      && LastWriters(recent, k)
      && (forall i :: 0 <= i < k ==> first[cellOf[i]] <= i)
      && (forall c :: 0 <= c < |s| ==> CheckedCell(s, writer, first, recent, k, c))
    }

    ghost predicate CheckedCell(s: seq<nat>, writer: seq<int>, first: seq<int>, recent: seq<int>, k: nat, c: nat)
      requires Wired() && k <= |cellOf| && |s| == |writer| == |recent| == |first| == cells.Length && c < |s|
    {
      if recent[c] >= 0 then
        && 0 <= first[c] < k && cellOf[first[c]] == c && writer[c] >= 0
        && first[c] + 1 == Stored(c, writer[c] + 1)
        && Not(recent[c] + 1, width) >= 0 && s[c] == Stored(c, Not(recent[c] + 1, width))
      else
        writer[c] >= 0 ==> s[c] == Stored(c, writer[c] + 1)
    }

    lemma CheckStep(s: seq<nat>, writer: seq<int>, first: seq<int>, recent: seq<int>, k: nat)
      requires Wired() && k < |cellOf| && |s| == |writer| == |recent| == |first| == cells.Length
      requires Checked(s, writer, first, recent, k) && 0 <= writer[cellOf[k]] < |cellOf| && s[cellOf[k]] == k + 1
      ensures HoldsPattern(k)
      ensures var c := cellOf[k];
        Checked(s[c := Stored(c, Not(k + 1, width))], writer,
                if recent[c] >= 0 then first else first[c := k], recent[c := k], k + 1)
    {
      hide HeldBits;
      var c := cellOf[k];
      assert CheckedCell(s, writer, first, recent, k, c);
      StoredIsFixed(c, if recent[c] >= 0 then Not(recent[c] + 1, width) else writer[c] + 1);
      var s', first', recent', k' := s[c := Stored(c, Not(k + 1, width))],
        if recent[c] >= 0 then first else first[c := k], recent[c := k], k + 1;
      forall d | 0 <= d < |s|
        ensures CheckedCell(s', writer, first', recent', k', d)
      {
        assert CheckedCell(s, writer, first, recent, k, d);
      }
    }

    lemma CheckDone(s: seq<nat>, writer: seq<int>, first: seq<int>, recent: seq<int>, n: nat)
      requires Wired() && n <= |cellOf| && |s| == |writer| == |recent| == |first| == cells.Length
      requires LastWriters(writer, n) && Checked(s, writer, first, recent, n)
      requires forall i :: 0 <= i < n ==> HoldsPattern(i)
      ensures Injective(n)
      ensures forall i :: 0 <= i < n ==> s[cellOf[i]] == Stored(cellOf[i], Not(i + 1, width))
    {
      hide HeldBits;
      forall i | 0 <= i < n
        ensures recent[cellOf[i]] == i == writer[cellOf[i]]
      {
        assert CheckedCell(s, writer, first, recent, n, cellOf[i]);
        assert HoldsPattern(writer[cellOf[i]]);
      }
      forall i | 0 <= i < n
        ensures s[cellOf[i]] == Stored(cellOf[i], Not(i + 1, width))
      {
        assert CheckedCell(s, writer, first, recent, n, cellOf[i]);
      }
    }

    /** Second loop: check word `i` for `i + 1` and invert it. */
    method CheckAndInvert(n: nat, ghost writer: seq<int>) returns (ok: bool)
      requires Wired() && n <= |cellOf| && LastWriters(writer, n)
      requires forall c :: 0 <= c < cells.Length && writer[c] >= 0 ==> cells[c] == Stored(c, writer[c] + 1)
      modifies cells
      ensures Healthy(n) ==> ok
      ensures ok ==> Injective(n)
      ensures ok ==> forall i :: 0 <= i < n ==> HoldsPattern(i)
      ensures ok ==> forall i :: 0 <= i < n ==> cells[cellOf[i]] == Stored(cellOf[i], Not(i + 1, width))
    {
      hide HeldBits;
      ghost var first, recent := seq(cells.Length, _ => -1), seq(cells.Length, _ => -1);
      var pattern: nat, offset: nat := 1, 0;
      while offset < n
        invariant offset <= n && pattern == offset + 1 && |first| == |recent| == cells.Length
        invariant Checked(cells[..], writer, first, recent, offset)
        invariant forall i :: 0 <= i < offset ==> HoldsPattern(i)
      {
        ghost var s, c := cells[..], cellOf[offset];
        var temp := Load(offset);
        if temp != pattern {
          assert CheckedCell(s, writer, first, recent, offset, c);
          if Healthy(n) {
            assert UnstuckCell(c);
            UnstuckStores(c, pattern);
          }
          return false;
        }
        CheckStep(s, writer, first, recent, offset);
        Store(offset, Not(pattern, width));
        first := if recent[c] >= 0 then first else first[c := offset];
        recent := recent[c := offset];
        pattern, offset := pattern + 1, offset + 1;
      }
      CheckDone(cells[..], writer, first, recent, n);
      return true;
    }

    /** Third loop: check word `i` for the inverse of `i + 1` and zero it. */
    method CheckInverted(n: nat) returns (ok: bool)
      requires Wired() && n <= |cellOf| && Injective(n)
      requires forall i :: 0 <= i < n ==> HoldsPattern(i)
      requires forall i :: 0 <= i < n ==> cells[cellOf[i]] == Stored(cellOf[i], Not(i + 1, width))
      modifies cells
      ensures ok <==> Unstuck(n)
    {
      hide HeldBits;
      var pattern: nat, offset: nat := 1, 0;
      while offset < n
        invariant offset <= n && pattern == offset + 1
        invariant Unstuck(offset)
        invariant forall i :: offset <= i < n ==> cells[cellOf[i]] == Stored(cellOf[i], Not(i + 1, width))
      {
        var antiPattern := Not(pattern, width);
        var temp := Load(offset);
        if temp != antiPattern {
          if Unstuck(n) {
            UnstuckStores(cellOf[offset], antiPattern);
          }
          return false;
        }
        assert HoldsPattern(offset);
        BothWaysMeansUnstuck(cellOf[offset], pattern);
        Store(offset, 0);
        pattern, offset := pattern + 1, offset + 1;
      }
      return true;
    }

    // ----- the walking-ones address line test that runs first

    /** One of the offsets 1, 2, 4, ... below `len`, each of which raises a single address line. */
    ghost predicate IsLine(a: int, len: nat) {
      0 <= a < len && IsPower(a)
    }

    ghost predicate IsPower(a: nat) {
      exists k: nat :: a == Pow2(k)
    }

    /** The test offsets: 0 and every line. */
    ghost predicate IsTest(t: int, len: nat) {
      t == 0 || IsLine(t, len)
    }

    /** What is read at `a` when `t` holds the anti-pattern and every line beside it the pattern. */
    function Seen(t: nat, a: nat): nat
      requires Wired() && t < |cellOf| && a < |cellOf|
    {
      Stored(cellOf[a], if cellOf[t] == cellOf[a] then ANTI_PATTERN else PATTERN)
    }

    /** With the anti-pattern at `t`, every other line still reads as the pattern. */
    ghost predicate Undisturbed(t: nat, len: nat)
      requires Wired() && t < |cellOf| && len < |cellOf|
    {
      forall a :: IsLine(a, len) && a != t ==> Seen(t, a) == PATTERN
    }

    /** The exact condition for the address line test to pass. */
    ghost predicate LinesPass(len: nat)
      requires Wired() && len < |cellOf|
    {
      forall t :: IsTest(t, len) ==> Undisturbed(t, len)
    }

    /** No two of the test offsets reach the same cell. */
    ghost predicate LinesApart(len: nat)
      requires Wired() && len < |cellOf|
    {
      forall t, a :: IsTest(t, len) && IsLine(a, len) && t != a ==> cellOf[t] != cellOf[a]
    }

    ghost predicate Settled(len: nat, bound: nat)
      requires Wired() && len < |cellOf|
      reads cells
    {
      forall a :: IsLine(a, len) && a < bound ==> Load(a) == Stored(cellOf[a], PATTERN)
    }

    lemma {:induction false} Pow2Grows(j: nat, k: nat)
      requires j < k
      ensures 2 * Pow2(j) <= Pow2(k)
    {
      if j + 1 < k {
        Pow2Grows(j, k - 1);
      }
    }

    /** Doubling the offset passes over no line. */
    lemma NextLine(k: nat, len: nat)
      ensures IsLine(Pow2(k), len) <==> Pow2(k) < len
      ensures forall a :: IsLine(a, len) && Pow2(k) <= a < 2 * Pow2(k) ==> a == Pow2(k)
    {
      forall a | IsLine(a, len) && Pow2(k) <= a < 2 * Pow2(k) ensures a == Pow2(k) {
        var j: nat :| a == Pow2(j);
        if j < k { Pow2Grows(j, k); }
        if k < j { Pow2Grows(k, j); }
      }
    }

    lemma NothingBelowOne(len: nat)
      ensures forall a :: IsLine(a, len) ==> a >= 1
    {
    }

    /** `for (offset = 1; offset < len; offset <<= 1) start[offset] = pattern`. */
    method FillLines(len: nat)
      requires Wired() && len < |cellOf|
      modifies cells
      ensures Settled(len, len)
    {
      hide Stored, IsPower;
      NothingBelowOne(len);
      var offset: nat := 1;
      ghost var k := 0;
      while offset < len
        invariant offset == Pow2(k) && Settled(len, offset)
        decreases len - offset
      {
        NextLine(k, len);
        Store(offset, PATTERN);
        offset, k := 2 * offset, k + 1;
      }
    }

    /** The inner checking loop: all lines but the test offset read as the pattern. */
    method CheckLines(len: nat, testOffset: nat) returns (ok: bool)
      requires Wired() && len < |cellOf|
      ensures ok <==> forall a :: IsLine(a, len) && a != testOffset ==> Load(a) == PATTERN
    {
      hide IsPower;
      NothingBelowOne(len);
      var offset: nat := 1;
      ghost var k := 0;
      while offset < len
        invariant offset == Pow2(k)
        invariant forall a :: IsLine(a, len) && a < offset && a != testOffset ==> Load(a) == PATTERN
        decreases len - offset
      {
        NextLine(k, len);
        var temp := Load(offset);
        if temp != PATTERN && offset != testOffset {
          return false;
        }
        offset, k := 2 * offset, k + 1;
      }
      return true;
    }

    /** The anti-pattern at `testOffset`, the check of the lines, and the pattern back again. */
    method TestLine(len: nat, testOffset: nat) returns (ok: bool)
      requires Wired() && len < |cellOf| && testOffset < |cellOf| && Settled(len, len)
      modifies cells
      ensures ok <==> Undisturbed(testOffset, len)
      ensures ok ==> Settled(len, len)
    {
      hide Stored, IsPower;
      Store(testOffset, ANTI_PATTERN);
      assert forall a :: IsLine(a, len) ==> Load(a) == Seen(testOffset, a);
      ok := CheckLines(len, testOffset);
      if ok {
        Store(testOffset, PATTERN);
      }
    }

    /** Passes exactly when, whatever the wiring and the stuck bits, no test offset disturbs
        the pattern of another line. */
    method AddressLineTest(len: nat) returns (ok: bool)
      requires Wired() && len < |cellOf|
      modifies cells
      ensures ok <==> LinesPass(len)
    {
      hide Undisturbed, IsPower;
      NothingBelowOne(len);
      FillLines(len);
      assert IsTest(0, len);
      ok := TestLine(len, 0);
      if !ok {
        return;
      }
      var testOffset: nat := 1;
      ghost var k := 0;
      while testOffset < len
        invariant testOffset == Pow2(k) && Settled(len, len)
        invariant forall t :: IsTest(t, len) && t < testOffset ==> Undisturbed(t, len)
        decreases len - testOffset
      {
        NextLine(k, len);
        assert IsTest(testOffset, len);
        ok := TestLine(len, testOffset);
        if !ok {
          return;
        }
        testOffset, k := 2 * testOffset, k + 1;
      }
      return true;
    }

    /** Where no line's cell has a stuck bit, the test passes exactly when the test offsets reach different
        cells: a line that is stuck or shorted with another is always found. */
    lemma LineFaultsAreFound(len: nat)
      requires Wired() && len < |cellOf| && PATTERN < Pow2(width)
      requires forall a :: IsLine(a, len) ==> UnstuckCell(cellOf[a])
      ensures LinesPass(len) <==> LinesApart(len)
    {
      hide Stored, IsPower, UnstuckCell;
      forall a | IsLine(a, len)
        ensures Stored(cellOf[a], PATTERN) == PATTERN && Stored(cellOf[a], ANTI_PATTERN) == ANTI_PATTERN
      {
        UnstuckStores(cellOf[a], PATTERN);
        UnstuckStores(cellOf[a], ANTI_PATTERN);
      }
      if LinesPass(len) {
        forall t, a | IsTest(t, len) && IsLine(a, len) && t != a ensures cellOf[t] != cellOf[a] {
          assert Undisturbed(t, len);
        }
      }
    }

    lemma HealthyLinesPass(len: nat)
      requires Wired() && len < |cellOf| && PATTERN < Pow2(width) && Healthy(len + 1)
      ensures LinesPass(len)
    {
      hide IsPower;
      LineFaultsAreFound(len);
      forall t, a | IsTest(t, len) && IsLine(a, len) && t != a ensures cellOf[t] != cellOf[a] {
        var i, j := if t < a then t else a, if t < a then a else t;
        assert cellOf[i] != cellOf[j];
      }
    }

    // ----- verdicts

    /** The increment test as a whole decides health. */
    method IncrementTest(n: nat) returns (ok: bool)
      requires Wired() && n <= |cellOf|
      modifies cells
      ensures ok <==> Healthy(n)
    {
      ghost var writer := Fill(n);
      ok := CheckAndInvert(n, writer);
      if ok {
        ok := CheckInverted(n);
      }
    }

    /** One iteration of the test: `end - start` words apart, so `len + 1` words are tested. The verdict is
        exact: it passes if and only if the memory is healthy. */
    method Iteration(len: nat) returns (ok: bool)
      requires Wired() && len < |cellOf| && PATTERN < Pow2(width)
      modifies cells
      ensures ok <==> Healthy(len + 1)
    {
      ok := AddressLineTest(len);
      if Healthy(len + 1) {
        HealthyLinesPass(len);
      }
      if ok {
        ok := IncrementTest(len + 1);
      }
    }
  }
}
