/** Which flash sectors an address range selects (`flash_fill_sect_ranges` and its users). */
module FlashRange {
  import opened Common

  /** `start` holds the first address of every sector; `Unknown` is a bank without a flash id. */
  datatype Bank = Unknown | Bank(start: seq<nat>, size: nat)

  /** What is chosen in one bank. */
  datatype Choice = Nothing | Sectors(first: nat, last: nat)

  /** A bank's sectors are consecutive; its last byte may be the last one of the address space. */
  predicate BankOk(b: Bank) {
    && b.Bank? && |b.start| > 0 && (forall i, j :: 0 <= i < j < |b.start| ==> b.start[i] < b.start[j])
    && b.start[|b.start| - 1] < b.start[0] + b.size <= WRAP
  }

  predicate BanksOk(banks: seq<Bank>) {
    forall k :: 0 <= k < |banks| && banks[k].Bank? ==> BankOk(banks[k])
  }

  function BankEnd(b: Bank): nat
    requires BankOk(b)
  {
    b.start[0] + b.size - 1
  }

  /** Last address of a sector. */
  function SectorEnd(b: Bank, i: nat): (e: nat)
    requires BankOk(b) && i < |b.start|
    ensures b.start[i] <= e <= BankEnd(b)
  {
    if i == |b.start| - 1 then BankEnd(b) else b.start[i + 1] - 1
  }

  predicate InBank(b: Bank, a: nat)
    requires BankOk(b)
  {
    b.start[0] <= a <= BankEnd(b)
  }

  /** No two banks share an address. */
  predicate Disjoint(banks: seq<Bank>)
    requires BanksOk(banks)
  {
    forall j, k :: 0 <= j < k < |banks| && banks[j].Bank? && banks[k].Bank? ==>
      BankEnd(banks[j]) < banks[k].start[0] || BankEnd(banks[k]) < banks[j].start[0]
  }

  // ----- one bank

  /** The sector that starts at `a`, or the number of sectors. */
  function StartingAt(b: Bank, a: nat): (n: nat)
    requires BankOk(b)
    ensures n <= |b.start| && (n < |b.start| ==> b.start[n] == a)
    ensures n == |b.start| ==> forall i :: 0 <= i < |b.start| ==> b.start[i] != a
  {
    if exists i :: 0 <= i < |b.start| && b.start[i] == a then
      var i :| 0 <= i < |b.start| && b.start[i] == a; UniqueStart(b, a, i); i
    else |b.start|
  }

  lemma UniqueStart(b: Bank, a: nat, i: nat)
    requires BankOk(b) && i < |b.start| && b.start[i] == a
    ensures forall j :: 0 <= j < |b.start| && b.start[j] == a ==> j == i
  {
  }

  lemma SectorsOrdered(b: Bank, i: nat, j: nat)
    requires BankOk(b) && i < j < |b.start|
    ensures SectorEnd(b, i) < b.start[j] <= SectorEnd(b, j)
  {
    if i + 1 < j {
      assert b.start[i + 1] < b.start[j];
    }
  }

  /** The sector that ends at `z`, or the number of sectors. */
  function EndingAt(b: Bank, z: nat): (n: nat)
    requires BankOk(b)
    ensures n <= |b.start| && (n < |b.start| ==> SectorEnd(b, n) == z)
    ensures n == |b.start| ==> forall i :: 0 <= i < |b.start| ==> SectorEnd(b, i) != z
  {
    if exists i :: 0 <= i < |b.start| && SectorEnd(b, i) == z then
      var i :| 0 <= i < |b.start| && SectorEnd(b, i) == z; UniqueEnd(b, z, i); i
    else |b.start|
  }

  lemma UniqueEnd(b: Bank, z: nat, i: nat)
    requires BankOk(b) && i < |b.start| && SectorEnd(b, i) == z
    ensures forall j :: 0 <= j < |b.start| && SectorEnd(b, j) == z ==> j == i
  {
    forall j | 0 <= j < |b.start| && SectorEnd(b, j) == z ensures j == i {
      if j < i { SectorsOrdered(b, j, i); } else if i < j { SectorsOrdered(b, i, j); }
    }
  }

  datatype Verdict = Failed | Chosen(choice: Choice)

  /** What one turn of the bank loop decides for the range from `a` to `z`. */
  function Decide(b: Bank, a: nat, z: nat): Verdict
    requires b.Bank? ==> BankOk(b)
  {
    if b.Unknown? then Chosen(Nothing)
    else
      var n, sf, sl := |b.start|, StartingAt(b, a), EndingAt(b, z);
      if sf < n then
        if sl == n then (if z > BankEnd(b) then Chosen(Sectors(sf, n - 1)) else Failed)
        else if sl < sf then Failed
        else Chosen(Sectors(sf, sl))
      else if a >= b.start[0] && a < BankEnd(b) then Failed
      else if sl < n then Failed
      else Chosen(Nothing)
  }

  // ----- all banks

  datatype Plan = Plan(ok: bool, next: nat, choices: seq<Choice>, count: nat)

  /** The address after the chosen sectors, and the same in 32 bits. */
  function Follow(b: Bank, a: nat, c: Choice): nat
    requires c.Sectors? ==> BankOk(b) && c.last < |b.start|
  {
    if c.Sectors? then SectorEnd(b, c.last) + 1 else a
  }

  function After(b: Bank, a: nat, c: Choice): nat
    requires c.Sectors? ==> BankOk(b) && c.last < |b.start|
  {
    if c.Sectors? then (SectorEnd(b, c.last) + 1) % WRAP else a
  }

  function Size(c: Choice): nat
    requires c.Sectors? ==> c.first <= c.last
  {
    if c.Sectors? then c.last - c.first + 1 else 0
  }

  function Nothings(n: nat): seq<Choice> {
    if n == 0 then [] else [Nothing] + Nothings(n - 1)
  }

  /** The plan for the banks from `k` on, in 32-bit addresses as the code has them. */
  function PlanFrom(banks: seq<Bank>, k: nat, a: nat, z: nat): (p: Plan)
    requires BanksOk(banks) && k <= |banks|
    ensures p.ok ==> |p.choices| == |banks| - k
    decreases |banks| - k
  {
    if k == |banks| then Plan(true, a, [], 0)
    else if a > z then (NothingsLength(|banks| - k); Plan(true, a, Nothings(|banks| - k), 0))
    else
      match Decide(banks[k], a, z)
      case Failed => Plan(false, a, [], 0)
      case Chosen(c) =>
        var rest := PlanFrom(banks, k + 1, After(banks[k], a, c), z);
        Plan(rest.ok, rest.next, [c] + rest.choices, Size(c) + rest.count)
  }

  /** The plan in unbounded addresses; here `next` is the first address not covered. */
  function LinearFrom(banks: seq<Bank>, k: nat, a: nat, z: nat): (p: Plan)
    requires BanksOk(banks) && k <= |banks|
    ensures p.ok ==> |p.choices| == |banks| - k
    decreases |banks| - k
  {
    if k == |banks| then Plan(true, a, [], 0)
    else if a > z then (NothingsLength(|banks| - k); Plan(true, a, Nothings(|banks| - k), 0))
    else
      match Decide(banks[k], a, z)
      case Failed => Plan(false, a, [], 0)
      case Chosen(c) =>
        var rest := LinearFrom(banks, k + 1, Follow(banks[k], a, c), z);
        Plan(rest.ok, rest.next, [c] + rest.choices, Size(c) + rest.count)
  }

  lemma {:induction false} NothingsLength(n: nat)
    ensures |Nothings(n)| == n && forall i :: 0 <= i < n ==> Nothings(n)[i] == Nothing
  {
    if n > 0 {
      NothingsLength(n - 1);
    }
  }

  /** The chosen sectors of a bank contain `x`. */
  predicate Covers(b: Bank, c: Choice, x: nat)
    requires b.Bank? ==> BankOk(b)
  {
    b.Bank? && c.Sectors? && c.first <= c.last < |b.start| && b.start[c.first] <= x <= SectorEnd(b, c.last)
  }

  ghost predicate Selected(banks: seq<Bank>, k: nat, choices: seq<Choice>, x: nat)
    requires BanksOk(banks) && k + |choices| <= |banks|
  {
    exists i :: 0 <= i < |choices| && Covers(banks[k + i], choices[i], x)
  }

  lemma DecideSound(b: Bank, a: nat, z: nat)
    requires (b.Bank? ==> BankOk(b)) && a <= z && Decide(b, a, z).Chosen?
    ensures var c := Decide(b, a, z).choice;
      c.Sectors? ==>
        && b.Bank? && c.first <= c.last < |b.start| && b.start[c.first] == a
        && a < Follow(b, a, c) <= z + 1
        && forall x: nat :: Covers(b, c, x) <==> a <= x < Follow(b, a, c)
  {
    var c := Decide(b, a, z).choice;
    if c.Sectors? && c.first < c.last {
      SectorsOrdered(b, c.first, c.last);
    }
  }

  /** In unbounded addresses a successful plan covers exactly an initial segment of the range, without gaps, and no byte
      outside it. */
  lemma {:induction false} LinearTiles(banks: seq<Bank>, k: nat, a: nat, z: nat)
    requires BanksOk(banks) && k <= |banks| && a <= z + 1 && LinearFrom(banks, k, a, z).ok
    ensures var p := LinearFrom(banks, k, a, z);
      && a <= p.next <= z + 1
      && (forall x: nat :: Selected(banks, k, p.choices, x) <==> a <= x < p.next)
      && (p.count == 0 <==> p.next == a)
    decreases |banks| - k
  {
    hide Decide, Covers, BankOk, BankEnd, SectorEnd;
    var p := LinearFrom(banks, k, a, z);
    if k == |banks| {
    } else if a > z {
      NothingsLength(|banks| - k);
      NothingCovers(banks, k, p.choices);
    } else {
      DecideSound(banks[k], a, z);
      var c := Decide(banks[k], a, z).choice;
      NothingIsUncovered(banks[k]);
      var a' := Follow(banks[k], a, c);
      LinearTiles(banks, k + 1, a', z);
      SelectedSplit(banks, k, c, LinearFrom(banks, k + 1, a', z).choices);
    }
  }

  lemma NothingIsUncovered(b: Bank)
    requires b.Bank? ==> BankOk(b)
    ensures forall x: nat :: !Covers(b, Nothing, x)
  {
  }

  lemma NothingCovers(banks: seq<Bank>, k: nat, choices: seq<Choice>)
    requires BanksOk(banks) && k + |choices| <= |banks| && forall i :: 0 <= i < |choices| ==> choices[i] == Nothing
    ensures forall x: nat :: !Selected(banks, k, choices, x)
  {
  }

  lemma SelectedSplit(banks: seq<Bank>, k: nat, c: Choice, rest: seq<Choice>)
    requires BanksOk(banks) && k + 1 + |rest| <= |banks|
    ensures forall x: nat ::
      Selected(banks, k, [c] + rest, x) <==> Covers(banks[k], c, x) || Selected(banks, k + 1, rest, x)
  {
    hide Covers, BankOk;
    var all := [c] + rest;
    forall x: nat
      ensures Selected(banks, k, all, x) <==> Covers(banks[k], c, x) || Selected(banks, k + 1, rest, x)
    {
      if Covers(banks[k], c, x) {
        assert Covers(banks[k + 0], all[0], x);
      }
      if Selected(banks, k + 1, rest, x) {
        var i :| 0 <= i < |rest| && Covers(banks[k + 1 + i], rest[i], x);
        assert Covers(banks[k + (i + 1)], all[i + 1], x);
      }
      if Selected(banks, k, all, x) {
        var i :| 0 <= i < |all| && Covers(banks[k + i], all[i], x);
        if i > 0 {
          assert Covers(banks[k + 1 + (i - 1)], rest[i - 1], x);
        }
      }
    }
  }

  // ----- every sector inside the covered segment is chosen, and counted once

  ghost predicate SectorIn(b: Bank, s: nat, lo: nat, hi: nat) {
    b.Bank? && BankOk(b) && s < |b.start| && lo <= b.start[s] && SectorEnd(b, s) < hi
  }

  lemma SectorsSameOrder(b: Bank, i: nat, j: nat)
    requires BankOk(b) && i < |b.start| && j < |b.start|
    ensures i <= j <==> b.start[i] <= b.start[j]
    ensures i <= j <==> SectorEnd(b, i) <= SectorEnd(b, j)
    ensures i <= j <==> b.start[i] <= SectorEnd(b, j)
  {
    if i < j { SectorsOrdered(b, i, j); } else if j < i { SectorsOrdered(b, j, i); }
  }

  lemma InsideIsChosen(banks: seq<Bank>, choices: seq<Choice>, k: nat, s: nat)
    requires BanksOk(banks) && Disjoint(banks) && |choices| == |banks| && k < |banks|
    requires banks[k].Bank? && s < |banks[k].start| && Selected(banks, 0, choices, banks[k].start[s])
    ensures choices[k].Sectors? && choices[k].first <= s <= choices[k].last < |banks[k].start|
  {
    hide Disjoint;
    var x := banks[k].start[s];
    var i :| 0 <= i < |choices| && Covers(banks[0 + i], choices[i], x);
    CoversInBank(banks[i], choices[i], x);
    SameBank(banks, i, k, x);
    SectorsSameOrder(banks[k], choices[k].first, s);
    SectorsSameOrder(banks[k], s, choices[k].last);
  }

  lemma ChosenIsCovered(banks: seq<Bank>, choices: seq<Choice>, k: nat, s: nat)
    requires BanksOk(banks) && |choices| == |banks| && k < |banks| && banks[k].Bank?
    requires choices[k].Sectors? && choices[k].first <= s <= choices[k].last < |banks[k].start|
    ensures Selected(banks, 0, choices, banks[k].start[s]) && Selected(banks, 0, choices, SectorEnd(banks[k], s))
  {
    SectorsSameOrder(banks[k], choices[k].first, s);
    SectorsSameOrder(banks[k], s, choices[k].last);
    assert Covers(banks[0 + k], choices[k], banks[k].start[s]);
    assert Covers(banks[0 + k], choices[k], SectorEnd(banks[k], s));
  }

  lemma CoversInBank(b: Bank, c: Choice, x: nat)
    requires (b.Bank? ==> BankOk(b)) && Covers(b, c, x)
    ensures InBank(b, x)
  {
    if c.first > 0 {
      assert b.start[0] < b.start[c.first];
    }
  }

  lemma SameBank(banks: seq<Bank>, i: nat, k: nat, x: nat)
    requires BanksOk(banks) && Disjoint(banks) && i < |banks| && k < |banks| && banks[i].Bank? && banks[k].Bank?
    requires InBank(banks[i], x) && exists s :: 0 <= s < |banks[k].start| && banks[k].start[s] == x
    ensures i == k
  {
    var s :| 0 <= s < |banks[k].start| && banks[k].start[s] == x;
    SectorsSameOrder(banks[k], 0, s);
    assert InBank(banks[k], x);
  }

  ghost function ChosenSectors(k: nat, choices: seq<Choice>): set<(nat, nat)>
    decreases |choices|
  {
    if choices == [] then {}
    else
      var mine := set s: nat | choices[0].Sectors? && choices[0].first <= s <= choices[0].last :: (k, s);
      mine + ChosenSectors(k + 1, choices[1..])
  }

  lemma {:induction false} IntervalSize(k: nat, lo: nat, hi: nat)
    requires lo <= hi + 1
    ensures |set s: nat | lo <= s <= hi :: (k, s)| == hi + 1 - lo
    decreases hi + 1 - lo
  {
    var all := set s: nat | lo <= s <= hi :: (k, s);
    if lo == hi + 1 {
      assert all == {};
    } else {
      IntervalSize(k, lo + 1, hi);
      var rest := set s: nat | lo + 1 <= s <= hi :: (k, s);
      assert all == rest + {(k, lo)};
    }
  }

  lemma {:induction false} ChosenAreLater(k: nat, choices: seq<Choice>)
    ensures forall q :: q in ChosenSectors(k, choices) <==>
      k <= q.0 < k + |choices| && choices[q.0 - k].Sectors? && choices[q.0 - k].first <= q.1 <= choices[q.0 - k].last
    decreases |choices|
  {
    if choices != [] {
      ChosenAreLater(k + 1, choices[1..]);
    }
  }

  /** `s_count` is the number of chosen sectors. */
  lemma {:induction false} CountIsExact(banks: seq<Bank>, k: nat, a: nat, z: nat)
    requires BanksOk(banks) && k <= |banks| && PlanFrom(banks, k, a, z).ok
    ensures PlanFrom(banks, k, a, z).count == |ChosenSectors(k, PlanFrom(banks, k, a, z).choices)|
    decreases |banks| - k
  {
    hide Decide;
    var p := PlanFrom(banks, k, a, z);
    if k == |banks| {
    } else if a > z {
      NothingsLength(|banks| - k);
      ChosenAreLater(k, p.choices);
      assert ChosenSectors(k, p.choices) == {};
    } else {
      DecideSound(banks[k], a, z);
      var c := Decide(banks[k], a, z).choice;
      var rest := PlanFrom(banks, k + 1, After(banks[k], a, c), z).choices;
      CountIsExact(banks, k + 1, After(banks[k], a, c), z);
      ChosenAreLater(k + 1, rest);
      assert p.choices[1..] == rest;
      var mine := set s: nat | c.Sectors? && c.first <= s <= c.last :: (k, s);
      if c.Sectors? {
        IntervalSize(k, c.first, c.last);
        assert mine == set s: nat | c.first <= s <= c.last :: (k, s);
      } else {
        assert mine == {};
      }
      assert mine !! ChosenSectors(k + 1, rest);
    }
  }

  // ----- completeness over adjacent ascending banks

  /** `[first, last]` starts in bank `lo` and ends in bank `hi`, and those banks follow each other. */
  predicate Adjacent(banks: seq<Bank>, lo: nat, hi: nat, first: nat, last: nat)
    requires BanksOk(banks)
  {
    && lo <= hi < |banks| && first <= last && Disjoint(banks)
    && (forall k :: lo <= k <= hi ==> banks[k].Bank?)
    && (forall k :: lo <= k < hi ==> banks[k + 1].start[0] == BankEnd(banks[k]) + 1)
    && InBank(banks[lo], first) && InBank(banks[hi], last)
  }

  /** Banks of the group are ordered by address. */
  lemma {:induction false} GroupOrdered(banks: seq<Bank>, lo: nat, hi: nat, first: nat, last: nat, j: nat, k: nat)
    requires BanksOk(banks) && Adjacent(banks, lo, hi, first, last) && lo <= j < k <= hi
    ensures BankEnd(banks[j]) < banks[k].start[0] <= BankEnd(banks[k])
    decreases k
  {
    assert BankOk(banks[k]) && BankOk(banks[k - 1]);
    SectorsSameOrder(banks[k], 0, |banks[k].start| - 1);
    if j + 1 < k {
      GroupOrdered(banks, lo, hi, first, last, j, k - 1);
    }
  }

  /** Every other bank is clear of the range. */
  lemma {:induction false} OutsideClear(banks: seq<Bank>, lo: nat, hi: nat, first: nat, last: nat, k: nat, m: nat)
    requires BanksOk(banks) && Adjacent(banks, lo, hi, first, last)
    requires k < |banks| && banks[k].Bank? && !(lo <= k <= hi) && lo <= m <= hi
    ensures BankEnd(banks[k]) < banks[lo].start[0] || banks[k].start[0] > BankEnd(banks[m])
    decreases m
  {
    assert BankOk(banks[k]) && BankOk(banks[m]);
    SectorsSameOrder(banks[k], 0, |banks[k].start| - 1);
    if m > lo {
      OutsideClear(banks, lo, hi, first, last, k, m - 1);
    }
  }

  lemma SectorInBank(b: Bank, i: nat)
    requires BankOk(b) && i < |b.start|
    ensures InBank(b, b.start[i]) && InBank(b, SectorEnd(b, i))
  {
    SectorsSameOrder(b, 0, i);
  }

  lemma SectorsInBank(b: Bank)
    requires BankOk(b)
    ensures forall i :: 0 <= i < |b.start| ==> InBank(b, SectorEnd(b, i))
  {
    forall i | 0 <= i < |b.start| ensures InBank(b, SectorEnd(b, i)) {
      SectorInBank(b, i);
    }
  }

  /** A bank that neither end of the range touches decides nothing. */
  lemma ClearDecides(b: Bank, a: nat, z: nat)
    requires BankOk(b) && !InBank(b, a) && !InBank(b, z)
    ensures Decide(b, a, z) == Chosen(Nothing)
  {
    if StartingAt(b, a) < |b.start| { SectorInBank(b, StartingAt(b, a)); }
    if EndingAt(b, z) < |b.start| { SectorInBank(b, EndingAt(b, z)); }
  }

  /** From a sector start in bank `k` of the group: the plan succeeds exactly when `last` ends a sector. */
  lemma {:induction false} GroupPlan(banks: seq<Bank>, lo: nat, hi: nat, first: nat, last: nat, k: nat, a: nat)
    requires BanksOk(banks) && Adjacent(banks, lo, hi, first, last) && lo <= k <= hi
    requires a <= last && StartingAt(banks[k], a) < |banks[k].start|
    ensures var p := LinearFrom(banks, k, a, last);
      && (p.ok <==> EndingAt(banks[hi], last) < |banks[hi].start|)
      && (p.ok ==> p.next == last + 1)
    decreases hi - k
  {
    hide StartingAt, EndingAt, Disjoint;
    var b := banks[k];
    var sf, sl := StartingAt(b, a), EndingAt(b, last);
    if k == hi {
      if sl < |b.start| {
        SectorsSameOrder(b, sf, sl);
        assert Decide(b, a, last) == Chosen(Sectors(sf, sl));
      }
    } else {
      GroupOrdered(banks, lo, hi, first, last, k, hi);
      SectorsInBank(b);
      assert Decide(b, a, last) == Chosen(Sectors(sf, |b.start| - 1));
      var next := banks[k + 1].start[0];
      assert Follow(b, a, Sectors(sf, |b.start| - 1)) == next;
      assert StartingAt(banks[k + 1], next) < |banks[k + 1].start|;
      if k + 1 < hi { GroupOrdered(banks, lo, hi, first, last, k + 1, hi); }
      GroupPlan(banks, lo, hi, first, last, k + 1, next);
    }
  }

  /** Before the group nothing is decided. */
  lemma {:induction false} SkipToGroup(banks: seq<Bank>, lo: nat, hi: nat, first: nat, last: nat, k: nat)
    requires BanksOk(banks) && Adjacent(banks, lo, hi, first, last) && k <= lo
    ensures var p, q := LinearFrom(banks, k, first, last), LinearFrom(banks, lo, first, last);
      p.ok == q.ok && p.next == q.next && p.count == q.count
    decreases lo - k
  {
    hide Adjacent, Decide, BankOk, SectorEnd;
    GroupInList(banks, lo, hi, first, last);
    if k < lo {
      SkipToGroup(banks, lo, hi, first, last, k + 1);
      if banks[k].Bank? {
        ClearBefore(banks, lo, hi, first, last, k);
        ClearDecides(banks[k], first, last);
      } else {
        UnknownDecides(banks[k], first, last);
      }
    }
  }

  lemma GroupInList(banks: seq<Bank>, lo: nat, hi: nat, first: nat, last: nat)
    requires BanksOk(banks) && Adjacent(banks, lo, hi, first, last)
    ensures lo <= hi < |banks| && first <= last
  {
  }

  lemma ClearBefore(banks: seq<Bank>, lo: nat, hi: nat, first: nat, last: nat, k: nat)
    requires BanksOk(banks) && Adjacent(banks, lo, hi, first, last) && k < lo < |banks| && banks[k].Bank?
    ensures !InBank(banks[k], first) && !InBank(banks[k], last)
  {
    hide Disjoint;
    OutsideClear(banks, lo, hi, first, last, k, hi);
    if lo < hi { GroupOrdered(banks, lo, hi, first, last, lo, hi); }
  }

  /** Where no sector starts at `a`, nothing is ever chosen. */
  lemma {:induction false} NoStartNoSectors(banks: seq<Bank>, k: nat, a: nat, z: nat)
    requires BanksOk(banks) && k <= |banks|
    requires forall i :: k <= i < |banks| && banks[i].Bank? ==> StartingAt(banks[i], a) == |banks[i].start|
    ensures LinearFrom(banks, k, a, z).ok ==> LinearFrom(banks, k, a, z).count == 0
    decreases |banks| - k
  {
    hide StartingAt, EndingAt;
    if k < |banks| && a <= z && Decide(banks[k], a, z).Chosen? {
      assert Decide(banks[k], a, z).choice == Nothing;
      NoStartNoSectors(banks, k + 1, a, z);
    }
  }

  /** In unbounded addresses: over adjacent ascending banks a non-empty plan is made if and only if both ends of the
      range are sector boundaries, and then it covers the whole range. */
  lemma LinearIsExact(banks: seq<Bank>, lo: nat, hi: nat, first: nat, last: nat)
    requires BanksOk(banks) && Adjacent(banks, lo, hi, first, last)
    ensures var p := LinearFrom(banks, 0, first, last);
      var starts := exists i :: 0 <= i < |banks[lo].start| && banks[lo].start[i] == first;
      var ends := exists i :: 0 <= i < |banks[hi].start| && SectorEnd(banks[hi], i) == last;
      && (p.ok && p.count > 0 <==> starts && ends)
      && (p.ok && p.count > 0 ==> p.next == last + 1)
  {
    hide Disjoint, Decide;
    var sf := StartingAt(banks[lo], first);
    SkipToGroup(banks, lo, hi, first, last, 0);
    if sf < |banks[lo].start| {
      assert banks[lo].start[sf] == first;
      GroupPlan(banks, lo, hi, first, last, lo, first);
      var sl := EndingAt(banks[hi], last);
      assert sl < |banks[hi].start| ==> SectorEnd(banks[hi], sl) == last;
      if LinearFrom(banks, 0, first, last).ok {
        LinearTiles(banks, 0, first, last);
      }
    } else {
      forall i | lo <= i < |banks| && banks[i].Bank?
        ensures StartingAt(banks[i], first) == |banks[i].start|
      {
        var n := StartingAt(banks[i], first);
        if n < |banks[i].start| && i != lo {
          SectorInBank(banks[i], n);
          BothContain(banks, lo, i, first);
        }
      }
      NoStartNoSectors(banks, lo, first, last);
    }
  }

  lemma BothContain(banks: seq<Bank>, i: nat, k: nat, x: nat)
    requires BanksOk(banks) && Disjoint(banks) && i < |banks| && k < |banks| && banks[i].Bank? && banks[k].Bank?
    requires InBank(banks[i], x) && InBank(banks[k], x)
    ensures i == k
  {
  }

  // ----- 32-bit addresses

  /** A bank that ends at the top of the address space, and after it one that starts at the bottom. */
  ghost predicate TopThenBottom(banks: seq<Bank>, k: nat)
    requires BanksOk(banks)
  {
    exists i, j :: k <= i < j < |banks| && IsTop(banks[i]) && IsBottom(banks[j])
  }

  predicate IsTop(b: Bank)
    requires b.Bank? ==> BankOk(b)
  {
    b.Bank? && BankEnd(b) == WRAP - 1
  }

  predicate IsBottom(b: Bank)
    requires b.Bank? ==> BankOk(b)
  {
    b.Bank? && b.start[0] == 0
  }

  /** What a caller can check: the range stops short of the top, or no bank at the bottom follows the top one. */
  ghost predicate Straight(banks: seq<Bank>, k: nat, z: nat)
    requires BanksOk(banks)
  {
    z < WRAP - 1 || !TopThenBottom(banks, k)
  }

  lemma WrapsAtTop(b: Bank, a: nat, z: nat)
    requires (b.Bank? ==> BankOk(b)) && a <= z < WRAP && Decide(b, a, z).Chosen?
    ensures var c := Decide(b, a, z).choice;
      && (c.Sectors? ==> b.Bank? && c.first <= c.last < |b.start|)
      && 0 <= After(b, a, c) < WRAP
      && (Follow(b, a, c) < WRAP ==> After(b, a, c) == Follow(b, a, c))
      && (Follow(b, a, c) >= WRAP ==> After(b, a, c) == 0 && z == WRAP - 1 && IsTop(b))
  {
    DecideSound(b, a, z);
  }

  /** With the address wrapped to 0, a bank that does not start there is passed over or refuses. */
  lemma AtBottom(b: Bank)
    requires (b.Bank? ==> BankOk(b)) && !IsBottom(b)
    ensures Decide(b, 0, WRAP - 1) == (if IsTop(b) then Failed else Chosen(Nothing))
  {
    if b.Bank? {
      if StartingAt(b, 0) < |b.start| {
        SectorInBank(b, StartingAt(b, 0));
      }
      if IsTop(b) {
        UniqueEnd(b, WRAP - 1, |b.start| - 1);
      } else if EndingAt(b, WRAP - 1) < |b.start| {
        SectorInBank(b, EndingAt(b, WRAP - 1));
      }
    }
  }

  lemma {:induction false} NothingAfterTop(banks: seq<Bank>, k: nat)
    requires BanksOk(banks) && k <= |banks| && forall j :: k <= j < |banks| ==> !IsBottom(banks[j])
    requires PlanFrom(banks, k, 0, WRAP - 1).ok
    ensures PlanFrom(banks, k, 0, WRAP - 1) == Plan(true, 0, Nothings(|banks| - k), 0)
    decreases |banks| - k
  {
    hide Decide, IsBottom, BankOk;
    if k < |banks| {
      AtBottom(banks[k]);
      NothingAfterTop(banks, k + 1);
    }
  }

  /** On a straight range the 32-bit plan is the unbounded one. */
  lemma {:induction false} PlanIsLinear(banks: seq<Bank>, k: nat, a: nat, z: nat)
    requires BanksOk(banks) && k <= |banks| && a < WRAP && z < WRAP && Straight(banks, k, z)
    requires PlanFrom(banks, k, a, z).ok
    ensures var p, q := PlanFrom(banks, k, a, z), LinearFrom(banks, k, a, z);
      q.ok && p.choices == q.choices && p.count == q.count && p.next == q.next % WRAP
    decreases |banks| - k
  {
    hide Decide, IsTop, IsBottom, BankOk, SectorEnd, BankEnd;
    if k < |banks| && a <= z {
      var c := Decide(banks[k], a, z).choice;
      WrapsAtTop(banks[k], a, z);
      if Follow(banks[k], a, c) < WRAP {
        PlanIsLinear(banks, k + 1, After(banks[k], a, c), z);
      } else {
        NothingAfterTop(banks, k + 1);
      }
    }
  }

  /** Behind the top bank, and at the end of another one, no later bank can refuse. */
  lemma {:induction false} OkAfterTop(banks: seq<Bank>, top: nat, k: nat, a: nat)
    requires BanksOk(banks) && Disjoint(banks) && top < k <= |banks| && IsTop(banks[top])
    requires a == 0 || exists m :: 0 <= m < k && banks[m].Bank? && BankEnd(banks[m]) + 1 == a
    ensures PlanFrom(banks, k, a, WRAP - 1).ok
    decreases |banks| - k
  {
    hide Disjoint, Decide, BankOk, SectorEnd;
    if k < |banks| && a <= WRAP - 1 {
      if banks[k].Bank? {
        NotTop(banks, top, k);
        NotInside(banks, k, a);
        BetweenBanks(banks[k], a);
      } else {
        UnknownDecides(banks[k], a, WRAP - 1);
      }
      OkAfterTop(banks, top, k + 1, After(banks[k], a, Decide(banks[k], a, WRAP - 1).choice));
    }
  }

  lemma NotTop(banks: seq<Bank>, top: nat, k: nat)
    requires BanksOk(banks) && Disjoint(banks) && top < k < |banks| && IsTop(banks[top]) && banks[k].Bank?
    ensures BankEnd(banks[k]) < WRAP - 1
  {
    assert BankOk(banks[top]) && BankOk(banks[k]);
  }

  lemma NotInside(banks: seq<Bank>, k: nat, a: nat)
    requires BanksOk(banks) && Disjoint(banks) && k < |banks| && banks[k].Bank?
    requires a == 0 || exists m :: 0 <= m < k && banks[m].Bank? && BankEnd(banks[m]) + 1 == a
    ensures a == banks[k].start[0] || !InBank(banks[k], a)
  {
    if a > 0 && InBank(banks[k], a) {
      var m :| 0 <= m < k && banks[m].Bank? && BankEnd(banks[m]) + 1 == a;
      assert BankOk(banks[m]) && BankOk(banks[k]);
      SectorsSameOrder(banks[m], 0, |banks[m].start| - 1);
    }
  }

  /** At a bank's first byte or outside it, with the range going past it. */
  lemma BetweenBanks(b: Bank, a: nat)
    requires BankOk(b) && BankEnd(b) < WRAP - 1 && (a == b.start[0] || !InBank(b, a))
    ensures Decide(b, a, WRAP - 1) == Chosen(if a == b.start[0] then Sectors(0, |b.start| - 1) else Nothing)
    ensures After(b, a, Decide(b, a, WRAP - 1).choice) == if a == b.start[0] then BankEnd(b) + 1 else a
  {
    if EndingAt(b, WRAP - 1) < |b.start| {
      SectorInBank(b, EndingAt(b, WRAP - 1));
    }
    if a == b.start[0] {
      UniqueStart(b, a, 0);
    } else if StartingAt(b, a) < |b.start| {
      SectorInBank(b, StartingAt(b, a));
    }
  }

  /** Over disjoint banks wrapping never decides whether a plan is made, or a non-empty one. */
  lemma {:induction false} OkIsLinear(banks: seq<Bank>, k: nat, a: nat, z: nat)
    requires BanksOk(banks) && Disjoint(banks) && k <= |banks| && a < WRAP && z < WRAP
    ensures var p, q := PlanFrom(banks, k, a, z), LinearFrom(banks, k, a, z);
      p.ok == q.ok && (p.ok ==> (p.count > 0 <==> q.count > 0))
    decreases |banks| - k
  {
    hide Disjoint, Decide, IsTop, BankOk, SectorEnd, BankEnd;
    if k < |banks| && a <= z && Decide(banks[k], a, z).Chosen? {
      var c := Decide(banks[k], a, z).choice;
      WrapsAtTop(banks[k], a, z);
      DecideSound(banks[k], a, z);
      if Follow(banks[k], a, c) < WRAP {
        OkIsLinear(banks, k + 1, After(banks[k], a, c), z);
      } else {
        OkAfterTop(banks, k, k + 1, 0);
      }
    }
  }

  /** The end of the covered segment, counted without wrapping. */
  function Reach(banks: seq<Bank>, a: nat, z: nat): nat
    requires BanksOk(banks)
  {
    LinearFrom(banks, 0, a, z).next
  }

  /** Safety: on a straight range a successful plan covers exactly an initial segment of the range, without gaps,
      and no byte outside it. */
  lemma PlanTiles(banks: seq<Bank>, a: nat, z: nat)
    requires BanksOk(banks) && a <= z < WRAP && Straight(banks, 0, z) && PlanFrom(banks, 0, a, z).ok
    ensures var p := PlanFrom(banks, 0, a, z);
      && a <= Reach(banks, a, z) <= z + 1 && p.next == Reach(banks, a, z) % WRAP
      && (forall x: nat :: Selected(banks, 0, p.choices, x) <==> a <= x < Reach(banks, a, z))
      && (p.count == 0 <==> Reach(banks, a, z) == a)
  {
    hide LinearFrom, PlanFrom, Selected, BankOk, Straight;
    PlanIsLinear(banks, 0, a, z);
    LinearTiles(banks, 0, a, z);
  }

  ghost predicate CoversUpTo(banks: seq<Bank>, choices: seq<Choice>, a: nat, next: nat)
    requires BanksOk(banks) && |choices| <= |banks|
  {
    forall x: nat :: Selected(banks, 0, choices, x) <==> a <= x < next
  }

  /** With the address wrapped to 0, a bank at the bottom is chosen. */
  lemma {:induction false} BottomChosen(banks: seq<Bank>, k: nat, j: nat)
    requires BanksOk(banks) && k <= j < |banks| && IsBottom(banks[j]) && PlanFrom(banks, k, 0, WRAP - 1).ok
    ensures Selected(banks, k, PlanFrom(banks, k, 0, WRAP - 1).choices, 0)
    decreases j - k
  {
    hide Decide, BankOk, Covers, Selected;
    var p, b := PlanFrom(banks, k, 0, WRAP - 1), banks[k];
    var c := Decide(b, 0, WRAP - 1).choice;
    SelectedSplit(banks, k, c, p.choices[1..]);
    assert p.choices == [c] + p.choices[1..];
    if IsBottom(b) {
      BottomDecides(b);
    } else {
      AtBottom(b);
      BottomChosen(banks, k + 1, j);
    }
  }

  lemma BottomDecides(b: Bank)
    requires (b.Bank? ==> BankOk(b)) && IsBottom(b) && Decide(b, 0, WRAP - 1).Chosen?
    ensures Covers(b, Decide(b, 0, WRAP - 1).choice, 0)
  {
    UniqueStart(b, 0, 0);
    DecideSound(b, 0, WRAP - 1);
  }

  /** A plan that runs into the top bank goes on at the bottom. */
  lemma {:induction false} PlanWraps(banks: seq<Bank>, k: nat, a: nat, i: nat, j: nat)
    requires BanksOk(banks) && Disjoint(banks) && k <= i < j < |banks| && IsTop(banks[i]) && IsBottom(banks[j])
    requires a < WRAP && PlanFrom(banks, k, a, WRAP - 1).ok
    ensures a > 0 && Selected(banks, k, PlanFrom(banks, k, a, WRAP - 1).choices, 0)
    decreases i - k
  {
    hide Decide, BankOk, Covers, Selected, Disjoint, SectorEnd;
    var p, b, z := PlanFrom(banks, k, a, WRAP - 1), banks[k], WRAP - 1;
    var c := Decide(b, a, z).choice;
    SelectedSplit(banks, k, c, p.choices[1..]);
    assert p.choices == [c] + p.choices[1..];
    WrapsAtTop(b, a, z);
    if k == i {
      TopDecides(b, a);
      NotBoth(banks, i, j);
      BottomChosen(banks, k + 1, j);
    } else {
      PlanWraps(banks, k + 1, After(b, a, c), i, j);
      NotBoth(banks, i, j);
      NotBefore(banks, k, i, j);
      if a == 0 {
        AtBottom(b);
      }
    }
  }

  /** At the top bank a plan that goes on must choose, and wraps. */
  lemma TopDecides(b: Bank, a: nat)
    requires (b.Bank? ==> BankOk(b)) && IsTop(b) && a < WRAP && Decide(b, a, WRAP - 1).Chosen?
    ensures var c := Decide(b, a, WRAP - 1).choice;
      c.Sectors? && After(b, a, c) == 0 && (!IsBottom(b) ==> a > 0)
  {
    UniqueEnd(b, WRAP - 1, |b.start| - 1);
    DecideSound(b, a, WRAP - 1);
    if a == 0 && !IsBottom(b) {
      AtBottom(b);
    }
  }

  lemma NotBoth(banks: seq<Bank>, i: nat, j: nat)
    requires BanksOk(banks) && Disjoint(banks) && i < j < |banks| && IsTop(banks[i]) && IsBottom(banks[j])
    ensures !IsBottom(banks[i])
  {
    assert BankOk(banks[i]) && BankOk(banks[j]);
    SectorsSameOrder(banks[j], 0, |banks[j].start| - 1);
  }

  lemma NotBefore(banks: seq<Bank>, k: nat, i: nat, j: nat)
    requires BanksOk(banks) && Disjoint(banks) && k < i < j < |banks| && IsTop(banks[i]) && IsBottom(banks[j])
    ensures !IsTop(banks[k]) && !IsBottom(banks[k])
  {
    if banks[k].Bank? {
      assert BankOk(banks[i]) && BankOk(banks[j]) && BankOk(banks[k]);
      SectorsSameOrder(banks[j], 0, |banks[j].start| - 1);
      SectorsSameOrder(banks[i], 0, |banks[i].start| - 1);
    }
  }

  /** Exactly when a plan stays inside its range: over disjoint banks it covers an initial segment and nothing else
      if and only if the range is straight. Otherwise it also selects the first byte of the address space. */
  lemma TilesIff(banks: seq<Bank>, a: nat, z: nat)
    requires BanksOk(banks) && Disjoint(banks) && a <= z < WRAP && PlanFrom(banks, 0, a, z).ok
    ensures var p := PlanFrom(banks, 0, a, z);
      && (Straight(banks, 0, z) <==> exists next: nat :: a <= next <= z + 1 && CoversUpTo(banks, p.choices, a, next))
      && (!Straight(banks, 0, z) ==> a > 0 && Selected(banks, 0, p.choices, 0))
  {
    hide PlanFrom, Selected, Disjoint, BankOk, IsTop, IsBottom;
    var p := PlanFrom(banks, 0, a, z);
    if Straight(banks, 0, z) {
      PlanTiles(banks, a, z);
      assert CoversUpTo(banks, p.choices, a, Reach(banks, a, z));
    } else {
      var i, j :| 0 <= i < j < |banks| && IsTop(banks[i]) && IsBottom(banks[j]);
      PlanWraps(banks, 0, a, i, j);
    }
  }

  /** An input that shows it: erasing the bank at the top also plans the bank at the bottom. */
  lemma WrapSelectsBottom()
    ensures var banks := [Bank([0xFFFF_0000], 0x1_0000), Bank([0], 0x1000)];
      && BanksOk(banks) && Disjoint(banks)
      && PlanFrom(banks, 0, 0xFFFF_0000, 0xFFFF_FFFF) == Plan(true, 0x1000, [Sectors(0, 0), Sectors(0, 0)], 2)
  {
    var top, bottom := Bank([0xFFFF_0000], 0x1_0000), Bank([0], 0x1000);
    var banks := [top, bottom];
    UniqueStart(top, 0xFFFF_0000, 0);
    UniqueEnd(top, 0xFFFF_FFFF, 0);
    UniqueStart(bottom, 0, 0);
    assert Decide(bottom, 0, 0xFFFF_FFFF) == Chosen(Sectors(0, 0)) && After(bottom, 0, Sectors(0, 0)) == 0x1000;
    assert Decide(top, 0xFFFF_0000, 0xFFFF_FFFF) == Chosen(Sectors(0, 0));
    assert After(top, 0xFFFF_0000, Sectors(0, 0)) == 0;
    hide Decide, After, SectorEnd, StartingAt, EndingAt;
    assert PlanFrom(banks, 2, 0x1000, 0xFFFF_FFFF) == Plan(true, 0x1000, [], 0);
    assert PlanFrom(banks, 1, 0, 0xFFFF_FFFF) == Plan(true, 0x1000, [Sectors(0, 0)], 1);
  }

  // ----- the theorems on the code's plan

  /** A sector is chosen exactly when it lies inside the covered segment. */
  lemma ChosenIff(banks: seq<Bank>, a: nat, z: nat, k: nat, s: nat)
    requires BanksOk(banks) && Disjoint(banks) && a <= z < WRAP && Straight(banks, 0, z)
    requires k < |banks| && PlanFrom(banks, 0, a, z).ok
    ensures var p := PlanFrom(banks, 0, a, z);
      SectorIn(banks[k], s, a, Reach(banks, a, z)) <==>
      banks[k].Bank? && s < |banks[k].start| && p.choices[k].Sectors? && p.choices[k].first <= s <= p.choices[k].last
      && p.choices[k].last < |banks[k].start|
  {
    hide Disjoint, PlanFrom, Selected, Straight, Reach;
    var p, b := PlanFrom(banks, 0, a, z), banks[k];
    PlanTiles(banks, a, z);
    if b.Bank? && s < |b.start| {
      if SectorIn(b, s, a, Reach(banks, a, z)) {
        InsideIsChosen(banks, p.choices, k, s);
      }
      var c := p.choices[k];
      if c.Sectors? && c.first <= s <= c.last && c.last < |b.start| {
        ChosenIsCovered(banks, p.choices, k, s);
      }
    }
  }

  /** Exactness: over adjacent ascending banks a non-empty plan is made if and only if both ends of the range are
      sector boundaries; on a straight range it then covers the whole range. */
  lemma PlanIsExact(banks: seq<Bank>, lo: nat, hi: nat, first: nat, last: nat)
    requires BanksOk(banks) && Adjacent(banks, lo, hi, first, last)
    ensures var p := PlanFrom(banks, 0, first, last);
      var starts := exists i :: 0 <= i < |banks[lo].start| && banks[lo].start[i] == first;
      var ends := exists i :: 0 <= i < |banks[hi].start| && SectorEnd(banks[hi], i) == last;
      && (p.ok && p.count > 0 <==> starts && ends)
      && (p.ok && p.count > 0 ==> Reach(banks, first, last) == last + 1)
      && (p.ok && p.count > 0 && Straight(banks, 0, last) ==> CoversUpTo(banks, p.choices, first, last + 1))
  {
    hide PlanFrom, Selected, Straight, SectorEnd;
    assert BankOk(banks[hi]);
    LinearIsExact(banks, lo, hi, first, last);
    OkIsLinear(banks, 0, first, last);
    if PlanFrom(banks, 0, first, last).ok && Straight(banks, 0, last) {
      PlanTiles(banks, first, last);
    }
  }

  // ----- the loops

  /** The sector loop over one bank. */
  method ScanBank(b: Bank, a: nat, z: nat) returns (sFirst: int, sLast: int)
    requires BankOk(b) && a <= z
    ensures sFirst == if StartingAt(b, a) < |b.start| then StartingAt(b, a) else -1
    ensures sLast == if EndingAt(b, z) < |b.start| then EndingAt(b, z) else -1
  {
    hide StartingAt, EndingAt;
    var bEnd := (b.start[0] + b.size - 1) % WRAP;
    sFirst, sLast := -1, -1;
    for sect := 0 to |b.start|
      invariant -1 <= sFirst < sect && -1 <= sLast < sect
      invariant if sFirst >= 0 then b.start[sFirst] == a else forall i :: 0 <= i < sect ==> b.start[i] != a
      invariant if sLast >= 0 then SectorEnd(b, sLast) == z else forall i :: 0 <= i < sect ==> SectorEnd(b, i) != z
    {
      var end := if sect == |b.start| - 1 then bEnd else b.start[sect + 1] - 1;
      SectorInBank(b, sect);
      assert end == SectorEnd(b, sect);
      if a > end || z < b.start[sect] {
        continue;
      }
      if a == b.start[sect] {
        sFirst := sect;
      }
      if z == end {
        sLast := sect;
      }
    }
    if sFirst >= 0 {
      UniqueStart(b, a, sFirst);
    }
    if sLast >= 0 {
      UniqueEnd(b, z, sLast);
    }
  }

  predicate Recorded(c: Choice, sFirst: int, sLast: int) {
    match c
    case Nothing => sFirst == -1
    case Sectors(f, l) => sFirst == f && sLast == l
  }

  /** `flash_fill_sect_ranges`. */
  method FillSectRanges(banks: seq<Bank>, addrFirst: nat, addrLast: nat, sFirst: array<int>, sLast: array<int>)
    returns (rcode: int, sCount: int)
    requires BanksOk(banks) && sFirst != sLast && sFirst.Length == sLast.Length == |banks|
    modifies sFirst, sLast
    ensures var p := PlanFrom(banks, 0, addrFirst, addrLast);
      && rcode == (if p.ok then 0 else 1)
      && (p.ok ==> sCount == p.count && forall k :: 0 <= k < |banks| ==> Recorded(p.choices[k], sFirst[k], sLast[k]))
  {
    hide Decide, Recorded, BankOk, After, Size, PlanFrom, Continued;
    ClearArrays(sFirst, sLast);
    sCount := 0;
    ghost var whole := PlanFrom(banks, 0, addrFirst, addrLast);
    ghost var done: seq<Choice> := [];
    ContinuedStart(whole);
    var a: nat, bank: nat := addrFirst, 0;
    while bank < |banks| && a <= addrLast
      invariant bank <= |banks| && |done| == bank && sCount >= 0
      invariant Continued(whole, done, sCount, PlanFrom(banks, bank, a, addrLast))
      invariant forall i :: 0 <= i < bank ==> Recorded(done[i], sFirst[i], sLast[i])
      invariant forall i :: bank <= i < |banks| ==> sFirst[i] == -1 && sLast[i] == -1
      decreases |banks| - bank
    {
      var ok, next, n := OneBank(banks[bank], a, addrLast, bank, sFirst, sLast);
      ghost var c := Decide(banks[bank], a, addrLast);
      ContinuedStep(whole, done, sCount, banks, bank, a, addrLast);
      if !ok {
        return 1, sCount;
      }
      a, sCount, done, bank := next, sCount + n, done + [c.choice], bank + 1;
    }
    ContinuedEnd(whole, done, sCount, banks, bank, a, addrLast);
    rcode := 0;
  }

  method ClearArrays(sFirst: array<int>, sLast: array<int>)
    requires sFirst != sLast && sFirst.Length == sLast.Length
    modifies sFirst, sLast
    ensures forall i :: 0 <= i < sFirst.Length ==> sFirst[i] == -1 && sLast[i] == -1
  {
    for k := 0 to sFirst.Length
      invariant forall i :: 0 <= i < k ==> sFirst[i] == -1 && sLast[i] == -1
    {
      sFirst[k], sLast[k] := -1, -1;
    }
  }

  lemma ContinuedStart(whole: Plan)
    ensures Continued(whole, [], 0, whole)
  {
    assert [] + whole.choices == whole.choices;
  }

  lemma ContinuedEnd(whole: Plan, done: seq<Choice>, count: int, banks: seq<Bank>, k: nat, a: nat, z: nat)
    requires BanksOk(banks) && k <= |banks| && (k == |banks| || a > z) && |done| == k
    requires Continued(whole, done, count, PlanFrom(banks, k, a, z))
    ensures whole.ok && whole.count == count && |whole.choices| == |banks|
    ensures forall i :: 0 <= i < |banks| ==> whole.choices[i] == if i < k then done[i] else Nothing
    ensures Recorded(Nothing, -1, -1)
  {
    NothingsLength(|banks| - k);
  }

  lemma ContinuedStep(whole: Plan, done: seq<Choice>, count: int, banks: seq<Bank>, k: nat, a: nat, z: nat)
    requires BanksOk(banks) && k < |banks| && a <= z
    requires Continued(whole, done, count, PlanFrom(banks, k, a, z))
    ensures match Decide(banks[k], a, z)
      case Failed => !whole.ok
      case Chosen(c) =>
        && (c.Sectors? ==> banks[k].Bank? && c.first <= c.last < |banks[k].start|)
        && Continued(whole, done + [c], count + Size(c), PlanFrom(banks, k + 1, After(banks[k], a, c), z))
  {
    hide Decide, SectorEnd;
    if Decide(banks[k], a, z).Chosen? {
      DecideSound(banks[k], a, z);
      var c := Decide(banks[k], a, z).choice;
      var rest := PlanFrom(banks, k + 1, After(banks[k], a, c), z).choices;
      assert done + ([c] + rest) == done + [c] + rest;
    }
  }

  /** One turn of the bank loop. */
  method OneBank(b: Bank, a: nat, z: nat, bank: nat, sFirst: array<int>, sLast: array<int>)
    returns (ok: bool, next: nat, n: nat)
    requires (b.Bank? ==> BankOk(b)) && a <= z && sFirst != sLast && bank < sFirst.Length && bank < sLast.Length
    requires sFirst[bank] == -1
    modifies sFirst, sLast
    ensures forall i :: 0 <= i < sFirst.Length && i != bank ==> sFirst[i] == old(sFirst[i])
    ensures forall i :: 0 <= i < sLast.Length && i != bank ==> sLast[i] == old(sLast[i])
    ensures ok <==> Decide(b, a, z).Chosen?
    ensures ok ==> var c := Decide(b, a, z).choice;
      next == After(b, a, c) && n == Size(c) && Recorded(c, sFirst[bank], sLast[bank])
  {
    hide Decide, StartingAt, EndingAt, BankOk;
    if b.Unknown? {
      UnknownDecides(b, a, z);
      return true, a, 0;
    }
    sFirst[bank], sLast[bank] := ScanBank(b, a, z);
    ok, next, n := Conclude(b, a, z, bank, sFirst, sLast);
  }

  ghost predicate Continued(whole: Plan, done: seq<Choice>, count: int, rest: Plan) {
    whole.ok == rest.ok && (rest.ok ==> whole.choices == done + rest.choices && whole.count == count + rest.count)
  }

  lemma UnknownDecides(b: Bank, a: nat, z: nat)
    requires b.Unknown?
    ensures Decide(b, a, z) == Chosen(Nothing)
  {
  }

  /** The tests after the sector loop of one bank. */
  method Conclude(b: Bank, a: nat, z: nat, bank: nat, sFirst: array<int>, sLast: array<int>)
    returns (ok: bool, next: nat, n: nat)
    requires BankOk(b) && a <= z && sFirst != sLast && bank < sFirst.Length && bank < sLast.Length
    requires sFirst[bank] == if StartingAt(b, a) < |b.start| then StartingAt(b, a) else -1
    requires sLast[bank] == if EndingAt(b, z) < |b.start| then EndingAt(b, z) else -1
    modifies sLast
    ensures forall i :: 0 <= i < sLast.Length && i != bank ==> sLast[i] == old(sLast[i])
    ensures ok <==> Decide(b, a, z).Chosen?
    ensures ok ==> var c := Decide(b, a, z).choice;
      next == After(b, a, c) && n == Size(c) && Recorded(c, sFirst[bank], sLast[bank])
  {
    hide StartingAt, EndingAt, After, SectorEnd;
    DecideShape(b, a, z);
    NextSector(b, a);
    var bEnd, sEnd := (b.start[0] + b.size - 1) % WRAP, |b.start| - 1;
    if sFirst[bank] >= 0 {
      if sLast[bank] < 0 {
        if z > bEnd {
          sLast[bank] := sEnd;
        } else {
          return false, a, 0;
        }
      }
      if sLast[bank] < sFirst[bank] {
        return false, a, 0;
      }
      var sect := sLast[bank];
      next := if sect == sEnd then (bEnd + 1) % WRAP else b.start[sect + 1];
      return true, next, sLast[bank] - sFirst[bank] + 1;
    } else if a >= b.start[0] && a < bEnd {
      return false, a, 0;
    } else if sLast[bank] >= 0 {
      return false, a, 0;
    }
    return true, a, 0;
  }

  /** The address after a sector, as the code computes it. */
  lemma NextSector(b: Bank, a: nat)
    requires BankOk(b)
    ensures (b.start[0] + b.size - 1) % WRAP == BankEnd(b)
    ensures forall f, sect :: 0 <= f && 0 <= sect < |b.start| ==>
      After(b, a, Sectors(f, sect)) == if sect == |b.start| - 1 then (BankEnd(b) + 1) % WRAP else b.start[sect + 1]
    ensures After(b, a, Nothing) == a
  {
  }

  lemma DecideShape(b: Bank, a: nat, z: nat)
    requires BankOk(b) && a <= z
    ensures Decide(b, a, z).Chosen? && Decide(b, a, z).choice.Sectors? ==>
      Decide(b, a, z).choice.first <= Decide(b, a, z).choice.last < |b.start|
  {
  }

  /** The bank's driver fails while its sectors are due. */
  predicate Fails(p: Plan, works: seq<bool>, k: nat)
    requires k < |p.choices| && k < |works|
  {
    p.choices[k].Sectors? && !works[k]
  }

  /** `flash_sect_erase`: `works[k]` says whether the driver can erase in bank `k`. The result lists what was
      handed to the drivers, bank by bank: the plan, up to the first bank that fails. By `TilesIff` these are
      exactly the sectors of a gap-free initial segment of the range, if the range is straight. */
  method FlashSectErase(banks: seq<Bank>, addrFirst: nat, addrLast: nat, works: seq<bool>)
    returns (rcode: int, erased: seq<Choice>)
    requires BanksOk(banks) && |works| == |banks|
    ensures var p := PlanFrom(banks, 0, addrFirst, addrLast);
      && (rcode == 0 <==> p.ok && p.count > 0 && forall k :: 0 <= k < |banks| ==> !Fails(p, works, k))
      && (rcode == 0 ==> erased == p.choices)
      && (!(p.ok && p.count > 0) ==> erased == [])
      && (rcode != 0 && p.ok && p.count > 0 ==>
            && 0 < |erased| <= |banks| && erased == p.choices[..|erased|] && Fails(p, works, |erased| - 1)
            && forall k :: 0 <= k < |erased| - 1 ==> !Fails(p, works, k))
  {
    hide PlanFrom, BankOk;
    var sFirst, sLast := new int[|banks|], new int[|banks|];
    var planned;
    rcode, planned := FillSectRanges(banks, addrFirst, addrLast, sFirst, sLast);
    erased := [];
    ghost var p := PlanFrom(banks, 0, addrFirst, addrLast);
    if rcode != 0 || planned == 0 {
      return 1, [];
    }
    var bank := 0;
    while bank < |banks| && rcode == 0
      invariant bank <= |banks| && |erased| == bank && (rcode == 0 || rcode == 1)
      invariant erased == p.choices[..bank]
      invariant rcode == 0 ==> forall k :: 0 <= k < bank ==> !Fails(p, works, k)
      invariant rcode != 0 ==> bank > 0 && Fails(p, works, bank - 1)
      invariant rcode != 0 ==> forall k :: 0 <= k < bank - 1 ==> !Fails(p, works, k)
    {
      assert Recorded(p.choices[bank], sFirst[bank], sLast[bank]);
      if sFirst[bank] >= 0 {
        erased := erased + [Sectors(sFirst[bank], sLast[bank] as nat)];
        rcode := if works[bank] then 0 else 1;
      } else {
        erased := erased + [Nothing];
      }
      bank := bank + 1;
    }
  }

  lemma {:induction false} ChoiceAt(banks: seq<Bank>, k: nat, a: nat, z: nat, i: nat)
    requires BanksOk(banks) && k + i < |banks| && PlanFrom(banks, k, a, z).ok
    ensures ChoiceInBank(banks[k + i], PlanFrom(banks, k, a, z).choices[i])
    decreases i
  {
    hide BankOk, BankEnd, SectorEnd;
    if a > z {
      NothingsLength(|banks| - k);
    } else {
      DecideSound(banks[k], a, z);
      if i > 0 {
        ChoiceAt(banks, k + 1, After(banks[k], a, Decide(banks[k], a, z).choice), z, i - 1);
      }
    }
  }

  predicate ChoiceInBank(b: Bank, c: Choice) {
    c.Sectors? ==> b.Bank? && c.first <= c.last < |b.start|
  }

  /** The protection flag of a sector after a plan was applied. */
  function Flag(c: Choice, p: bool, s: nat, was: bool): bool {
    if c.Sectors? && c.first <= s <= c.last then p else was
  }

  /** `flash_sect_protect` without hardware protection: exactly the planned sectors get the flag, which by
      `ChosenIff` are the sectors inside the covered segment. */
  method FlashSectProtect(banks: seq<Bank>, addrFirst: nat, addrLast: nat, p: bool, protect0: seq<seq<bool>>)
    returns (rcode: int, protect: seq<seq<bool>>)
    requires BanksOk(banks) && |protect0| == |banks|
    requires forall k :: 0 <= k < |banks| && banks[k].Bank? ==> |protect0[k]| == |banks[k].start|
    ensures var plan := PlanFrom(banks, 0, addrFirst, addrLast);
      && (rcode == 0 <==> plan.ok && plan.count > 0)
      && (rcode != 0 ==> protect == protect0)
      && (rcode == 0 ==> |protect| == |protect0| && forall k :: 0 <= k < |protect| ==> |protect[k]| == |protect0[k]|)
      && (rcode == 0 ==> forall k, s :: 0 <= k < |protect| && 0 <= s < |protect[k]| ==>
            protect[k][s] == Flag(plan.choices[k], p, s, protect0[k][s]))
  {
    hide PlanFrom, BankOk;
    var sFirst, sLast := new int[|banks|], new int[|banks|];
    var planned;
    rcode, planned := FillSectRanges(banks, addrFirst, addrLast, sFirst, sLast);
    protect := protect0;
    ghost var plan := PlanFrom(banks, 0, addrFirst, addrLast);
    if rcode != 0 || planned == 0 {
      return 1, protect;
    }
    for bank := 0 to |banks|
      modifies {}
      invariant |protect| == |protect0| && protect[bank..] == protect0[bank..]
      invariant forall k :: 0 <= k < |protect| ==> |protect[k]| == |protect0[k]|
      invariant (forall k, s :: 0 <= k < bank && 0 <= s < |protect[k]| ==>
                  protect[k][s] == Flag(plan.choices[k], p, s, protect0[k][s]))
    {
      ChoiceAt(banks, 0, addrFirst, addrLast, bank);
      assert Recorded(plan.choices[bank], sFirst[bank], sLast[bank]);
      assert protect[bank] == protect[bank..][0] && protect0[bank..][0] == protect0[bank];
      if banks[bank].Unknown? {
        continue;
      }
      if 0 <= sFirst[bank] <= sLast[bank] {
        var flags := SetFlags(sFirst[bank], sLast[bank], p, protect[bank]);
        protect := protect[bank := flags];
      }
    }
  }

  /** The loop over the sectors of one bank. */
  method SetFlags(first: nat, last: nat, p: bool, flags0: seq<bool>) returns (flags: seq<bool>)
    requires first <= last < |flags0|
    ensures |flags| == |flags0|
    ensures forall s :: 0 <= s < |flags| ==> flags[s] == Flag(Sectors(first, last), p, s, flags0[s])
  {
    flags := flags0;
    for i := first to last + 1
      invariant |flags| == |flags0|
      invariant forall s :: 0 <= s < |flags| ==> flags[s] == if first <= s < i then p else flags0[s]
    {
      flags := flags[i := p];
    }
  }

  /** `flash_sect_roundb`: move an address to the end of its sector, or report that no sector has it. */
  method SectRoundB(banks: seq<Bank>, addr: nat) returns (rc: int, end: nat)
    requires BanksOk(banks)
    ensures rc == 0 || rc == 1
    ensures rc == 0 <==> exists k :: 0 <= k < |banks| && banks[k].Bank? && InBank(banks[k], addr)
    ensures rc == 0 ==> exists k, i :: (0 <= k < |banks| && banks[k].Bank? && 0 <= i < |banks[k].start|
      && banks[k].start[i] <= addr <= end && end == SectorEnd(banks[k], i))
    ensures rc != 0 ==> end == addr
  {
    var bank := 0;
    while bank < |banks|
      invariant bank <= |banks|
      invariant forall k :: 0 <= k < bank && banks[k].Bank? ==> !InBank(banks[k], addr)
    {
      if banks[bank].Bank? {
        var b := banks[bank];
        for i := 0 to |b.start|
          invariant i > 0 ==> addr < b.start[0] || addr > SectorEnd(b, i - 1)
        {
          var sectorEnd := SectorEnd(b, i);
          SectorInBank(b, i);
          if b.start[i] <= addr <= sectorEnd {
            return 0, sectorEnd;
          }
        }
      }
      bank := bank + 1;
    }
    return 1, addr;
  }

  /** The range part of `addr_spec`: with the "+length" form the last address is rounded up to the end of its
      sector, so the range ends on a sector boundary; an end outside the flash is refused. */
  method AddrSpec(banks: seq<Bank>, first: nat, second: nat, lenUsed: bool) returns (rc: int, last: nat)
    requires BanksOk(banks) && first < WRAP && second < WRAP
    ensures !lenUsed ==> rc == 1 && last == second
    ensures lenUsed ==> var end := (first + second + WRAP - 1) % WRAP;
      && (rc == 1 <==> exists k :: 0 <= k < |banks| && banks[k].Bank? && InBank(banks[k], end))
      && (rc == 1 ==> exists k, i :: (0 <= k < |banks| && banks[k].Bank? && 0 <= i < |banks[k].start|
            && banks[k].start[i] <= end <= last && last == SectorEnd(banks[k], i)))
      && (rc != 1 ==> rc == -1)
  {
    hide BankOk, InBank, SectorEnd;
    last := second;
    if lenUsed {
      last := (first + second + WRAP - 1) % WRAP;
      var found;
      found, last := SectRoundB(banks, last);
      if found > 0 {
        return -1, last;
      }
    }
    return 1, last;
  }
}
