/** When a range of flash addresses is accepted, is empty, or is covered only in part, for any order of the banks. */
module FlashLaws {
  import opened Common
  import opened FlashRange

  /** A sector of the bank starts, or ends, at the address. */
  ghost predicate HasStart(b: Bank, a: nat) {
    b.Bank? && exists i :: 0 <= i < |b.start| && b.start[i] == a
  }

  ghost predicate HasEnd(b: Bank, z: nat) {
    b.Bank? && BankOk(b) && exists i :: 0 <= i < |b.start| && SectorEnd(b, i) == z
  }

  lemma DecideEnds(b: Bank, a: nat, z: nat)
    requires (b.Bank? ==> BankOk(b)) && a <= z && Decide(b, a, z).Chosen?
    ensures var c := Decide(b, a, z).choice;
      && (c.Sectors? <==> HasStart(b, a))
      && (c.Sectors? ==> b.Bank? && c.first <= c.last < |b.start|)
      && (HasEnd(b, z) ==> c.Sectors? && Follow(b, a, c) == z + 1)
      && (!HasEnd(b, z) ==> a <= Follow(b, a, c) <= z)
  {
    hide SectorEnd;
    DecideSound(b, a, z);
  }

  /** In unbounded addresses: something is chosen exactly when a sector starts at the first address, and the range is
      covered up to its end exactly when a sector ends there. */
  lemma {:induction false} LinearEnds(banks: seq<Bank>, k: nat, a: nat, z: nat)
    requires BanksOk(banks) && k <= |banks| && a <= z && LinearFrom(banks, k, a, z).ok
    ensures var p := LinearFrom(banks, k, a, z);
      && (p.count > 0 <==> exists j :: k <= j < |banks| && HasStart(banks[j], a))
      && (p.next == z + 1 <==> exists j :: k <= j < |banks| && HasEnd(banks[j], z))
    decreases |banks| - k
  {
    hide Decide, SectorEnd, HasStart, HasEnd;
    if k < |banks| {
      DecideEnds(banks[k], a, z);
      var a' := Follow(banks[k], a, Decide(banks[k], a, z).choice);
      if a' <= z {
        LinearEnds(banks, k + 1, a', z);
      }
    }
  }

  /** On a straight range an accepted plan chooses something exactly when a sector of some bank starts at the first
      address, and covers the whole range exactly when one ends at the last address; otherwise it stops earlier. */
  lemma EndsDecide(banks: seq<Bank>, a: nat, z: nat)
    requires BanksOk(banks) && a <= z < WRAP && Straight(banks, 0, z) && PlanFrom(banks, 0, a, z).ok
    ensures var p := PlanFrom(banks, 0, a, z);
      && (p.count > 0 <==> exists j :: 0 <= j < |banks| && HasStart(banks[j], a))
      && (CoversUpTo(banks, p.choices, a, z + 1) <==> exists j :: 0 <= j < |banks| && HasEnd(banks[j], z))
  {
    hide PlanFrom, LinearFrom, Selected, BankOk, Straight, HasStart, HasEnd;
    PlanIsLinear(banks, 0, a, z);
    LinearEnds(banks, 0, a, z);
    PlanTiles(banks, a, z);
    var p, next := PlanFrom(banks, 0, a, z), Reach(banks, a, z);
    if CoversUpTo(banks, p.choices, a, z + 1) {
      assert Selected(banks, 0, p.choices, z);
    }
  }

  /** The end of a bank that was taken to its end is where another one starts, or in none. */
  lemma NextIsNoInside(banks: seq<Bank>, k: nat, j: nat)
    requires BanksOk(banks) && Disjoint(banks) && k < |banks| && j < |banks| && banks[k].Bank? && banks[j].Bank?
    requires InBank(banks[j], BankEnd(banks[k]) + 1)
    ensures HasStart(banks[j], BankEnd(banks[k]) + 1)
  {
    var a := BankEnd(banks[k]) + 1;
    assert BankOk(banks[k]) && BankOk(banks[j]);
    SectorsSameOrder(banks[k], 0, |banks[k].start| - 1);
    assert banks[j].start[0] == a;
  }

  lemma DecideRefuses(b: Bank, a: nat, z: nat)
    requires (b.Bank? ==> BankOk(b)) && a <= z && Decide(b, a, z).Failed?
    ensures b.Bank? && (InBank(b, z) || (InBank(b, a) && !HasStart(b, a)))
  {
    if StartingAt(b, a) < |b.start| {
      SectorInBank(b, StartingAt(b, a));
    }
    if EndingAt(b, z) < |b.start| {
      SectorInBank(b, EndingAt(b, z));
    }
  }

  /** Over disjoint banks a range is only refused because its last address lies in a bank, or because its first one
      lies in a bank without starting a sector. */
  lemma {:induction false} LinearRefuses(banks: seq<Bank>, k: nat, a: nat, z: nat)
    requires BanksOk(banks) && Disjoint(banks) && k <= |banks| && !LinearFrom(banks, k, a, z).ok
    ensures a <= z
    ensures (exists j :: k <= j < |banks| && banks[j].Bank? && InBank(banks[j], z))
         || (exists j :: k <= j < |banks| && banks[j].Bank? && InBank(banks[j], a) && !HasStart(banks[j], a))
    decreases |banks| - k
  {
    hide Decide, SectorEnd, HasStart, HasEnd, Disjoint;
    if Decide(banks[k], a, z).Failed? {
      DecideRefuses(banks[k], a, z);
    } else {
      var c := Decide(banks[k], a, z).choice;
      DecideEnds(banks[k], a, z);
      var a' := Follow(banks[k], a, c);
      LinearRefuses(banks, k + 1, a', z);
      if c.Sectors? {
        TakenToTheEnd(banks[k], a, z);
        forall j | k < j < |banks| && banks[j].Bank? && InBank(banks[j], a')
          ensures HasStart(banks[j], a')
        {
          NextIsNoInside(banks, k, j);
        }
      }
    }
  }

  lemma TakenToTheEnd(b: Bank, a: nat, z: nat)
    requires (b.Bank? ==> BankOk(b)) && a <= z && Decide(b, a, z).Chosen? && Decide(b, a, z).choice.Sectors?
    ensures b.Bank?
    ensures var c := Decide(b, a, z).choice;
      c.last < |b.start| && (Follow(b, a, c) <= z ==> Follow(b, a, c) == BankEnd(b) + 1)
  {
    DecideSound(b, a, z);
  }

  /** The same in 32-bit addresses. */
  lemma RefusalReason(banks: seq<Bank>, a: nat, z: nat)
    requires BanksOk(banks) && Disjoint(banks) && a < WRAP && z < WRAP && !PlanFrom(banks, 0, a, z).ok
    ensures a <= z
    ensures (exists j :: 0 <= j < |banks| && banks[j].Bank? && InBank(banks[j], z))
         || (exists j :: 0 <= j < |banks| && banks[j].Bank? && InBank(banks[j], a) && !HasStart(banks[j], a))
  {
    hide PlanFrom, LinearFrom, BankOk, HasStart, Disjoint;
    OkIsLinear(banks, 0, a, z);
    LinearRefuses(banks, 0, a, z);
  }

  /** A range that starts with no sector is accepted, and then empty, exactly when no sector ends with it and its first
      address is in no bank, except as the last byte of one. */
  lemma {:induction false} NoStartOk(banks: seq<Bank>, k: nat, a: nat, z: nat)
    requires BanksOk(banks) && k <= |banks| && a <= z && forall j :: k <= j < |banks| ==> !HasStart(banks[j], a)
    ensures LinearFrom(banks, k, a, z).ok <==>
      forall j :: k <= j < |banks| ==> !HasEnd(banks[j], z) && !Straddles(banks[j], a)
    decreases |banks| - k
  {
    hide Decide, BankOk, SectorEnd, HasStart, HasEnd, Straddles;
    if k < |banks| {
      NoStartDecides(banks[k], a, z);
      if Decide(banks[k], a, z).Chosen? {
        NoStartOk(banks, k + 1, a, z);
      }
    }
  }

  /** The address is in the bank and not its last one. */
  predicate Straddles(b: Bank, a: nat) {
    b.Bank? && BankOk(b) && b.start[0] <= a < b.start[0] + b.size - 1
  }

  lemma NoStartDecides(b: Bank, a: nat, z: nat)
    requires (b.Bank? ==> BankOk(b)) && a <= z && !HasStart(b, a)
    ensures Decide(b, a, z) == if HasEnd(b, z) || Straddles(b, a) then Failed else Chosen(Nothing)
  {
    hide SectorEnd;
  }

  /** A range that starts with a sector of the bank is accepted exactly when it ends with one of its sectors, or goes
      beyond the bank and the other banks accept the rest. */
  lemma StartOk(banks: seq<Bank>, k: nat, a: nat, z: nat)
    requires BanksOk(banks) && k < |banks| && a <= z && HasStart(banks[k], a)
    ensures var b := banks[k];
      LinearFrom(banks, k, a, z).ok <==>
        HasEnd(b, z) || (z > BankEnd(b) && LinearFrom(banks, k + 1, BankEnd(b) + 1, z).ok)
  {
    hide SectorEnd;
    var b := banks[k];
    var sf, sl := StartingAt(b, a), EndingAt(b, z);
    if sl < |b.start| {
      SectorsSameOrder(b, sf, sl);
      SectorInBank(b, sl);
    } else {
      LastSector(b);
    }
  }

  lemma LastSector(b: Bank)
    requires BankOk(b)
    ensures SectorEnd(b, |b.start| - 1) == BankEnd(b)
  {
  }
}
