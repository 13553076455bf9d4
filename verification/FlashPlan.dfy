/** flash_fill_sect_ranges and its callers: an address range becomes sector ranges. */
module FlashPlan {
  const ULONG := 0x1_0000_0000   // addresses are 32 bits on this target

  /** A flash bank: the start address of each sector, and the size of the whole. */
  datatype Bank = Bank(known: bool, start: seq<int>, size: nat)

  /** What a detected bank looks like: sectors ascend and the bank lies below 2^32. */
  ghost predicate Proper(b: Bank)
  {
    && |b.start| > 0 && 0 <= b.start[0] && b.start[|b.start| - 1] < b.start[0] + b.size <= ULONG
    && forall i, j :: 0 <= i < j < |b.start| ==> b.start[i] < b.start[j]
  }

  ghost predicate AllProper(banks: seq<Bank>)
  {
    forall k :: 0 <= k < |banks| && banks[k].known ==> Proper(banks[k])
  }

  function BankEnd(b: Bank): int
    requires |b.start| > 0
  {
    b.start[0] + b.size - 1
  }

  function SectorEnd(b: Bank, i: nat): int
    requires i < |b.start|
  {
    if i == |b.start| - 1 then BankEnd(b) else b.start[i + 1] - 1
  }

  lemma SectorsAscend(b: Bank, i: nat, j: nat)
    requires Proper(b) && i <= j < |b.start|
    ensures b.start[0] <= b.start[i] <= SectorEnd(b, i) <= SectorEnd(b, j) <= BankEnd(b)
    ensures i < j ==> SectorEnd(b, i) < b.start[j]
  {}

  // ---- what the loops compute, one bank at a time ----------------------------------

  /** The sector that starts at `f`, or -1. */
  ghost predicate FirstAt(b: Bank, f: nat, s: int)
  {
    if s < 0 then s == -1 && forall i :: 0 <= i < |b.start| ==> b.start[i] != f
    else s < |b.start| && b.start[s] == f
  }

  /** The sector that ends at `l`, or -1. */
  ghost predicate LastAt(b: Bank, l: nat, t: int)
  {
    if t < 0 then t == -1 && forall i :: 0 <= i < |b.start| ==> SectorEnd(b, i) != l
    else t < |b.start| && SectorEnd(b, t) == l
  }

  /** The inner loop over the sectors of a bank. */
  method FindSectors(b: Bank, f: nat, l: nat) returns (s: int, t: int)
    requires Proper(b) && f <= l
    ensures FirstAt(b, f, s) && LastAt(b, l, t)
  {
    s, t := -1, -1;
    for sect := 0 to |b.start|
      invariant if s < 0 then s == -1 && forall i :: 0 <= i < sect ==> b.start[i] != f else s < sect && b.start[s] == f
      invariant if t < 0 then t == -1 && forall i :: 0 <= i < sect ==> SectorEnd(b, i) != l else t < sect && SectorEnd(b, t) == l
    {
      var end := if sect == |b.start| - 1 then BankEnd(b) else b.start[sect + 1] - 1;
      SectorsAscend(b, sect, sect);
      if !(f > end) && !(l < b.start[sect]) {
        if f == b.start[sect] {
          s := sect;
        }
        if l == end {
          t := sect;
        }
      }
    }
  }

  /** s_first and s_last of one bank; -1 means none. */
  datatype Choice = Choice(first: int, last: int)
  const NONE := Choice(-1, -1)

  predicate Chosen(c: Choice, i: int) { 0 <= c.first <= i <= c.last }

  datatype Plan = Plan(rcode: int, choices: seq<Choice>, count: int)

  ghost function First(b: Bank, f: nat): (s: int)
    requires Proper(b)
    ensures FirstAt(b, f, s)
  {
    if i :| 0 <= i < |b.start| && b.start[i] == f then i else -1
  }

  ghost function Last(b: Bank, l: nat): (t: int)
    requires Proper(b)
    ensures LastAt(b, l, t)
  {
    if i :| 0 <= i < |b.start| && SectorEnd(b, i) == l then i else -1
  }

  function Nones(n: nat): (s: seq<Choice>)
    ensures |s| == n
  {
    seq(n, _ => NONE)
  }

  /** Where the next bank has to start once sectors up to `t` are planned. */
  function NextAddress(b: Bank, t: nat): nat
    requires t < |b.start| && b.start[0] + b.size > 0 && forall i :: 0 <= i < |b.start| ==> 0 <= b.start[i]
  {
    if t == |b.start| - 1 then (BankEnd(b) + 1) % ULONG else b.start[t + 1]
  }

  /** How one bank is dealt with: an error, or a choice and the address to go on from. */
  datatype Verdict = Fail(c: Choice) | Go(c: Choice, next: nat)

  ghost function Judge(b: Bank, f: nat, l: nat): Verdict
    requires Proper(b)
  {
    var s, t := First(b, f), Last(b, l);
    if s >= 0 then
      if t < 0 && l <= BankEnd(b) then Fail(Choice(s, t))                  // end not on a sector boundary
      else
        var t' := if t < 0 then |b.start| - 1 else t;
        if t' < s then Fail(Choice(s, t'))                                  // end sector precedes start sector
        else Go(Choice(s, t'), NextAddress(b, t'))
    else if b.start[0] <= f < BankEnd(b) then Fail(Choice(s, t))           // start not on a sector boundary
    else if t >= 0 then Fail(Choice(s, t))                                 // banks in reverse order
    else Go(NONE, f)
  }

  /** The plan for the banks from `k` on. */
  ghost function PlanFrom(banks: seq<Bank>, k: nat, f: nat, l: nat): (p: Plan)
    requires AllProper(banks) && k <= |banks|
    ensures |p.choices| == |banks| - k
    decreases |banks| - k
  {
    if k == |banks| || f > l then Plan(0, Nones(|banks| - k), 0)
    else if !banks[k].known then
      var rest := PlanFrom(banks, k + 1, f, l);
      rest.(choices := [NONE] + rest.choices)
    else
      match Judge(banks[k], f, l)
      case Fail(c) => Plan(1, [c] + Nones(|banks| - k - 1), 0)
      case Go(c, next) =>
        var rest := PlanFrom(banks, k + 1, next, l);
        Plan(rest.rcode, [c] + rest.choices, rest.count + Size(c))
  }

  function Size(c: Choice): int { if c.first < 0 then 0 else c.last - c.first + 1 }

  /** flash_fill_sect_ranges */
  method FillSectRanges(banks: seq<Bank>, first: nat, l: nat, sFirst: array<int>, sLast: array<int>)
    returns (rcode: int, sCount: int)
    requires AllProper(banks) && sFirst.Length == sLast.Length == |banks| && sFirst != sLast
    modifies sFirst, sLast
    ensures var p := PlanFrom(banks, 0, first, l);
            && rcode == p.rcode && sCount == p.count
            && forall k :: 0 <= k < |banks| ==> Choice(sFirst[k], sLast[k]) == p.choices[k]
  {
    sCount, rcode := 0, 0;
    forall k | 0 <= k < |banks| { sFirst[k] := -1; }
    forall k | 0 <= k < |banks| { sLast[k] := -1; }
    ghost var p := PlanFrom(banks, 0, first, l);
    var f: nat, bank: nat := first, 0;
    while bank < |banks| && f <= l
      invariant 0 <= bank <= |banks| && rcode == 0
      invariant var q := PlanFrom(banks, bank, f, l);
                p.rcode == q.rcode && p.count == sCount + q.count && p.choices[bank..] == q.choices
      invariant forall k :: 0 <= k < bank ==> Choice(sFirst[k], sLast[k]) == p.choices[k]
      invariant forall k :: bank <= k < |banks| ==> Choice(sFirst[k], sLast[k]) == NONE
      decreases |banks| - bank
    {
      ghost var q := PlanFrom(banks, bank, f, l);
      if banks[bank].known {
        rcode, f, sCount := FillBank(banks[bank], bank, f, l, sFirst, sLast, sCount);
        assert p.choices[bank..][0] == q.choices[0];
        if rcode != 0 {
          return;
        }
      }
      assert p.choices[bank..][1..] == p.choices[bank + 1..];
      bank := bank + 1;
    }
  }

  /** The body of the bank loop for a detected bank. */
  method FillBank(b: Bank, bank: nat, f: nat, l: nat, sFirst: array<int>, sLast: array<int>, sCount: int)
    returns (rcode: int, f': nat, sCount': int)
    requires Proper(b) && f <= l && bank < sFirst.Length == sLast.Length && sFirst != sLast
    requires sFirst[bank] == -1 == sLast[bank]
    modifies sFirst, sLast
    ensures forall k :: 0 <= k < sFirst.Length && k != bank ==> sFirst[k] == old(sFirst[k]) && sLast[k] == old(sLast[k])
    ensures match Judge(b, f, l)
            case Fail(c) => rcode == 1 && Choice(sFirst[bank], sLast[bank]) == c && sCount' == sCount
            case Go(c, next) => rcode == 0 && Choice(sFirst[bank], sLast[bank]) == c && f' == next && sCount' == sCount + Size(c)
  {
    rcode, f', sCount' := 0, f, sCount;
    var s, t := FindSectors(b, f, l);
    Unique(b, f, l, s, t);
    sFirst[bank], sLast[bank] := s, t;
    if sFirst[bank] >= 0 {
      if sLast[bank] < 0 {
        if l > BankEnd(b) {
          sLast[bank] := |b.start| - 1;
        } else {
          rcode := 1;
          return;
        }
      }
      if sLast[bank] < sFirst[bank] {
        rcode := 1;
        return;
      }
      f' := NextAddress(b, sLast[bank]);
      sCount' := sCount + (sLast[bank] - sFirst[bank] + 1);
    } else if f >= b.start[0] && f < BankEnd(b) {
      rcode := 1;
    } else if sLast[bank] >= 0 {
      rcode := 1;
    }
  }

  lemma Unique(b: Bank, f: nat, l: nat, s: int, t: int)
    requires Proper(b) && FirstAt(b, f, s) && LastAt(b, l, t)
    ensures s == First(b, f) && t == Last(b, l)
  {}

  // ---- the plan stays inside the range ------------------------------------------------

  /** Every selected sector lies in [f, l]. */
  ghost predicate Inside(banks: seq<Bank>, k: nat, choices: seq<Choice>, f: nat, l: nat)
    requires k + |choices| == |banks|
  {
    forall q, i :: 0 <= q < |choices| && Chosen(choices[q], i) ==>
      i < |banks[k + q].start| && f <= banks[k + q].start[i] && SectorEnd(banks[k + q], i) <= l
  }

  /** After a detected bank that ends at the top of the address space, no detected bank
      starts at address 0. */
  ghost predicate NoWrap(banks: seq<Bank>, k: nat)
  {
    forall i, j :: k <= i < j < |banks| && banks[i].known && banks[j].known && |banks[i].start| > 0 && |banks[j].start| > 0 ==>
      !(BankEnd(banks[i]) == ULONG - 1 && banks[j].start[0] == 0)
  }

  /** What an accepted choice consists of. */
  lemma JudgeForm(b: Bank, f: nat, l: nat)
    requires Proper(b) && Judge(b, f, l).Go? && Judge(b, f, l).c.first >= 0
    ensures var v := Judge(b, f, l);
            && v.c.first <= v.c.last < |b.start| && b.start[v.c.first] == f
            && SectorEnd(b, v.c.last) <= l && v.next == NextAddress(b, v.c.last)
  {
    hide NextAddress;
  }

  lemma NextAfter(b: Bank, t: nat)
    requires Proper(b) && t < |b.start|
    ensures NextAddress(b, t) == SectorEnd(b, t) + 1 || (BankEnd(b) == ULONG - 1 && NextAddress(b, t) == 0)
  {
    if t == |b.start| - 1 && BankEnd(b) + 1 < ULONG {
      Unwrapped(BankEnd(b) + 1);
    }
  }

  /** A choice made for one bank lies in the range, and the scan goes on after it. */
  lemma JudgeInside(b: Bank, f: nat, l: nat, i: int)
    requires Proper(b) && Judge(b, f, l).Go? && Chosen(Judge(b, f, l).c, i)
    ensures i < |b.start| && f <= b.start[i] && SectorEnd(b, i) <= l
    ensures Judge(b, f, l).next > f || (BankEnd(b) == ULONG - 1 && Judge(b, f, l).next == 0)
  {
    hide Judge, NextAddress;
    JudgeForm(b, f, l);
    var c := Judge(b, f, l).c;
    NextAfter(b, c.last);
    SectorsAscend(b, c.first, i);
    SectorsAscend(b, i, c.last);
    SectorsAscend(b, c.first, c.last);
  }

  lemma JudgeKeeps(b: Bank, f: nat, l: nat)
    requires Proper(b) && Judge(b, f, l).Go?
    ensures var v := Judge(b, f, l);
            if v.c.first < 0 then v == Go(NONE, f) else Chosen(v.c, v.c.first)
  {}

  /** At address 0 nothing can be selected in banks that start higher. */
  lemma {:induction false} NothingAtZero(banks: seq<Bank>, k: nat, l: nat)
    requires AllProper(banks) && k <= |banks|
    requires forall j :: k <= j < |banks| && banks[j].known ==> banks[j].start[0] > 0
    ensures var p := PlanFrom(banks, k, 0, l);
            p.rcode == 0 ==> p.choices == Nones(|banks| - k)
    decreases |banks| - k
  {
    if k == |banks| {
    } else {
      NothingAtZero(banks, k + 1, l);
      assert [NONE] + Nones(|banks| - k - 1) == Nones(|banks| - k);
    }
  }

  /** A plan with return code 0 selects nothing outside the range. */
  lemma {:induction false} PlanInside(banks: seq<Bank>, k: nat, f: nat, l: nat)
    requires AllProper(banks) && k <= |banks| && NoWrap(banks, k)
    ensures var p := PlanFrom(banks, k, f, l);
            p.rcode == 0 ==> Inside(banks, k, p.choices, f, l)
    decreases |banks| - k
  {
    hide Judge;
    var p := PlanFrom(banks, k, f, l);
    if k == |banks| || f > l || p.rcode != 0 {
    } else {
      var next := if banks[k].known then Judge(banks[k], f, l).next else f;
      PlanInside(banks, k + 1, next, l);
      if banks[k].known {
        JudgeKeeps(banks[k], f, l);
        if next < f {
          JudgeInside(banks[k], f, l, p.choices[0].first);
          NothingAtZero(banks, k + 1, l);
        }
      }
      var rest := PlanFrom(banks, k + 1, next, l);
      forall q, i | 0 <= q < |p.choices| && Chosen(p.choices[q], i)
        ensures i < |banks[k + q].start| && f <= banks[k + q].start[i] && SectorEnd(banks[k + q], i) <= l
      {
        if q == 0 {
          JudgeInside(banks[k], f, l, i);
        } else {
          assert p.choices[q] == rest.choices[q - 1];
          assert banks[k + q] == banks[(k + 1) + (q - 1)];
        }
      }
    }
  }

  /** The reported number of sectors is the number selected. */
  function Selected(choices: seq<Choice>): int
  {
    if choices == [] then 0 else Size(choices[0]) + Selected(choices[1..])
  }

  lemma {:induction false} NonesSelectNothing(n: nat)
    ensures Selected(Nones(n)) == 0
  {
    if n == 0 {
    } else {
      assert Nones(n)[1..] == Nones(n - 1);
      NonesSelectNothing(n - 1);
    }
  }

  lemma {:induction false} CountIsSelected(banks: seq<Bank>, k: nat, f: nat, l: nat)
    requires AllProper(banks) && k <= |banks|
    ensures var p := PlanFrom(banks, k, f, l);
            p.rcode == 0 ==> p.count == Selected(p.choices)
    decreases |banks| - k
  {
    var p := PlanFrom(banks, k, f, l);
    if k == |banks| || f > l {
      NonesSelectNothing(|banks| - k);
    } else if p.rcode == 0 {
      var next := if banks[k].known then Judge(banks[k], f, l).next else f;
      CountIsSelected(banks, k + 1, next, l);
      assert p.choices[1..] == PlanFrom(banks, k + 1, next, l).choices;
    }
  }

  // ---- and exactly when it may not ----------------------------------------------------

  ghost predicate Disjoint(banks: seq<Bank>)
  {
    forall i, j :: 0 <= i < j < |banks| && banks[i].known && banks[j].known && |banks[i].start| > 0 && |banks[j].start| > 0 ==>
      BankEnd(banks[i]) < banks[j].start[0] || BankEnd(banks[j]) < banks[i].start[0]
  }

  const TOP := ULONG - 1

  /** A bank that holds neither the start of the range nor the top address is passed over. */
  lemma PassedOver(b: Bank, f: nat)
    requires Proper(b) && BankEnd(b) < TOP && !(b.start[0] <= f <= BankEnd(b))
    ensures Judge(b, f, TOP) == Go(NONE, f)
  {
    forall i | 0 <= i < |b.start| ensures b.start[i] != f && SectorEnd(b, i) != TOP {
      SectorsAscend(b, i, i);
      SectorsAscend(b, i, |b.start| - 1);
    }
  }

  /** A bank that starts at the current address is taken whole. */
  lemma TakenWhole(b: Bank, f: nat)
    requires Proper(b) && BankEnd(b) < TOP && b.start[0] == f
    ensures Judge(b, f, TOP) == Go(Choice(0, |b.start| - 1), BankEnd(b) + 1)
  {
    forall i | 0 <= i < |b.start| ensures SectorEnd(b, i) != TOP { SectorsAscend(b, i, |b.start| - 1); }
    Unique(b, f, TOP, 0, -1);
    SectorsAscend(b, 0, |b.start| - 1);
  }

  /** The last sector of a bank at the top is taken, and the address wraps. */
  lemma LastTaken(b: Bank)
    requires Proper(b) && BankEnd(b) == TOP
    ensures var n := |b.start| - 1;
            b.start[n] >= 0 && Judge(b, b.start[n], TOP) == Go(Choice(n, n), 0)
  {
    var n := |b.start| - 1;
    SectorsAscend(b, n, n);
    Unique(b, b.start[n], TOP, n, n);
  }

  /** Once a whole bank is taken, the rest of the scan meets no error. */
  lemma {:induction false} TailAccepted(banks: seq<Bank>, k: nat, i: nat, e: nat)
    requires AllProper(banks) && Disjoint(banks) && i < k <= |banks| && e < k && banks[i].known && banks[e].known
    requires BankEnd(banks[i]) == TOP && BankEnd(banks[e]) < TOP
    ensures PlanFrom(banks, k, BankEnd(banks[e]) + 1, TOP).rcode == 0
    decreases |banks| - k
  {
    hide Judge;
    if k == |banks| {
    } else {
      var f := BankEnd(banks[e]) + 1;
      TailAccepted(banks, k + 1, i, e);
      if banks[k].known {
        if banks[k].start[0] == f {
          TakenWhole(banks[k], f);
          TailAccepted(banks, k + 1, i, k);
        } else {
          PassedOver(banks[k], f);
        }
      }
    }
  }

  /** Back at address 0, the scan reaches the bank that starts there. */
  lemma {:induction false} ZeroReached(banks: seq<Bank>, k: nat, i: nat, j: nat)
    requires AllProper(banks) && Disjoint(banks) && i < k <= j < |banks| && banks[i].known && banks[j].known
    requires BankEnd(banks[i]) == TOP && banks[j].start[0] == 0
    requires forall q :: i < q < j && banks[q].known ==> banks[q].start[0] != 0
    ensures var p := PlanFrom(banks, k, 0, TOP);
            p.rcode == 0 && Chosen(p.choices[j - k], 0)
    decreases j - k
  {
    hide Judge;
    if k == j {
      TakenWhole(banks[j], 0);
      TailAccepted(banks, j + 1, i, j);
    } else {
      ZeroReached(banks, k + 1, i, j);
      if banks[k].known {
        PassedOver(banks[k], 0);
      }
    }
  }

  lemma {:induction false} WrapReached(banks: seq<Bank>, k: nat, i: nat, j: nat, f: nat)
    requires AllProper(banks) && Disjoint(banks) && k <= i < j < |banks| && banks[i].known && banks[j].known
    requires BankEnd(banks[i]) == TOP && banks[j].start[0] == 0
    requires f == banks[i].start[|banks[i].start| - 1]
    requires forall q :: i < q < j && banks[q].known ==> banks[q].start[0] != 0
    ensures var p := PlanFrom(banks, k, f, TOP);
            p.rcode == 0 && Chosen(p.choices[j - k], 0)
    decreases i - k
  {
    hide Judge;
    if k == i {
      LastTaken(banks[i]);
      ZeroReached(banks, i + 1, i, j);
    } else {
      WrapReached(banks, k + 1, i, j, f);
      if banks[k].known {
        SectorsAscend(banks[i], |banks[i].start| - 1, |banks[i].start| - 1);
        PassedOver(banks[k], f);
      }
    }
  }

  /** An accepted plan for this range selects nothing outside it. */
  ghost predicate StaysInside(banks: seq<Bank>, f: nat, l: nat)
    requires AllProper(banks)
  {
    var p := PlanFrom(banks, 0, f, l);
    p.rcode == 0 ==> Inside(banks, 0, p.choices, f, l)
  }

  lemma Escape(banks: seq<Bank>, i: nat, j0: nat) returns (f: nat)
    requires AllProper(banks) && Disjoint(banks) && i < j0 < |banks| && banks[i].known && banks[j0].known
    requires BankEnd(banks[i]) == TOP && banks[j0].start[0] == 0
    ensures !StaysInside(banks, f, TOP)
  {
    hide Judge, PlanFrom, Inside, Chosen;
    var j := FirstAtZero(banks, i, j0);
    SectorsAscend(banks[i], |banks[i].start| - 1, |banks[i].start| - 1);
    f := banks[i].start[|banks[i].start| - 1];
    WrapReached(banks, 0, i, j, f);
    Outside(banks, PlanFrom(banks, 0, f, TOP).choices, j, f);
  }

  /** For separate banks: every accepted plan stays inside its range if and only if no
      bank starting at address 0 follows one that ends at the top. */
  lemma InsideExactly(banks: seq<Bank>)
    requires AllProper(banks) && Disjoint(banks)
    ensures NoWrap(banks, 0) <==> forall f: nat, l: nat :: l < ULONG ==> StaysInside(banks, f, l)
  {
    hide PlanFrom, Inside;
    if NoWrap(banks, 0) {
      forall f: nat, l: nat ensures StaysInside(banks, f, l) {
        PlanInside(banks, 0, f, l);
      }
    } else {
      var i, j0 :| 0 <= i < j0 < |banks| && banks[i].known && banks[j0].known &&
        BankEnd(banks[i]) == TOP && banks[j0].start[0] == 0;
      var f := Escape(banks, i, j0);
    }
  }

  /** Two banks, one at each end of the address space: erasing the top one also selects a
      sector of the other. */
  lemma WrapExample() returns (banks: seq<Bank>, f: nat)
    ensures AllProper(banks) && Disjoint(banks) && f < ULONG && !StaysInside(banks, f, TOP)
  {
    var top := Bank(true, [0xFFFF_0000], 0x1_0000);
    var bottom := Bank(true, [0], 0x1_0000);
    banks := [top, bottom];
    assert Proper(top) && Proper(bottom);
    f := 0xFFFF_0000;
    hide PlanFrom;
    WrapReached(banks, 0, 0, 1, f);
    Outside(banks, PlanFrom(banks, 0, f, TOP).choices, 1, f);
  }

  lemma Outside(banks: seq<Bank>, choices: seq<Choice>, j: nat, f: nat)
    requires |choices| == |banks| && j < |banks| && Chosen(choices[j], 0) && |banks[j].start| > 0 && banks[j].start[0] < f
    ensures !Inside(banks, 0, choices, f, TOP)
  {
    assert banks[0 + j].start[0] < f;
  }

  lemma FirstAtZero(banks: seq<Bank>, i: nat, j0: nat) returns (j: nat)
    requires AllProper(banks) && i < j0 < |banks| && banks[j0].known && banks[j0].start[0] == 0
    ensures i < j < |banks| && banks[j].known && banks[j].start[0] == 0
    ensures forall q :: i < q < j && banks[q].known ==> banks[q].start[0] != 0
  {
    j := i + 1;
    while !(banks[j].known && banks[j].start[0] == 0)
      invariant i < j <= j0
      decreases j0 - j
      invariant forall q :: i < q < j && banks[q].known ==> banks[q].start[0] != 0
    {
      j := j + 1;
    }
  }

  // ---- contiguous banks are covered exactly ---------------------------------------------

  /** Each detected bank from `k` on starts where the one before it ended; `next` is
      where the first of them must start, or -1. */
  ghost predicate ContiguousFrom(banks: seq<Bank>, k: nat, next: int)
    requires AllProper(banks) && k <= |banks|
    decreases |banks| - k
  {
    if k == |banks| then true
    else if !banks[k].known then ContiguousFrom(banks, k + 1, next)
    else (next == -1 || banks[k].start[0] == next) && ContiguousFrom(banks, k + 1, BankEnd(banks[k]) + 1)
  }

  lemma {:induction false} LaterIsHigher(banks: seq<Bank>, k: nat, next: int, q: nat)
    requires AllProper(banks) && k <= q < |banks| && ContiguousFrom(banks, k, next) && next >= 0 && banks[q].known
    ensures next <= banks[q].start[0]
    decreases q - k
  {
    if k == q {
    } else {
      if banks[k].known {
        LaterIsHigher(banks, k + 1, BankEnd(banks[k]) + 1, q);
      } else {
        LaterIsHigher(banks, k + 1, next, q);
      }
    }
  }

  lemma {:induction false} NextKnown(banks: seq<Bank>, k: nat, next: int, m: nat) returns (j: nat)
    requires AllProper(banks) && k <= m < |banks| && ContiguousFrom(banks, k, next) && next >= 0 && banks[m].known
    ensures k <= j <= m && banks[j].known && banks[j].start[0] == next
    decreases m - k
  {
    if banks[k].known {
      j := k;
    } else {
      j := NextKnown(banks, k + 1, next, m);
    }
  }

  predicate Wanted(b: Bank, x: nat, f: nat, l: nat)
    requires x < |b.start|
  {
    b.known && f <= b.start[x] && SectorEnd(b, x) <= l
  }

  /** Exactly the sectors that lie in [f, l] are selected. */
  ghost predicate Exact(banks: seq<Bank>, k: nat, choices: seq<Choice>, f: nat, l: nat)
    requires k + |choices| == |banks|
  {
    forall q: nat, x: nat :: q < |choices| && x < |banks[k + q].start| ==>
      (Chosen(choices[q], x) <==> Wanted(banks[k + q], x, f, l))
  }

  lemma ExactCons(banks: seq<Bank>, k: nat, c: Choice, rest: seq<Choice>, f: nat, f': nat, l: nat)
    requires k + 1 + |rest| == |banks| && Exact(banks, k + 1, rest, f', l)
    requires forall x: nat :: x < |banks[k].start| ==> (Chosen(c, x) <==> Wanted(banks[k], x, f, l))
    requires forall q: nat, x: nat :: k < q < |banks| && x < |banks[q].start| ==>
             (Wanted(banks[q], x, f, l) <==> Wanted(banks[q], x, f', l))
    ensures Exact(banks, k, [c] + rest, f, l)
  {
    hide Wanted, Chosen;
    var cs := [c] + rest;
    forall q: nat, x: nat | q < |cs| && x < |banks[k + q].start| ensures Chosen(cs[q], x) <==> Wanted(banks[k + q], x, f, l) {
      if q > 0 {
        assert banks[k + q] == banks[(k + 1) + (q - 1)] && cs[q] == rest[q - 1];
      }
    }
  }

  lemma BeforeRange(b: Bank, f: nat, l: nat)
    requires Proper(b) && BankEnd(b) < f <= l
    ensures Judge(b, f, l) == Go(NONE, f)
    ensures forall x: nat :: x < |b.start| ==> !Wanted(b, x, f, l)
  {
    forall x: nat | x < |b.start| ensures b.start[x] < f && SectorEnd(b, x) < l {
      SectorsAscend(b, x, |b.start| - 1);
    }
  }

  /** The range starts and ends in this bank. */
  lemma WithinBank(b: Bank, i: nat, n: nat)
    requires Proper(b) && b.known && i < |b.start| && n < |b.start| && 0 <= b.start[i] <= SectorEnd(b, n)
    ensures var f := b.start[i];
            var l := SectorEnd(b, n);
            Judge(b, f, l) == Go(Choice(i, n), NextAddress(b, n))
            && forall x: nat :: x < |b.start| ==> (Chosen(Choice(i, n), x) <==> Wanted(b, x, f, l))
  {
    var f, l := b.start[i], SectorEnd(b, n);
    if n < i { SectorsAscend(b, n, i); }
    forall x: nat | x < |b.start| ensures SectorEnd(b, x) == l ==> x == n {
      if x < n { SectorsAscend(b, x, n); } else if n < x { SectorsAscend(b, n, x); SectorsAscend(b, x, x); }
    }
    Unique(b, f, l, i, n);
    forall x: nat | x < |b.start| ensures Chosen(Choice(i, n), x) <==> Wanted(b, x, f, l) {
      if x <= n { SectorsAscend(b, x, n); } else { SectorsAscend(b, n, x); SectorsAscend(b, x, x); }
    }
  }

  /** The range starts in this bank and goes on beyond it. */
  lemma FromBank(b: Bank, i: nat, l: nat)
    requires Proper(b) && b.known && i < |b.start| && 0 <= b.start[i] && BankEnd(b) < l < ULONG
    ensures var f := b.start[i];
            var n := |b.start| - 1;
            Judge(b, f, l) == Go(Choice(i, n), BankEnd(b) + 1)
            && forall x: nat :: x < |b.start| ==> (Chosen(Choice(i, n), x) <==> Wanted(b, x, f, l))
  {
    var f, n := b.start[i], |b.start| - 1;
    forall x: nat | x < |b.start| ensures SectorEnd(b, x) < l { SectorsAscend(b, x, n); }
    Unique(b, f, l, i, -1);
  }

  lemma {:induction false} NoneKnown(banks: seq<Bank>, k: nat, f: nat, l: nat)
    requires AllProper(banks) && k <= |banks| && (f <= l ==> forall q :: k <= q < |banks| ==> !banks[q].known)
    ensures PlanFrom(banks, k, f, l) == Plan(0, Nones(|banks| - k), 0)
    decreases |banks| - k
  {
    if k == |banks| || f > l {
    } else {
      NoneKnown(banks, k + 1, f, l);
      assert [NONE] + Nones(|banks| - k - 1) == Nones(|banks| - k);
    }
  }

  /** On contiguous banks, a range from a sector start (sector `i` of bank `j`) to a
      sector end (sector `n` of bank `m`) is accepted and covered exactly. */
  lemma {:induction false} Covered(banks: seq<Bank>, k: nat, next: int, j: nat, i: nat, m: nat, n: nat)
    requires AllProper(banks) && k <= j < |banks| && k <= m < |banks| && ContiguousFrom(banks, k, next)
    requires banks[j].known && banks[m].known && i < |banks[j].start| && n < |banks[m].start|
    requires 0 <= banks[j].start[i] <= SectorEnd(banks[m], n)
    ensures var f := banks[j].start[i];
            var l := SectorEnd(banks[m], n);
            var p := PlanFrom(banks, k, f, l);
            p.rcode == 0 && Exact(banks, k, p.choices, f, l)
    decreases |banks| - k
  {
    hide Judge, Wanted, Chosen, Exact, NextAddress;
    var b := banks[k];
    var f, l := banks[j].start[i], SectorEnd(banks[m], n);
    SectorsAscend(banks[m], n, |banks[m].start| - 1);
    SectorsAscend(banks[j], i, i);
    if !b.known {
      Covered(banks, k + 1, next, j, i, m, n);
      UnknownBank(b, f, l);
      ExactCons(banks, k, NONE, PlanFrom(banks, k + 1, f, l).choices, f, f, l);
    } else if j > k {
      LaterIsHigher(banks, k + 1, BankEnd(b) + 1, j);
      StartsLater(banks, k, m, n, f);
      BeforeRange(b, f, l);
      Covered(banks, k + 1, BankEnd(b) + 1, j, i, m, n);
      NoneIsChosen(b, f, l);
      ExactCons(banks, k, NONE, PlanFrom(banks, k + 1, f, l).choices, f, f, l);
    } else if m == k {
      WithinBank(b, i, n);
      CoveredEnd(banks, k, i, n);
    } else {
      LaterIsHigher(banks, k + 1, BankEnd(b) + 1, m);
      SectorsAscend(banks[m], n, n);
      FromBank(b, i, l);
      var j' := NextKnown(banks, k + 1, BankEnd(b) + 1, m);
      Covered(banks, k + 1, BankEnd(b) + 1, j', 0, m, n);
      SameWanted(banks, k, f, l);
      ExactCons(banks, k, Choice(i, |b.start| - 1), PlanFrom(banks, k + 1, BankEnd(b) + 1, l).choices, f, BankEnd(b) + 1, l);
    }
  }

  lemma UnknownBank(b: Bank, f: nat, l: nat)
    requires !b.known
    ensures forall x: nat :: x < |b.start| ==> (Chosen(NONE, x) <==> Wanted(b, x, f, l))
  {}

  lemma NoneIsChosen(b: Bank, f: nat, l: nat)
    requires forall x: nat :: x < |b.start| ==> !Wanted(b, x, f, l)
    ensures forall x: nat :: x < |b.start| ==> (Chosen(NONE, x) <==> Wanted(b, x, f, l))
  {}

  /** A range that starts above a bank does not end in it. */
  lemma StartsLater(banks: seq<Bank>, k: nat, m: nat, n: nat, f: nat)
    requires AllProper(banks) && k <= m < |banks| && banks[k].known && banks[m].known && n < |banks[m].start|
    requires BankEnd(banks[k]) < f <= SectorEnd(banks[m], n)
    ensures m > k
  {
    SectorsAscend(banks[m], n, |banks[m].start| - 1);
  }

  /** Banks after a bank are wanted or not regardless of where in or after it the range starts. */
  lemma SameWanted(banks: seq<Bank>, k: nat, f: nat, l: nat)
    requires AllProper(banks) && k < |banks| && banks[k].known && f <= BankEnd(banks[k]) + 1
    requires ContiguousFrom(banks, k + 1, BankEnd(banks[k]) + 1) && BankEnd(banks[k]) + 1 >= 0
    ensures forall q: nat, x: nat :: k < q < |banks| && x < |banks[q].start| ==>
              (Wanted(banks[q], x, f, l) <==> Wanted(banks[q], x, BankEnd(banks[k]) + 1, l))
  {
    forall q: nat, x: nat | k < q < |banks| && x < |banks[q].start| && banks[q].known
      ensures BankEnd(banks[k]) + 1 <= banks[q].start[x]
    {
      LaterIsHigher(banks, k + 1, BankEnd(banks[k]) + 1, q);
      SectorsAscend(banks[q], x, x);
    }
  }

  /** After the last sector of the range nothing more is selected, also when the address
      wraps at the top. */
  lemma CoveredEnd(banks: seq<Bank>, k: nat, i: nat, n: nat)
    requires AllProper(banks) && k < |banks| && banks[k].known && ContiguousFrom(banks, k + 1, BankEnd(banks[k]) + 1)
    requires i < |banks[k].start| && n < |banks[k].start| && 0 <= banks[k].start[i] <= SectorEnd(banks[k], n)
    requires Judge(banks[k], banks[k].start[i], SectorEnd(banks[k], n)) == Go(Choice(i, n), NextAddress(banks[k], n))
    requires forall x: nat :: x < |banks[k].start| ==>
               (Chosen(Choice(i, n), x) <==> Wanted(banks[k], x, banks[k].start[i], SectorEnd(banks[k], n)))
    ensures var f := banks[k].start[i];
            var l := SectorEnd(banks[k], n);
            var p := PlanFrom(banks, k, f, l);
            p.rcode == 0 && Exact(banks, k, p.choices, f, l)
  {
    var b := banks[k];
    var f, l := b.start[i], SectorEnd(b, n);
    WrapIsLast(banks, k, n);
    hide Judge, NextAddress, Wanted;
    NoneKnown(banks, k + 1, NextAddress(b, n), l);
    forall q: nat, x: nat | k < q < |banks| && x < |banks[q].start| ensures !Wanted(banks[q], x, f, l) {
      BeyondUnwanted(banks, k, n, q, x, f);
    }
    NonesExact(banks, k + 1, f, l);
    ExactCons(banks, k, Choice(i, n), Nones(|banks| - k - 1), f, f, l);
  }

  /** The address after a sector wraps only in the last detected bank. */
  lemma WrapIsLast(banks: seq<Bank>, k: nat, n: nat)
    requires AllProper(banks) && k < |banks| && banks[k].known && n < |banks[k].start|
    requires ContiguousFrom(banks, k + 1, BankEnd(banks[k]) + 1)
    ensures NextAddress(banks[k], n) <= SectorEnd(banks[k], n) ==> forall q :: k < q < |banks| ==> !banks[q].known
  {
    hide ContiguousFrom, NextAddress;
    WrapAtTop(banks[k], n);
    if NextAddress(banks[k], n) <= SectorEnd(banks[k], n) {
      forall q | k < q < |banks| ensures !banks[q].known {
        TopIsLast(banks, k, q);
      }
    }
  }

  lemma WrapAtTop(b: Bank, n: nat)
    requires Proper(b) && n < |b.start|
    ensures NextAddress(b, n) <= SectorEnd(b, n) ==> BankEnd(b) + 1 == ULONG
  {
    if n == |b.start| - 1 && BankEnd(b) + 1 < ULONG {
      Unwrapped(BankEnd(b) + 1);
    }
  }

  lemma Unwrapped(x: nat)
    requires x < ULONG
    ensures x % ULONG == x
  {}

  lemma TopIsLast(banks: seq<Bank>, k: nat, q: nat)
    requires AllProper(banks) && k < q < |banks| && banks[k].known
    requires ContiguousFrom(banks, k + 1, BankEnd(banks[k]) + 1) && BankEnd(banks[k]) + 1 == ULONG
    ensures !banks[q].known
  {
    hide ContiguousFrom;
    if banks[q].known {
      LaterIsHigher(banks, k + 1, ULONG, q);
      assert false;
    }
  }

  lemma BeyondUnwanted(banks: seq<Bank>, k: nat, n: nat, q: nat, x: nat, f: nat)
    requires AllProper(banks) && k < q < |banks| && banks[k].known && n < |banks[k].start| && x < |banks[q].start|
    requires ContiguousFrom(banks, k + 1, BankEnd(banks[k]) + 1)
    ensures !Wanted(banks[q], x, f, SectorEnd(banks[k], n))
  {
    var b := banks[k];
    SectorsAscend(b, n, |b.start| - 1);
    if banks[q].known {
      LaterIsHigher(banks, k + 1, BankEnd(b) + 1, q);
      SectorsAscend(banks[q], x, x);
    }
  }

  lemma NonesExact(banks: seq<Bank>, k: nat, f: nat, l: nat)
    requires k <= |banks|
    requires forall q: nat, x: nat :: k <= q < |banks| && x < |banks[q].start| ==> !Wanted(banks[q], x, f, l)
    ensures Exact(banks, k, Nones(|banks| - k), f, l)
  {
    hide Wanted;
  }

  // ---- each address once, and what the length form selects -------------------------------

  /** Sector `i` of detected bank `k` holds address `x`. */
  predicate Holds(banks: seq<Bank>, k: nat, i: nat, x: int)
    requires k < |banks| && i < |banks[k].start|
  {
    banks[k].known && banks[k].start[i] <= x <= SectorEnd(banks[k], i)
  }

  /** Of two sectors of contiguous banks one lies entirely before the other. */
  lemma SectorsApart(banks: seq<Bank>, k: nat, i: nat, m: nat, n: nat)
    requires AllProper(banks) && ContiguousFrom(banks, 0, -1) && k <= m < |banks| && (k == m ==> i < n)
    requires banks[k].known && banks[m].known && i < |banks[k].start| && n < |banks[m].start|
    ensures SectorEnd(banks[k], i) < banks[m].start[n]
  {
    if k == m {
      SectorsAscend(banks[k], i, n);
    } else {
      ContiguousTail(banks, 0, -1, k);
      LaterIsHigher(banks, k + 1, BankEnd(banks[k]) + 1, m);
      SectorsAscend(banks[k], i, |banks[k].start| - 1);
      SectorsAscend(banks[m], n, n);
    }
  }

  lemma {:induction false} ContiguousTail(banks: seq<Bank>, k: nat, next: int, q: nat)
    requires AllProper(banks) && k <= q < |banks| && ContiguousFrom(banks, k, next) && banks[q].known
    ensures ContiguousFrom(banks, q + 1, BankEnd(banks[q]) + 1)
    decreases q - k
  {
    if k == q {
    } else {
      ContiguousTail(banks, k + 1, if banks[k].known then BankEnd(banks[k]) + 1 else next, q);
    }
  }

  /** No address lies in two sectors. */
  lemma HeldOnce(banks: seq<Bank>, k: nat, i: nat, m: nat, n: nat, x: int)
    requires AllProper(banks) && ContiguousFrom(banks, 0, -1)
    requires k < |banks| && i < |banks[k].start| && m < |banks| && n < |banks[m].start|
    requires Holds(banks, k, i, x) && Holds(banks, m, n, x)
    ensures k == m && i == n
  {
    if k < m || (k == m && i < n) {
      SectorsApart(banks, k, i, m, n);
    } else if m < k || n < i {
      SectorsApart(banks, m, n, k, i);
    }
  }

  lemma {:induction false} SectorOf(b: Bank, x: int, i: nat) returns (r: nat)
    requires Proper(b) && i < |b.start| && b.start[i] <= x <= BankEnd(b)
    ensures i <= r < |b.start| && b.start[r] <= x <= SectorEnd(b, r)
    decreases |b.start| - i
  {
    if x <= SectorEnd(b, i) {
      r := i;
    } else {
      r := SectorOf(b, x, i + 1);
    }
  }

  /** Every address between two detected banks lies in some sector. */
  lemma {:induction false} HeldSomewhere(banks: seq<Bank>, k: nat, next: int, m: nat, x: int) returns (q: nat, i: nat)
    requires AllProper(banks) && k <= m < |banks| && ContiguousFrom(banks, k, next) && banks[m].known
    requires 0 <= next <= x <= BankEnd(banks[m])
    ensures q < |banks| && i < |banks[q].start| && Holds(banks, q, i, x)
    decreases m - k
  {
    if !banks[k].known {
      q, i := HeldSomewhere(banks, k + 1, next, m, x);
    } else if x <= BankEnd(banks[k]) {
      q := k;
      i := SectorOf(banks[k], x, 0);
    } else {
      q, i := HeldSomewhere(banks, k + 1, BankEnd(banks[k]) + 1, m, x);
    }
  }

  /** The selected sectors lie in [f, l] and hold every address of it. */
  ghost predicate Tiles(banks: seq<Bank>, choices: seq<Choice>, f: nat, l: nat)
    requires |choices| == |banks|
  {
    && Inside(banks, 0, choices, f, l)
    && forall x :: f <= x <= l ==> HeldByChoice(banks, choices, x)
  }

  ghost predicate HeldByChoice(banks: seq<Bank>, choices: seq<Choice>, x: int)
    requires |choices| == |banks|
  {
    exists q: nat, i: nat :: q < |banks| && i < |banks[q].start| && Chosen(choices[q], i) && Holds(banks, q, i, x)
  }

  ghost predicate StartsIn(b: Bank, f: nat)
  {
    b.known && exists i: nat :: i < |b.start| && b.start[i] == f
  }

  ghost predicate FinishesIn(b: Bank, l: nat)
  {
    b.known && exists n: nat :: n < |b.start| && SectorEnd(b, n) == l
  }

  ghost predicate StartFrom(banks: seq<Bank>, k: nat, f: nat)
    requires k <= |banks|
    decreases |banks| - k
  {
    k < |banks| && (StartsIn(banks[k], f) || StartFrom(banks, k + 1, f))
  }

  ghost predicate FinishFrom(banks: seq<Bank>, k: nat, l: nat)
    requires k <= |banks|
    decreases |banks| - k
  {
    k < |banks| && (FinishesIn(banks[k], l) || FinishFrom(banks, k + 1, l))
  }

  ghost predicate SectorStart(banks: seq<Bank>, f: nat)
  {
    StartFrom(banks, 0, f)
  }

  ghost predicate SectorFinish(banks: seq<Bank>, l: nat)
  {
    FinishFrom(banks, 0, l)
  }

  /** Some sector of a detected bank starts there. */
  lemma StartFound(banks: seq<Bank>, k: nat, f: nat) returns (j: nat, i: nat)
    requires k <= |banks| && StartFrom(banks, k, f)
    ensures k <= j < |banks| && i < |banks[j].start| && banks[j].known && banks[j].start[i] == f
    decreases |banks| - k
  {
    if StartsIn(banks[k], f) {
      j := k;
      i :| i < |banks[k].start| && banks[k].start[i] == f;
    } else {
      j, i := StartFound(banks, k + 1, f);
    }
  }

  lemma FinishFound(banks: seq<Bank>, k: nat, l: nat) returns (m: nat, n: nat)
    requires k <= |banks| && FinishFrom(banks, k, l)
    ensures k <= m < |banks| && n < |banks[m].start| && banks[m].known && SectorEnd(banks[m], n) == l
    decreases |banks| - k
  {
    if FinishesIn(banks[k], l) {
      m := k;
      n :| n < |banks[k].start| && SectorEnd(banks[k], n) == l;
    } else {
      m, n := FinishFound(banks, k + 1, l);
    }
  }

  lemma {:induction false} StartIs(banks: seq<Bank>, k: nat, j: nat, i: nat)
    requires k <= j < |banks| && i < |banks[j].start| && banks[j].known && banks[j].start[i] >= 0
    ensures StartFrom(banks, k, banks[j].start[i])
    decreases j - k
  {
    if k == j {
    } else {
      StartIs(banks, k + 1, j, i);
    }
  }

  lemma {:induction false} FinishIs(banks: seq<Bank>, k: nat, m: nat, n: nat)
    requires k <= m < |banks| && n < |banks[m].start| && banks[m].known && SectorEnd(banks[m], n) >= 0
    ensures FinishFrom(banks, k, SectorEnd(banks[m], n))
    decreases m - k
  {
    if k == m {
    } else {
      FinishIs(banks, k + 1, m, n);
    }
  }

  lemma CoveredTiles(banks: seq<Bank>, j: nat, i: nat, m: nat, n: nat)
    requires AllProper(banks) && ContiguousFrom(banks, 0, -1)
    requires j < |banks| && m < |banks| && banks[j].known && banks[m].known && i < |banks[j].start| && n < |banks[m].start|
    requires 0 <= banks[j].start[i] <= SectorEnd(banks[m], n)
    ensures var f := banks[j].start[i];
            var l := SectorEnd(banks[m], n);
            var p := PlanFrom(banks, 0, f, l);
            p.rcode == 0 && Tiles(banks, p.choices, f, l)
  {
    hide PlanFrom;
    var f, l := banks[j].start[i], SectorEnd(banks[m], n);
    var p := PlanFrom(banks, 0, f, l);
    Covered(banks, 0, -1, j, i, m, n);
    ContiguousNoWrap(banks);
    PlanInside(banks, 0, f, l);
    SectorsAscend(banks[j], i, i);
    SectorsAscend(banks[m], n, |banks[m].start| - 1);
    forall x | f <= x <= l ensures HeldByChoice(banks, p.choices, x) {
      var q, r := Locate(banks, j, i, m, n, x);
      assert Wanted(banks[0 + q], r, f, l) && Chosen(p.choices[q], r);
    }
  }

  /** An address of the range lies in a sector that lies in the range. */
  lemma Locate(banks: seq<Bank>, j: nat, i: nat, m: nat, n: nat, x: int) returns (q: nat, r: nat)
    requires AllProper(banks) && ContiguousFrom(banks, 0, -1)
    requires j < |banks| && m < |banks| && banks[j].known && banks[m].known && i < |banks[j].start| && n < |banks[m].start|
    requires 0 <= banks[j].start[i] <= x <= SectorEnd(banks[m], n)
    ensures q < |banks| && r < |banks[q].start| && Holds(banks, q, r, x)
    ensures banks[j].start[i] <= banks[q].start[r] && SectorEnd(banks[q], r) <= SectorEnd(banks[m], n)
  {
    SectorsAscend(banks[m], n, |banks[m].start| - 1);
    SectorsAscend(banks[m], n, n);
    SectorsAscend(banks[j], i, i);
    if j > m { SectorsApart(banks, m, n, j, i); }
    if j == m || x <= BankEnd(banks[j]) {
      q := j;
      r := SectorOf(banks[j], x, i);
    } else {
      ContiguousTail(banks, 0, -1, j);
      q, r := HeldSomewhere(banks, j + 1, BankEnd(banks[j]) + 1, m, x);
    }
    SectorsAscend(banks[q], r, r);
    if q < j || (q == j && r < i) { SectorsApart(banks, q, r, j, i); }
    if q > m || (q == m && r > n) { SectorsApart(banks, m, n, q, r); }
    if q == m && r <= n { SectorsAscend(banks[m], r, n); }
    if q < m { SectorsApart(banks, q, r, m, n); }
    if q > j { SectorsApart(banks, j, i, q, r); }
    if q == j { SectorsAscend(banks[j], i, r); }
  }

  lemma ContiguousNoWrap(banks: seq<Bank>)
    requires AllProper(banks) && ContiguousFrom(banks, 0, -1)
    ensures NoWrap(banks, 0)
  {
    forall i, j | 0 <= i < j < |banks| && banks[i].known && banks[j].known ensures BankEnd(banks[i]) < banks[j].start[0] {
      SectorsApart(banks, i, |banks[i].start| - 1, j, 0);
    }
  }

  /** On contiguous banks a range is accepted and tiled by the plan if and only if it runs
      from a sector start to a sector end. */
  lemma TiledExactly(banks: seq<Bank>, f: nat, l: nat)
    requires AllProper(banks) && ContiguousFrom(banks, 0, -1) && f <= l
    ensures var p := PlanFrom(banks, 0, f, l);
            (p.rcode == 0 && Tiles(banks, p.choices, f, l)) <==> (SectorStart(banks, f) && SectorFinish(banks, l))
  {
    hide PlanFrom, Chosen, StartFrom, FinishFrom;
    var p := PlanFrom(banks, 0, f, l);
    if SectorStart(banks, f) && SectorFinish(banks, l) {
      var j, i := StartFound(banks, 0, f);
      var m, n := FinishFound(banks, 0, l);
      CoveredTiles(banks, j, i, m, n);
    }
    if p.rcode == 0 && Tiles(banks, p.choices, f, l) {
      assert HeldByChoice(banks, p.choices, f) && HeldByChoice(banks, p.choices, l);
      var j: nat, i: nat :| j < |banks| && i < |banks[j].start| && Chosen(p.choices[j], i) && Holds(banks, j, i, f);
      var m: nat, n: nat :| m < |banks| && n < |banks[m].start| && Chosen(p.choices[m], n) && Holds(banks, m, n, l);
      assert f <= banks[0 + j].start[i] && SectorEnd(banks[0 + m], n) <= l;
      StartIs(banks, 0, j, i);
      FinishIs(banks, 0, m, n);
    }
  }

  // ---- which ranges are accepted ----------------------------------------------------------

  ghost predicate BeyondFrom(banks: seq<Bank>, k: nat, l: nat)
    requires AllProper(banks) && k <= |banks|
    decreases |banks| - k
  {
    k < |banks| ==> (banks[k].known ==> BankEnd(banks[k]) < l) && BeyondFrom(banks, k + 1, l)
  }

  /** The range ends above every detected bank. */
  ghost predicate Beyond(banks: seq<Bank>, l: nat)
    requires AllProper(banks)
  {
    BeyondFrom(banks, 0, l)
  }

  lemma {:induction false} BeyondMeans(banks: seq<Bank>, k: nat, l: nat)
    requires AllProper(banks) && k <= |banks|
    ensures BeyondFrom(banks, k, l) <==> forall m: nat :: k <= m < |banks| && banks[m].known ==> BankEnd(banks[m]) < l
    decreases |banks| - k
  {
    if k == |banks| {
    } else {
      BeyondMeans(banks, k + 1, l);
    }
  }

  /** Later contiguous banks lie above `next`: no sector of theirs starts or ends below it. */
  lemma {:induction false} LaterAbove(banks: seq<Bank>, k: nat, next: int, f: nat, l: nat)
    requires AllProper(banks) && k <= |banks| && next >= 0 && ContiguousFrom(banks, k, next)
    ensures StartFrom(banks, k, f) ==> f >= next
    ensures FinishFrom(banks, k, l) ==> l >= next
    decreases |banks| - k
  {
    hide Proper;
    if k == |banks| {
    } else if !banks[k].known {
      LaterAbove(banks, k + 1, next, f, l);
    } else {
      BankAbove(banks[k], f, l);
      LaterAbove(banks, k + 1, BankEnd(banks[k]) + 1, f, l);
    }
  }

  /** The sectors of a bank start and end between its own start and end. */
  lemma BankAbove(b: Bank, f: nat, l: nat)
    requires Proper(b)
    ensures |b.start| > 0 && 0 <= b.start[0] <= BankEnd(b)
    ensures StartsIn(b, f) ==> b.start[0] <= f <= BankEnd(b)
    ensures FinishesIn(b, l) ==> b.start[0] <= l <= BankEnd(b)
  {
    if StartsIn(b, f) {
      var i: nat :| i < |b.start| && b.start[i] == f;
      SectorsAscend(b, i, |b.start| - 1);
    }
    if FinishesIn(b, l) {
      var n: nat :| n < |b.start| && SectorEnd(b, n) == l;
      SectorsAscend(b, n, |b.start| - 1);
    }
  }

  /** A bank in which the range starts: what becomes of it. */
  lemma JudgeStart(b: Bank, f: nat, l: nat)
    requires Proper(b) && f <= l < ULONG && First(b, f) >= 0
    ensures l > BankEnd(b) ==> Judge(b, f, l) == Go(Choice(First(b, f), |b.start| - 1), BankEnd(b) + 1)
    ensures l <= BankEnd(b) && Last(b, l) < 0 ==> Judge(b, f, l).Fail?
    ensures l <= BankEnd(b) && Last(b, l) >= 0 ==>
      Last(b, l) < |b.start| && Judge(b, f, l) == Go(Choice(First(b, f), Last(b, l)), NextAddress(b, Last(b, l)))
  {
    var s, t := First(b, f), Last(b, l);
    if l > BankEnd(b) {
      forall x: nat | x < |b.start| ensures SectorEnd(b, x) < l { SectorsAscend(b, x, |b.start| - 1); }
      Unwrapped(BankEnd(b) + 1);
    } else if t >= 0 && t < s {
      SectorsAscend(b, t, s);
    }
  }

  /** A bank in which the range does not start is refused or passed over. */
  lemma JudgeNoStart(b: Bank, f: nat, l: nat)
    requires Proper(b) && First(b, f) < 0
    ensures Judge(b, f, l).Fail? || Judge(b, f, l) == Go(NONE, f)
    ensures Last(b, l) < 0 && f > BankEnd(b) ==> Judge(b, f, l) == Go(NONE, f)
    ensures Judge(b, f, l) == Go(NONE, f) ==> Last(b, l) < 0
  {}

  lemma FirstIsStart(b: Bank, f: nat, l: nat)
    requires Proper(b) && b.known
    ensures First(b, f) >= 0 <==> StartsIn(b, f)
    ensures Last(b, l) >= 0 <==> FinishesIn(b, l)
    ensures First(b, f) < |b.start| && Last(b, l) < |b.start|
    ensures Last(b, l) >= 0 ==> SectorEnd(b, Last(b, l)) == l
  {}

  lemma {:induction false} CountNotNegative(banks: seq<Bank>, k: nat, f: nat, l: nat)
    requires AllProper(banks) && k <= |banks|
    ensures PlanFrom(banks, k, f, l).count >= 0
    decreases |banks| - k
  {
    if k == |banks| || f > l {
    } else if !banks[k].known {
      CountNotNegative(banks, k + 1, f, l);
    } else {
      match Judge(banks[k], f, l)
      case Fail(c) =>
      case Go(c, next) =>
        JudgeKeeps(banks[k], f, l);
        CountNotNegative(banks, k + 1, next, l);
    }
  }

  /** A bank in which the range ends, at a sector end, is the last one looked at. */
  lemma NothingAfter(banks: seq<Bank>, k: nat, n: nat)
    requires AllProper(banks) && k < |banks| && banks[k].known && n < |banks[k].start|
    requires ContiguousFrom(banks, k + 1, BankEnd(banks[k]) + 1) && SectorEnd(banks[k], n) >= 0
    ensures PlanFrom(banks, k + 1, NextAddress(banks[k], n), SectorEnd(banks[k], n)) == Plan(0, Nones(|banks| - k - 1), 0)
  {
    WrapIsLast(banks, k, n);
    NoneKnown(banks, k + 1, NextAddress(banks[k], n), SectorEnd(banks[k], n));
  }

  /** A range that goes on at the start of the next bank is accepted exactly when it ends
      at a sector end or beyond all banks. */
  lemma {:induction false} GoesOn(banks: seq<Bank>, k: nat, next: nat, l: nat)
    requires AllProper(banks) && k <= |banks| && ContiguousFrom(banks, k, next) && next <= l < ULONG
    ensures PlanFrom(banks, k, next, l).rcode == 0 <==> FinishFrom(banks, k, l) || BeyondFrom(banks, k, l)
    decreases |banks| - k
  {
    hide Judge, NextAddress, FinishesIn, StartsIn, Proper;
    if k == |banks| {
    } else if !banks[k].known {
      hide FinishesIn;
      GoesOn(banks, k + 1, next, l);
      UnknownFinish(banks[k], l);
    } else {
      var b := banks[k];
      StartsAtZero(b);
      FirstIsStart(b, next, l);
      JudgeStart(b, next, l);
      BankAbove(b, next, l);
      LaterAbove(banks, k + 1, BankEnd(b) + 1, next, l);
      if l > BankEnd(b) {
        GoesOn(banks, k + 1, BankEnd(b) + 1, l);
      } else if Last(b, l) >= 0 {
        NothingAfter(banks, k, Last(b, l));
      }
    }
  }

  lemma UnknownFinish(b: Bank, l: nat)
    requires !b.known
    ensures !FinishesIn(b, l) && !StartsIn(b, l)
  {}

  lemma StartsAtZero(b: Bank)
    requires Proper(b) && b.known
    ensures |b.start| > 0 && b.start[0] >= 0 && StartsIn(b, b.start[0])
  {}

  /** From bank `k` on: something is selected without error exactly when the range starts
      at a sector start and ends at a sector end or beyond all banks. */
  lemma {:induction false} AcceptedFrom(banks: seq<Bank>, k: nat, next: int, f: nat, l: nat)
    requires AllProper(banks) && k <= |banks| && ContiguousFrom(banks, k, next) && f <= l < ULONG
    ensures var p := PlanFrom(banks, k, f, l);
            p.rcode == 0 && p.count > 0 <==> StartFrom(banks, k, f) && (FinishFrom(banks, k, l) || BeyondFrom(banks, k, l))
    decreases |banks| - k
  {
    hide Judge, NextAddress, FinishesIn, StartsIn, Proper;
    if k == |banks| {
    } else if !banks[k].known {
      AcceptedFrom(banks, k + 1, next, f, l);
      UnknownFinish(banks[k], f);
      UnknownFinish(banks[k], l);
    } else {
      var b := banks[k];
      FirstIsStart(b, f, l);
      BankAbove(b, f, l);
      LaterAbove(banks, k + 1, BankEnd(b) + 1, f, l);
      if First(b, f) >= 0 {
        JudgeStart(b, f, l);
        if l > BankEnd(b) {
          GoesOn(banks, k + 1, BankEnd(b) + 1, l);
          CountNotNegative(banks, k + 1, BankEnd(b) + 1, l);
        } else if Last(b, l) >= 0 {
          NothingAfter(banks, k, Last(b, l));
          StartBeforeEnd(b, f, l);
        }
      } else {
        JudgeNoStart(b, f, l);
        if Judge(b, f, l).Go? {
          AcceptedFrom(banks, k + 1, BankEnd(b) + 1, f, l);
        }
      }
    }
  }

  lemma StartBeforeEnd(b: Bank, f: nat, l: nat)
    requires Proper(b) && f <= l && First(b, f) >= 0 && Last(b, l) >= 0
    ensures First(b, f) <= Last(b, l)
  {
    if Last(b, l) < First(b, f) {
      SectorsAscend(b, Last(b, l), First(b, f));
    }
  }

  /** On contiguous banks a range is accepted, with something selected, if and only if it
      starts at a sector start and ends at a sector end or beyond the last bank. */
  lemma AcceptedExactly(banks: seq<Bank>, f: nat, l: nat)
    requires AllProper(banks) && ContiguousFrom(banks, 0, -1) && f <= l < ULONG
    ensures var p := PlanFrom(banks, 0, f, l);
            p.rcode == 0 && p.count > 0 <==> SectorStart(banks, f) && (SectorFinish(banks, l) || Beyond(banks, l))
  {
    hide PlanFrom, StartFrom, FinishFrom, BeyondFrom;
    AcceptedFrom(banks, 0, -1, f, l);
  }

  /** An accepted plan tiles its range if and only if the range does not run past the end
      of the last bank. */
  lemma AcceptedTiles(banks: seq<Bank>, f: nat, l: nat)
    requires AllProper(banks) && ContiguousFrom(banks, 0, -1) && f <= l < ULONG
    requires var p := PlanFrom(banks, 0, f, l); p.rcode == 0 && p.count > 0
    ensures Tiles(banks, PlanFrom(banks, 0, f, l).choices, f, l) <==> !Beyond(banks, l)
  {
    hide PlanFrom, Tiles, StartFrom, FinishFrom, BeyondFrom;
    AcceptedExactly(banks, f, l);
    TiledExactly(banks, f, l);
    BeyondMeans(banks, 0, l);
    if SectorFinish(banks, l) {
      var m, n := FinishFound(banks, 0, l);
      SectorsAscend(banks[m], n, |banks[m].start| - 1);
    }
  }

  /** One bank of two sectors, and a range twice as long: accepted, both sectors are
      selected, and half the range is not covered. */
  lemma ShortExample() returns (banks: seq<Bank>, f: nat, l: nat)
    ensures AllProper(banks) && ContiguousFrom(banks, 0, -1) && f <= l < ULONG
    ensures var p := PlanFrom(banks, 0, f, l);
            p.rcode == 0 && p.count > 0 && !Tiles(banks, p.choices, f, l)
  {
    var b := Bank(true, [0, 0x8000], 0x1_0000);
    banks, f, l := [b], 0, 0x1_FFFF;
    assert Proper(b);
    assert ContiguousFrom(banks, 1, BankEnd(b) + 1);
    StartIs(banks, 0, 0, 0);
    assert BeyondFrom(banks, 1, l);
    hide PlanFrom, Tiles, StartFrom, FinishFrom;
    AcceptedExactly(banks, f, l);
    AcceptedTiles(banks, f, l);
  }

  /** Whatever is accepted on contiguous banks selects exactly the sectors that lie in the
      range, also when it runs past the end. */
  lemma {:induction false} CoveredBeyond(banks: seq<Bank>, k: nat, next: int, j: nat, i: nat, l: nat)
    requires AllProper(banks) && k <= j < |banks| && ContiguousFrom(banks, k, next)
    requires banks[j].known && i < |banks[j].start| && 0 <= banks[j].start[i] <= l < ULONG && BeyondFrom(banks, k, l)
    ensures var f := banks[j].start[i];
            Exact(banks, k, PlanFrom(banks, k, f, l).choices, f, l)
    decreases |banks| - k
  {
    hide Judge, Wanted, Chosen, Exact, NextAddress, Proper;
    var b := banks[k];
    var f := banks[j].start[i];
    if !b.known {
      CoveredBeyond(banks, k + 1, next, j, i, l);
      UnknownBank(b, f, l);
      ExactCons(banks, k, NONE, PlanFrom(banks, k + 1, f, l).choices, f, f, l);
    } else if j > k {
      StartIn(banks[j], i);
      BankAbove(b, f, l);
      LaterIsHigher(banks, k + 1, BankEnd(b) + 1, j);
      BeforeRange(b, f, l);
      CoveredBeyond(banks, k + 1, BankEnd(b) + 1, j, i, l);
      NoneIsChosen(b, f, l);
      ExactCons(banks, k, NONE, PlanFrom(banks, k + 1, f, l).choices, f, f, l);
    } else {
      StartIn(b, i);
      FromBank(b, i, l);
      SameWanted(banks, k, f, l);
      RestBeyond(banks, k + 1, BankEnd(b) + 1, l);
      ExactCons(banks, k, Choice(i, |b.start| - 1), PlanFrom(banks, k + 1, BankEnd(b) + 1, l).choices, f, BankEnd(b) + 1, l);
    }
  }

  lemma StartIn(b: Bank, i: nat)
    requires Proper(b) && i < |b.start|
    ensures b.start[0] <= b.start[i] <= BankEnd(b)
  {
    SectorsAscend(b, i, |b.start| - 1);
  }

  lemma {:induction false} RestBeyond(banks: seq<Bank>, k: nat, next: nat, l: nat)
    requires AllProper(banks) && k <= |banks| && ContiguousFrom(banks, k, next) && next <= l < ULONG && BeyondFrom(banks, k, l)
    ensures Exact(banks, k, PlanFrom(banks, k, next, l).choices, next, l)
    decreases |banks| - k
  {
    hide Judge, Wanted, Chosen, NextAddress, Proper;
    if k == |banks| {
    } else {
      hide Exact;
      var b := banks[k];
      if !b.known {
        RestBeyond(banks, k + 1, next, l);
        UnknownBank(b, next, l);
        ExactCons(banks, k, NONE, PlanFrom(banks, k + 1, next, l).choices, next, next, l);
      } else {
        StartsAtZero(b);
        StartIn(b, 0);
        FromBank(b, 0, l);
        SameWanted(banks, k, next, l);
        RestBeyond(banks, k + 1, BankEnd(b) + 1, l);
        ExactCons(banks, k, Choice(0, |b.start| - 1), PlanFrom(banks, k + 1, BankEnd(b) + 1, l).choices, next, BankEnd(b) + 1, l);
      }
    }
  }

  /** An accepted plan on contiguous banks selects exactly the sectors in its range. */
  lemma AcceptedIsExact(banks: seq<Bank>, f: nat, l: nat)
    requires AllProper(banks) && ContiguousFrom(banks, 0, -1) && f <= l < ULONG
    requires var p := PlanFrom(banks, 0, f, l); p.rcode == 0 && p.count > 0
    ensures Exact(banks, 0, PlanFrom(banks, 0, f, l).choices, f, l)
  {
    hide PlanFrom, Exact, ContiguousFrom, BeyondFrom, StartFrom, FinishFrom;
    AcceptedExactly(banks, f, l);
    var j, i := StartFound(banks, 0, f);
    if SectorFinish(banks, l) {
      var m, n := FinishFound(banks, 0, l);
      Covered(banks, 0, -1, j, i, m, n);
    } else {
      CoveredBeyond(banks, 0, -1, j, i, l);
    }
  }
}
