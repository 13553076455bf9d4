/** The callers of the planner: rounding an end address up, and erasing by range. */
module FlashErase {
  import opened FlashPlan

  /** Sectors are listed properly wherever there are any. */
  ghost predicate Listed(banks: seq<Bank>)
  {
    forall k :: 0 <= k < |banks| ==> (banks[k].known <==> |banks[k].start| > 0) && (banks[k].known ==> Proper(banks[k]))
  }

  lemma ListedIsProper(banks: seq<Bank>)
    requires Listed(banks)
    ensures AllProper(banks)
  {}

  /** `rounded` is the end of the sector that holds `addr`. */
  ghost predicate RoundsTo(banks: seq<Bank>, addr: int, rounded: int)
  {
    exists k: nat, i: nat :: k < |banks| && i < |banks[k].start| && Holds(banks, k, i, addr) && rounded == SectorEnd(banks[k], i)
  }

  ghost predicate NotInFlash(banks: seq<Bank>, addr: int)
  {
    forall k: nat, i: nat :: k < |banks| && i < |banks[k].start| ==> !Holds(banks, k, i, addr)
  }

  /** flash_sect_roundb: the end of the sector that holds the address. */
  method SectRoundb(banks: seq<Bank>, addr: nat) returns (rcode: int, rounded: nat)
    requires Listed(banks)
    ensures rcode == 0 ==> RoundsTo(banks, addr, rounded)
    ensures rcode != 0 ==> rcode == 1 && rounded == addr && NotInFlash(banks, addr)
  {
    var found := false;
    rounded := addr;
    ghost var at, sector: nat := 0, 0;
    var bank := 0;
    while bank < |banks| && !found
      invariant 0 <= bank <= |banks|
      invariant found ==>
                  at < |banks| && sector < |banks[at].start| &&
                  Holds(banks, at, sector, addr) && rounded == SectorEnd(banks[at], sector)
      invariant !found ==>
                  rounded == addr &&
                  forall k: nat, i: nat :: k < bank && i < |banks[k].start| ==> !Holds(banks, k, i, addr)
      decreases |banks| - bank
    {
      var info := banks[bank];
      var i := 0;
      while i < |info.start| && !found
        invariant 0 <= i <= |info.start|
        invariant found ==>
                    at < |banks| && sector < |banks[at].start| &&
                    Holds(banks, at, sector, addr) && rounded == SectorEnd(banks[at], sector)
        invariant !found ==> rounded == addr && forall j: nat :: j < i ==> !Holds(banks, bank, j, addr)
        decreases |info.start| - i
      {
        var end := if i == |info.start| - 1 then info.start[0] + info.size - 1 else info.start[i + 1] - 1;
        if addr <= end && addr >= info.start[i] {
          found := true;
          at, sector := bank, i;
          if addr < end {
            rounded := end;
          }
        }
        i := i + 1;
      }
      bank := bank + 1;
    }
    if !found {
      return 1, rounded;
    }
    return 0, rounded;
  }

  /** addr_spec after the numbers are parsed: the end address, or the last address of a
      length rounded up to a sector end. */
  method AddrSpec(banks: seq<Bank>, first: nat, second: nat, lengthUsed: bool) returns (ok: bool, last: nat)
    requires Listed(banks) && first < ULONG && second < ULONG
    ensures !lengthUsed ==> ok && last == second
    ensures lengthUsed && ok ==> RoundsTo(banks, (first + second - 1) % ULONG, last)
    ensures lengthUsed && !ok ==> NotInFlash(banks, (first + second - 1) % ULONG)
  {
    ok, last := true, second;
    if lengthUsed {
      last := (first + second - 1) % ULONG;
      var rcode;
      rcode, last := SectRoundb(banks, last);
      if rcode > 0 {
        ok := false;
      }
    }
  }

  /** Sector `x` of bank `q` has an address in [f, last]. */
  predicate Meets(b: Bank, x: nat, f: int, last: int)
    requires x < |b.start|
  {
    b.known && b.start[x] <= last && f <= SectorEnd(b, x)
  }

  /** The start-plus-length form on contiguous banks: when the start is a sector start and
      the last address lies in flash, exactly the sectors that meet the range are planned. */
  lemma LengthForm(banks: seq<Bank>, j: nat, i: nat, m: nat, n: nat, last: int)
    requires AllProper(banks) && ContiguousFrom(banks, 0, -1)
    requires j < |banks| && i < |banks[j].start| && banks[j].known && 0 <= banks[j].start[i] <= last
    requires m < |banks| && n < |banks[m].start| && Holds(banks, m, n, last)
    ensures var f := banks[j].start[i];
            var p := PlanFrom(banks, 0, f, SectorEnd(banks[m], n));
            && p.rcode == 0
            && forall q: nat, x: nat :: q < |banks| && x < |banks[q].start| ==>
               (Chosen(p.choices[q], x) <==> Meets(banks[q], x, f, last))
  {
    hide PlanFrom, Chosen;
    var f, l := banks[j].start[i], SectorEnd(banks[m], n);
    var p := PlanFrom(banks, 0, f, l);
    Covered(banks, 0, -1, j, i, m, n);
    forall q: nat, x: nat | q < |banks| && x < |banks[q].start| ensures Chosen(p.choices[q], x) <==> Meets(banks[q], x, f, last) {
      assert Chosen(p.choices[q], x) <==> Wanted(banks[0 + q], x, f, l);
      if banks[q].known {
        WantedMeets(banks, j, i, m, n, last, q, x);
      }
    }
  }

  lemma WantedMeets(banks: seq<Bank>, j: nat, i: nat, m: nat, n: nat, last: int, q: nat, x: nat)
    requires AllProper(banks) && ContiguousFrom(banks, 0, -1)
    requires j < |banks| && i < |banks[j].start| && banks[j].known && 0 <= banks[j].start[i] <= last
    requires m < |banks| && n < |banks[m].start| && Holds(banks, m, n, last)
    requires q < |banks| && x < |banks[q].start| && banks[q].known
    ensures Wanted(banks[q], x, banks[j].start[i], SectorEnd(banks[m], n)) <==> Meets(banks[q], x, banks[j].start[i], last)
  {
    SectorsAscend(banks[q], x, x);
    SectorsAscend(banks[j], i, i);
    SectorsAscend(banks[m], n, n);
    if q < j || (q == j && x < i) { SectorsApart(banks, q, x, j, i); }
    if j < q || (q == j && i < x) { SectorsApart(banks, j, i, q, x); }
    if q < m || (q == m && x < n) { SectorsApart(banks, q, x, m, n); }
    if m < q || (q == m && n < x) { SectorsApart(banks, m, n, q, x); }
  }

  // ---- flash_sect_erase -----------------------------------------------------------------

  datatype Order = Order(bank: nat, first: int, last: int)

  /** The flash_erase calls for the banks from `k` on, up to the first that fails; bank
      `k` answers with outcome[k]. */
  function Orders(choices: seq<Choice>, outcome: seq<int>, k: nat): seq<Order>
    requires |outcome| == |choices| && k <= |choices|
    decreases |choices| - k
  {
    if k == |choices| then []
    else if choices[k].first < 0 then Orders(choices, outcome, k + 1)
    else [Order(k, choices[k].first, choices[k].last)] + if outcome[k] == 0 then Orders(choices, outcome, k + 1) else []
  }

  /** The return code of those calls. */
  function Result(choices: seq<Choice>, outcome: seq<int>, k: nat): int
    requires |outcome| == |choices| && k <= |choices|
    decreases |choices| - k
  {
    if k == |choices| then 0
    else if choices[k].first >= 0 && outcome[k] != 0 then outcome[k]
    else Result(choices, outcome, k + 1)
  }

  method SectErase(banks: seq<Bank>, first: nat, l: nat, outcome: seq<int>) returns (rcode: int, orders: seq<Order>, erased: int)
    requires AllProper(banks) && |outcome| == |banks|
    ensures var p := PlanFrom(banks, 0, first, l);
            if p.rcode != 0 then rcode == p.rcode && orders == []
            else if p.count == 0 then rcode == 1 && orders == []
            else rcode == Result(p.choices, outcome, 0) && orders == Orders(p.choices, outcome, 0)
                 && (rcode == 0 ==> erased == p.count)
    ensures var p := PlanFrom(banks, 0, first, l);
            p.rcode == 0 && p.count != 0 ==>
              InBankOrder(orders) && forall q: nat, i: int :: Erases(orders, q, i) <==>
                q < |banks| && Chosen(p.choices[q], i) && Served(p.choices, outcome, 0, q)
  {
    hide PlanFrom;
    var sFirst, sLast := new int[|banks|], new int[|banks|];
    var planned;
    orders, erased := [], 0;
    rcode, planned := FillSectRanges(banks, first, l, sFirst, sLast);
    ghost var p := PlanFrom(banks, 0, first, l);
    CountIsSelected(banks, 0, first, l);
    if planned != 0 && rcode == 0 {
      var bank := 0;
      assert p.choices[0..] == p.choices;
      while bank < |banks| && rcode == 0
        invariant 0 <= bank <= |banks|
        invariant rcode == 0 ==> orders + Orders(p.choices, outcome, bank) == Orders(p.choices, outcome, 0)
        invariant rcode == 0 ==> Result(p.choices, outcome, bank) == Result(p.choices, outcome, 0)
        invariant rcode == 0 ==> erased + Selected(p.choices[bank..]) == Selected(p.choices)
        invariant rcode != 0 ==> rcode == Result(p.choices, outcome, 0) && orders == Orders(p.choices, outcome, 0)
        decreases |banks| - bank
      {
        assert Choice(sFirst[bank], sLast[bank]) == p.choices[bank];
        assert p.choices[bank..][0] == p.choices[bank] && p.choices[bank..][1..] == p.choices[bank + 1..];
        if sFirst[bank] >= 0 {
          erased := erased + (sLast[bank] - sFirst[bank] + 1);
          orders := orders + [Order(bank, sFirst[bank], sLast[bank])];
          rcode := outcome[bank];
        }
        bank := bank + 1;
      }
      OrdersExactly(p.choices, outcome, 0);
    } else if rcode == 0 {
      rcode := 1;
    }
  }

  const CMD_RET_USAGE := -1

  /** Some flash_erase call covers sector `i` of bank `q`. */
  ghost predicate Erases(orders: seq<Order>, q: nat, i: int)
  {
    exists j :: 0 <= j < |orders| && orders[j].bank == q && orders[j].first <= i <= orders[j].last
  }

  /** Each bank is called at most once, lower banks first. */
  ghost predicate InBankOrder(orders: seq<Order>)
  {
    forall j, k :: 0 <= j < k < |orders| ==> orders[j].bank < orders[k].bank
  }

  /** No bank called between `k` and `q` has failed. */
  ghost predicate Served(choices: seq<Choice>, outcome: seq<int>, k: nat, q: nat)
    requires |outcome| == |choices|
  {
    forall p: nat :: k <= p < q && p < |choices| && choices[p].first >= 0 ==> outcome[p] == 0
  }

  /** The calls cover exactly the chosen sectors of the banks up to the first that fails. */
  lemma {:induction false} OrdersExactly(choices: seq<Choice>, outcome: seq<int>, k: nat)
    requires |outcome| == |choices| && k <= |choices|
    ensures InBankOrder(Orders(choices, outcome, k))
    ensures forall o :: o in Orders(choices, outcome, k) ==> o.bank >= k
    ensures forall q: nat, i: int :: Erases(Orders(choices, outcome, k), q, i) <==>
              k <= q < |choices| && Chosen(choices[q], i) && Served(choices, outcome, k, q)
    decreases |choices| - k
  {
    if k == |choices| {
    } else {
      OrdersExactly(choices, outcome, k + 1);
      OrdersStep(choices, outcome, k);
    }
  }

  lemma OrdersStep(choices: seq<Choice>, outcome: seq<int>, k: nat)
    requires |outcome| == |choices| && k < |choices|
    requires var rest := Orders(choices, outcome, k + 1);
             && InBankOrder(rest) && (forall o :: o in rest ==> o.bank >= k + 1)
             && forall q: nat, i: int :: Erases(rest, q, i) <==>
                  k + 1 <= q < |choices| && Chosen(choices[q], i) && Served(choices, outcome, k + 1, q)
    ensures InBankOrder(Orders(choices, outcome, k))
    ensures forall o :: o in Orders(choices, outcome, k) ==> o.bank >= k
    ensures forall q: nat, i: int :: Erases(Orders(choices, outcome, k), q, i) <==>
              k <= q < |choices| && Chosen(choices[q], i) && Served(choices, outcome, k, q)
  {
    var rest, c := Orders(choices, outcome, k + 1), choices[k];
    var all := Orders(choices, outcome, k);
    hide Orders;
    assert all == if c.first < 0 then rest else [Order(k, c.first, c.last)] + (if outcome[k] == 0 then rest else []) by {
      OrdersFirst(choices, outcome, k);
    }
    forall q: nat, i: int
      ensures Erases(all, q, i) <==> k <= q < |choices| && Chosen(choices[q], i) && Served(choices, outcome, k, q)
    {
      ServedStep(choices, outcome, k, q);
      ErasesCons(Order(k, c.first, c.last), rest, q, i);
      ErasesCons(Order(k, c.first, c.last), [], q, i);
    }
  }

  lemma OrdersFirst(choices: seq<Choice>, outcome: seq<int>, k: nat)
    requires |outcome| == |choices| && k < |choices|
    ensures var rest := Orders(choices, outcome, k + 1);
            Orders(choices, outcome, k) ==
            if choices[k].first < 0 then rest
            else [Order(k, choices[k].first, choices[k].last)] + (if outcome[k] == 0 then rest else [])
  {}

  lemma ServedStep(choices: seq<Choice>, outcome: seq<int>, k: nat, q: nat)
    requires |outcome| == |choices| && k < |choices|
    ensures Served(choices, outcome, k, q) <==>
            Served(choices, outcome, k + 1, q) && (k < q && choices[k].first >= 0 ==> outcome[k] == 0)
  {}

  lemma ErasesCons(o: Order, rest: seq<Order>, q: nat, i: int)
    ensures Erases([o] + rest, q, i) <==> (o.bank == q && o.first <= i <= o.last) || Erases(rest, q, i)
  {
    var all := [o] + rest;
    assert all[0] == o && all[1..] == rest;
    if Erases(rest, q, i) {
      var j :| 0 <= j < |rest| && rest[j].bank == q && rest[j].first <= i <= rest[j].last;
      assert all[j + 1] == rest[j];
    }
  }

  /** The return code is that of the first bank that fails. */
  lemma {:induction false} ResultExactly(choices: seq<Choice>, outcome: seq<int>, k: nat)
    requires |outcome| == |choices| && k <= |choices|
    ensures Result(choices, outcome, k) == 0 <==> Served(choices, outcome, k, |choices|)
    ensures Result(choices, outcome, k) != 0 ==>
      exists p: nat :: p < |choices| && choices[p].first >= 0 && outcome[p] == Result(choices, outcome, k)
                       && Served(choices, outcome, k, p)
    decreases |choices| - k
  {
    hide Served;
    if k == |choices| {
      ServedNone(choices, outcome, k);
    } else {
      ServedStep(choices, outcome, k, |choices|);
      ResultExactly(choices, outcome, k + 1);
      if choices[k].first >= 0 && outcome[k] != 0 {
        ServedNone(choices, outcome, k);
      } else if Result(choices, outcome, k + 1) != 0 {
        var p: nat :| p < |choices| && choices[p].first >= 0 && outcome[p] == Result(choices, outcome, k + 1)
                      && Served(choices, outcome, k + 1, p);
        ServedStep(choices, outcome, k, p);
      }
    }
  }

  lemma ServedNone(choices: seq<Choice>, outcome: seq<int>, k: nat)
    requires |outcome| == |choices|
    ensures Served(choices, outcome, k, k)
  {}

  /** Sector `i` of bank `k` holds the last address, and the range starts below its end. */
  ghost predicate EndsIn(banks: seq<Bank>, first: nat, addr: int)
  {
    exists k: nat, i: nat ::
      k < |banks| && i < |banks[k].start| && Holds(banks, k, i, addr) && first < SectorEnd(banks[k], i)
  }

  /** The range of the command is one that the planner accepts. */
  ghost predicate Erasable(banks: seq<Bank>, first: nat, second: nat, lengthUsed: bool)
    requires AllProper(banks)
  {
    && SectorStart(banks, first)
    && if lengthUsed then EndsIn(banks, first, (first + second - 1) % ULONG)
       else first < second && (SectorFinish(banks, second) || Beyond(banks, second))
  }

  /** The command asks for sector `i` of bank `q`: it lies in the range, or with a length it
      has an address in it. */
  ghost predicate Asked(banks: seq<Bank>, first: nat, second: nat, lengthUsed: bool, q: nat, i: int)
  {
    && q < |banks| && 0 <= i < |banks[q].start|
    && if lengthUsed then Meets(banks[q], i, first, (first + second - 1) % ULONG) else Wanted(banks[q], i, first, second)
  }

  /** The command asks for sectors of bank `p`, and erasing them fails. */
  ghost predicate Failing(banks: seq<Bank>, first: nat, second: nat, lengthUsed: bool, outcome: seq<int>, p: nat)
  {
    p < |outcome| && outcome[p] != 0 && exists i :: Asked(banks, first, second, lengthUsed, p, i)
  }

  /** No bank before `q` fails. */
  ghost predicate FineBefore(banks: seq<Bank>, first: nat, second: nat, lengthUsed: bool, outcome: seq<int>, q: nat)
  {
    forall p: nat :: p < q ==> !Failing(banks, first, second, lengthUsed, outcome, p)
  }

  /** Exactly the sectors asked for are erased, bank by bank, up to the first bank that
      fails, whose code is returned. */
  ghost predicate ErasedAsAsked(banks: seq<Bank>, first: nat, second: nat, lengthUsed: bool, outcome: seq<int>,
                                rcode: int, orders: seq<Order>)
  {
    && InBankOrder(orders)
    && (forall q: nat, i: int :: Erases(orders, q, i) <==>
          Asked(banks, first, second, lengthUsed, q, i) && FineBefore(banks, first, second, lengthUsed, outcome, q))
    && (rcode == 0 <==> FineBefore(banks, first, second, lengthUsed, outcome, |banks|))
    && (rcode != 0 ==>
          exists p: nat :: Failing(banks, first, second, lengthUsed, outcome, p) && outcome[p] == rcode
                           && FineBefore(banks, first, second, lengthUsed, outcome, p))
  }

  /** The choices of an accepted plan are sectors of their banks. */
  lemma {:induction false} ChoicesProper(banks: seq<Bank>, k: nat, f: nat, l: nat)
    requires AllProper(banks) && k <= |banks| && PlanFrom(banks, k, f, l).rcode == 0
    ensures var p := PlanFrom(banks, k, f, l);
            forall q: nat :: q < |p.choices| && p.choices[q].first >= 0 ==>
              p.choices[q].first <= p.choices[q].last < |banks[k + q].start|
    decreases |banks| - k
  {
    hide Judge;
    var p := PlanFrom(banks, k, f, l);
    if k == |banks| || f > l {
    } else {
      var next := if banks[k].known then Judge(banks[k], f, l).next else f;
      ChoicesProper(banks, k + 1, next, l);
      var rest := PlanFrom(banks, k + 1, next, l);
      if banks[k].known && Judge(banks[k], f, l).c.first >= 0 {
        JudgeForm(banks[k], f, l);
      }
      forall q: nat | q < |p.choices| && p.choices[q].first >= 0
        ensures p.choices[q].first <= p.choices[q].last < |banks[k + q].start|
      {
        if q > 0 {
          assert p.choices[q] == rest.choices[q - 1] && banks[k + q] == banks[(k + 1) + (q - 1)];
        }
      }
    }
  }

  /** The chosen sectors are the ones asked for. */
  lemma ChosenAsAsked(banks: seq<Bank>, first: nat, second: nat, lengthUsed: bool, l: nat)
    requires AllProper(banks) && ContiguousFrom(banks, 0, -1) && first <= l < ULONG && SectorStart(banks, first)
    requires var p := PlanFrom(banks, 0, first, l); p.rcode == 0 && p.count > 0
    requires if lengthUsed then RoundsTo(banks, (first + second - 1) % ULONG, l) && first < l else l == second
    ensures var p := PlanFrom(banks, 0, first, l);
            forall q: nat, i: int :: q < |banks| ==>
              (Chosen(p.choices[q], i) <==> Asked(banks, first, second, lengthUsed, q, i))
  {
    hide PlanFrom, ContiguousFrom, Wanted, Meets, Proper, StartFrom;
    AcceptedIsExact(banks, first, l);
    ChoicesProper(banks, 0, first, l);
    var p, addr := PlanFrom(banks, 0, first, l), (first + second - 1) % ULONG;
    forall q: nat, i: int | q < |banks|
      ensures Chosen(p.choices[q], i) <==> Asked(banks, first, second, lengthUsed, q, i)
    {
      assert p.choices[q].first >= 0 ==> p.choices[q].last < |banks[0 + q].start|;
      if 0 <= i < |banks[q].start| {
        assert Chosen(p.choices[q], i) <==> Wanted(banks[0 + q], i, first, l);
        if lengthUsed {
          MeetsRounded(banks, first, addr, l, q, i);
        }
      }
    }
  }

  /** What lies in the rounded range is what meets the range. */
  lemma MeetsRounded(banks: seq<Bank>, first: nat, addr: int, l: nat, q: nat, i: nat)
    requires AllProper(banks) && ContiguousFrom(banks, 0, -1) && SectorStart(banks, first)
    requires RoundsTo(banks, addr, l) && first < l && q < |banks| && i < |banks[q].start|
    ensures Wanted(banks[q], i, first, l) <==> Meets(banks[q], i, first, addr)
  {
    hide ContiguousFrom, Proper, StartFrom;
    var j, x := StartFound(banks, 0, first);
    var m: nat, n: nat :| m < |banks| && n < |banks[m].start| && Holds(banks, m, n, addr) && l == SectorEnd(banks[m], n);
    if banks[q].known {
      StartsBelow(banks, j, x, m, n, addr);
      WantedMeets(banks, j, x, m, n, addr, q, i);
    }
  }

  /** A sector start below the end of a sector is not above any address in it. */
  lemma StartsBelow(banks: seq<Bank>, j: nat, x: nat, m: nat, n: nat, addr: int)
    requires AllProper(banks) && ContiguousFrom(banks, 0, -1)
    requires j < |banks| && x < |banks[j].start| && banks[j].known && banks[j].start[x] >= 0
    requires m < |banks| && n < |banks[m].start| && Holds(banks, m, n, addr) && banks[j].start[x] < SectorEnd(banks[m], n)
    ensures banks[j].start[x] <= addr
  {
    if m < j || (m == j && n < x) {
      SectorsApart(banks, m, n, j, x);
    } else if j < m || (m == j && x < n) {
      SectorsAscend(banks[j], x, x);
      SectorsApart(banks, j, x, m, n);
    }
  }

  /** From the calls for an accepted plan to what was asked. */
  lemma OrdersAsAsked(banks: seq<Bank>, first: nat, second: nat, lengthUsed: bool, outcome: seq<int>, choices: seq<Choice>)
    requires |choices| == |outcome| == |banks|
    requires forall q: nat, i: int :: q < |banks| ==>
               (Chosen(choices[q], i) <==> Asked(banks, first, second, lengthUsed, q, i))
    requires forall q: nat :: q < |choices| && choices[q].first >= 0 ==> choices[q].first <= choices[q].last
    ensures ErasedAsAsked(banks, first, second, lengthUsed, outcome, Result(choices, outcome, 0), Orders(choices, outcome, 0))
  {
    hide Orders, Result, Asked, Served, Erases, InBankOrder;
    OrdersExactly(choices, outcome, 0);
    ResultExactly(choices, outcome, 0);
    forall q: nat | q <= |banks|
      ensures Served(choices, outcome, 0, q) <==> FineBefore(banks, first, second, lengthUsed, outcome, q)
    {
      FineIsServed(banks, first, second, lengthUsed, outcome, choices, q);
    }
    forall p: nat | p < |choices| && choices[p].first >= 0
      ensures exists i :: Asked(banks, first, second, lengthUsed, p, i)
    {
      assert Chosen(choices[p], choices[p].first);
    }
    assert forall q: nat, i: int :: Asked(banks, first, second, lengthUsed, q, i) ==> q < |banks| by {
      AskedInside(banks, first, second, lengthUsed);
    }
  }

  lemma AskedInside(banks: seq<Bank>, first: nat, second: nat, lengthUsed: bool)
    ensures forall q: nat, i: int :: Asked(banks, first, second, lengthUsed, q, i) ==> q < |banks|
  {}

  lemma FineIsServed(banks: seq<Bank>, first: nat, second: nat, lengthUsed: bool, outcome: seq<int>,
                     choices: seq<Choice>, q: nat)
    requires |choices| == |outcome| == |banks| && q <= |banks|
    requires forall q: nat, i: int :: q < |banks| ==>
               (Chosen(choices[q], i) <==> Asked(banks, first, second, lengthUsed, q, i))
    requires forall q: nat :: q < |choices| && choices[q].first >= 0 ==> choices[q].first <= choices[q].last
    ensures Served(choices, outcome, 0, q) <==> FineBefore(banks, first, second, lengthUsed, outcome, q)
  {
    hide Asked;
    forall p: nat | p < q
      ensures Failing(banks, first, second, lengthUsed, outcome, p) <==> choices[p].first >= 0 && outcome[p] != 0
    {
      if choices[p].first >= 0 {
        assert Chosen(choices[p], choices[p].first);
      }
      if exists i :: Asked(banks, first, second, lengthUsed, p, i) {
        var i :| Asked(banks, first, second, lengthUsed, p, i);
        assert Chosen(choices[p], i);
      }
    }
    if Served(choices, outcome, 0, q) {
      forall p: nat | p < q
        ensures !Failing(banks, first, second, lengthUsed, outcome, p)
      {
        assert choices[p].first >= 0 ==> outcome[p] == 0;
      }
    }
  }

  /** The erase command by address, its numbers already parsed.  On contiguous banks it is
      carried out if and only if it starts at a sector start and, given an end address, that
      lies above the start and is a sector end or beyond all banks; given a length, its last
      address lies in a sector that ends above the start.  Otherwise nothing is erased. */
  method EraseCommand(banks: seq<Bank>, first: nat, second: nat, lengthUsed: bool, outcome: seq<int>)
    returns (rcode: int, orders: seq<Order>)
    requires Listed(banks) && |outcome| == |banks| && first < ULONG && second < ULONG
    ensures AllProper(banks)
    ensures lengthUsed && NotInFlash(banks, (first + second - 1) % ULONG) ==> rcode == 1 && orders == []
    ensures ContiguousFrom(banks, 0, -1) ==>
      if Erasable(banks, first, second, lengthUsed)
      then ErasedAsAsked(banks, first, second, lengthUsed, outcome, rcode, orders)
      else rcode != 0 && orders == []
  {
    hide PlanFrom, SectorStart, SectorFinish, Beyond, Result, Orders, Listed, AllProper, RoundsTo, NotInFlash, EndsIn,
      ContiguousFrom, ErasedAsAsked;
    ListedIsProper(banks);
    var ok, last := AddrSpec(banks, first, second, lengthUsed);
    ghost var addr := (first + second - 1) % ULONG;
    RoundedIsInFlash(banks, addr, last);
    if ContiguousFrom(banks, 0, -1) {
      EndsExactly(banks, first, addr, last);
    }
    if !ok {
      return 1, [];
    }
    if first >= last {
      return CMD_RET_USAGE, [];
    }
    var erased;
    rcode, orders, erased := SectErase(banks, first, last, outcome);
    CountNotNegative(banks, 0, first, last);
    if ContiguousFrom(banks, 0, -1) {
      AcceptedExactly(banks, first, last);
      if Erasable(banks, first, second, lengthUsed) {
        AskedIsErased(banks, first, second, lengthUsed, outcome, last);
      }
    }
  }

  lemma AskedIsErased(banks: seq<Bank>, first: nat, second: nat, lengthUsed: bool, outcome: seq<int>, l: nat)
    requires AllProper(banks) && |outcome| == |banks| && ContiguousFrom(banks, 0, -1) && first < l < ULONG
    requires SectorStart(banks, first)
    requires var p := PlanFrom(banks, 0, first, l); p.rcode == 0 && p.count > 0
    requires if lengthUsed then RoundsTo(banks, (first + second - 1) % ULONG, l) else l == second
    ensures var c := PlanFrom(banks, 0, first, l).choices;
            ErasedAsAsked(banks, first, second, lengthUsed, outcome, Result(c, outcome, 0), Orders(c, outcome, 0))
  {
    hide PlanFrom, ContiguousFrom, ErasedAsAsked, RoundsTo, StartFrom, Asked, Chosen, Proper;
    ChosenAsAsked(banks, first, second, lengthUsed, l);
    ChoicesProper(banks, 0, first, l);
    OrdersAsAsked(banks, first, second, lengthUsed, outcome, PlanFrom(banks, 0, first, l).choices);
  }

  lemma RoundedIsInFlash(banks: seq<Bank>, addr: int, rounded: int)
    ensures RoundsTo(banks, addr, rounded) ==> !NotInFlash(banks, addr)
  {}

  /** The rounded end is a sector end below 2^32, and the only one. */
  lemma EndsExactly(banks: seq<Bank>, first: nat, addr: int, rounded: nat)
    requires AllProper(banks) && ContiguousFrom(banks, 0, -1)
    ensures NotInFlash(banks, addr) ==> !EndsIn(banks, first, addr)
    ensures RoundsTo(banks, addr, rounded) ==>
      SectorFinish(banks, rounded) && rounded < ULONG && (EndsIn(banks, first, addr) <==> first < rounded)
  {
    hide ContiguousFrom, Proper, SectorFinish;
    if RoundsTo(banks, addr, rounded) {
      var k: nat, i: nat :| k < |banks| && i < |banks[k].start| && Holds(banks, k, i, addr) && rounded == SectorEnd(banks[k], i);
      FinishAt(banks, k, i);
      if EndsIn(banks, first, addr) {
        var m: nat, n: nat :| m < |banks| && n < |banks[m].start| && Holds(banks, m, n, addr) && first < SectorEnd(banks[m], n);
        HeldOnce(banks, k, i, m, n, addr);
      }
    }
  }

  lemma FinishAt(banks: seq<Bank>, k: nat, i: nat)
    requires AllProper(banks) && k < |banks| && i < |banks[k].start| && banks[k].known && SectorEnd(banks[k], i) >= 0
    ensures SectorFinish(banks, SectorEnd(banks[k], i)) && SectorEnd(banks[k], i) < ULONG
  {
    hide FinishFrom;
    FinishIs(banks, 0, k, i);
    SectorsAscend(banks[k], i, |banks[k].start| - 1);
  }
}
