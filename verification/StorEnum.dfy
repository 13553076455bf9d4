/** Storage enumeration through API_dev_enum: a cookie and two flags per group. */
module StorEnum {
  const NULL := 0

  /** A device slot of a storage group; `id` is the address of the block descriptor. */
  datatype Slot = Empty | Dev(id: int, active: bool)

  /** A storage group (ide, usb, scsi, mmc, sata); one that is not configured has no slots. */
  datatype Group = Group(configured: bool, slots: seq<Slot>)

  function BlkGetDev(s: Slot): int { if s.Dev? then s.id else NULL }

  /** There is a device in slot `i` of group `g`. */
  predicate DevAt(groups: seq<Group>, g: int, i: int)
  {
    0 <= g < |groups| && 0 <= i < |groups[g].slots| && groups[g].slots[i].Dev?
  }

  function IdAt(groups: seq<Group>, g: int, i: int): int
    requires DevAt(groups, g, i)
  {
    groups[g].slots[i].id
  }

  /** Descriptors are real, different from each other and from the network device. */
  ghost predicate Distinct(groups: seq<Group>, net: int)
  {
    && (forall g :: 0 <= g < |groups| && !groups[g].configured ==> groups[g].slots == [])
    && (forall g, i :: DevAt(groups, g, i) ==> IdAt(groups, g, i) != NULL && IdAt(groups, g, i) != net)
    && (forall g, i, h, j :: DevAt(groups, g, i) && DevAt(groups, h, j) && IdAt(groups, g, i) == IdAt(groups, h, j) ==>
        g == h && i == j)
  }

  // ---- what an enumeration yields --------------------------------------------------------

  /** The devices still to come when scanning of group `g` goes on at slot `i`.  An
      inactive device ends the group and leaves its own cookie behind. */
  function From(groups: seq<Group>, g: nat, i: nat): seq<int>
    requires g < |groups| && i <= |groups[g].slots|
    decreases |groups| - g, 0, |groups[g].slots| - i
  {
    var slots := groups[g].slots;
    if i == |slots| then Listing(groups, g + 1, false)
    else match slots[i]
      case Empty => From(groups, g, i + 1)
      case Dev(id, active) => if active then [id] + From(groups, g, i + 1) else Listing(groups, g + 1, true)
  }

  /** The devices to come from group `g` on.  A cookie that is foreign to a configured
      group makes the search in that group run to its end: the group is passed over, and
      the cookie is NULL again. */
  function Listing(groups: seq<Group>, g: nat, foreign: bool): seq<int>
    requires g <= |groups|
    decreases |groups| - g, 1
  {
    if g == |groups| then []
    else if !groups[g].configured then Listing(groups, g + 1, foreign)
    else if foreign then Listing(groups, g + 1, false)
    else From(groups, g, 0)
  }

  /** The whole enumeration: the network device first, then storage. */
  function Yield(groups: seq<Group>, net: int): seq<int>
  {
    if net != NULL then [net] + Listing(groups, 0, true) else Listing(groups, 0, false)
  }

  /** The first device at or after slot `k`, or the number of slots. */
  function NextDev(slots: seq<Slot>, k: nat): (n: nat)
    requires k <= |slots|
    ensures k <= n <= |slots| && (n < |slots| ==> slots[n].Dev?)
    decreases |slots| - k
  {
    if k == |slots| || slots[k].Dev? then k else NextDev(slots, k + 1)
  }

  lemma {:induction false} FromNext(groups: seq<Group>, g: nat, k: nat)
    requires g < |groups| && k <= |groups[g].slots|
    ensures From(groups, g, k) == From(groups, g, NextDev(groups[g].slots, k))
    decreases |groups[g].slots| - k
  {
    if k == |groups[g].slots| || groups[g].slots[k].Dev? {
    } else {
      FromNext(groups, g, k + 1);
    }
  }

  class Enumerator {
    const groups: seq<Group>
    const net: int              // the current network device, or NULL
    var started: seq<bool>      // specs[].enum_started
    var ended: seq<bool>        // specs[].enum_ended
    var cookie: int             // di->cookie

    constructor (groups: seq<Group>, net: int, started: seq<bool>, ended: seq<bool>)
      requires Distinct(groups, net) && |started| == |ended| == |groups|
      ensures this.groups == groups && this.net == net && cookie == NULL && Shape()
    {
      this.groups, this.net, this.started, this.ended, cookie := groups, net, started, ended, NULL;
    }

    ghost predicate Shape()
      reads this
    {
      |started| == |ended| == |groups| && Distinct(groups, net)
    }

    /** dev_stor_type: the group that the cookie belongs to, or the number of groups. */
    method StorType() returns (t: nat)
      requires cookie != NULL
      ensures t <= |groups|
      ensures t < |groups| ==> exists j :: DevAt(groups, t, j) && IdAt(groups, t, j) == cookie
      ensures forall g, j :: g < t && DevAt(groups, g, j) ==> IdAt(groups, g, j) != cookie
    {
      for i := 0 to |groups|
        invariant forall g, j :: g < i && DevAt(groups, g, j) ==> IdAt(groups, g, j) != cookie
      {
        for j := 0 to |groups[i].slots|
          invariant forall k :: k < j && DevAt(groups, i, k) ==> IdAt(groups, i, k) != cookie
        {
          if cookie == BlkGetDev(groups[i].slots[j]) {
            assert DevAt(groups, i, j);
            return i;
          }
        }
      }
      return |groups|;
    }

    /** Where dev_stor_get resumes in group `g`: at its start, after the device that the
        cookie names, or past its end when the cookie is foreign. */
    ghost predicate Resumes(g: nat, k: nat)
      reads this`cookie
    {
      && g < |groups| && k <= |groups[g].slots|
      && if cookie == NULL then k == 0
         else if k > 0 && DevAt(groups, g, k - 1) && IdAt(groups, g, k - 1) == cookie then true
         else k == |groups[g].slots| && forall j :: DevAt(groups, g, j) ==> IdAt(groups, g, j) != cookie
    }

    /** dev_stor_get */
    method StorGet(g: nat, ghost k: nat) returns (found: bool, more: bool)
      requires Shape() && g < |groups| && Resumes(g, k)
      modifies this`cookie
      ensures !groups[g].configured ==> !found && !more && cookie == old(cookie)
      ensures groups[g].configured ==>
        var slots := groups[g].slots;
        var n := NextDev(slots, k);
        && more == (n < |slots|)
        && found == (n < |slots| && slots[n].active)
        && cookie == (if n < |slots| then slots[n].id else NULL)
    {
      if !groups[g].configured {
        return false, false;
      }
      var slots := groups[g].slots;
      var i := 0;
      if cookie != NULL {
        while i < |slots|
          invariant 0 <= i <= |slots|
          invariant i < k || i == |slots| == k
          invariant forall j :: 0 <= j < i && slots[j].Dev? ==> slots[j].id != cookie
        {
          if cookie == BlkGetDev(slots[i]) {
            assert DevAt(groups, g, i) && IdAt(groups, g, i) == cookie;
            i := i + 1;
            break;
          }
          i := i + 1;
        }
      }
      assert i == k;
      found := false;
      while i < |slots|
        invariant k <= i <= |slots| && NextDev(slots, i) == NextDev(slots, k)
        invariant !found
      {
        cookie := BlkGetDev(slots[i]);
        assert slots[i].Dev? ==> DevAt(groups, g, i);
        if cookie != NULL {
          found := true;
          break;
        }
        i := i + 1;
      }
      more := i != |slots|;
      if found {
        if !slots[i].active {
          found := false;
        }
      } else {
        cookie := NULL;
      }
    }

    /** Groups before `k` have been started, groups from `k` on not touched. */
    ghost predicate Touched(k: nat)
      reads this
    {
      && Shape() && k <= |groups|
      && (forall q :: 0 <= q < k ==> started[q])
      && (forall q :: k <= q < |groups| ==> !started[q] && !ended[q])
    }

    /** The scan is about to enter group `k`, and `rem` is what will come: the cookie is
        NULL, or it is foreign to all groups from `k` on. */
    ghost predicate Ready(k: nat, rem: seq<int>)
      reads this
    {
      && Touched(k)
      && if cookie == NULL then rem == Listing(groups, k, false)
         else rem == Listing(groups, k, true) && forall g, i :: k <= g && DevAt(groups, g, i) ==> IdAt(groups, g, i) != cookie
    }

    /** The cookie is the device yielded last, in slot `p` of group `g`. */
    ghost predicate Yielded(g: nat, p: nat, rem: seq<int>)
      reads this
    {
      && Touched(g + 1) && !ended[g]
      && DevAt(groups, g, p) && groups[g].slots[p].active && cookie == IdAt(groups, g, p)
      && groups[g].configured && rem == From(groups, g, p + 1)
    }

    /** dev_enum_stor */
    method EnumStor(k: nat, ghost resume: nat) returns (found: bool)
      requires Shape() && k < |groups| && Resumes(k, resume)
      modifies this
      ensures Shape()
      ensures forall q :: 0 <= q < |groups| && q != k ==> started[q] == old(started[q]) && ended[q] == old(ended[q])
      ensures var isOurs := exists j :: DevAt(groups, k, j) && IdAt(groups, k, j) == old(cookie);
              if old(cookie) != NULL && (old(ended[k]) || (!isOurs && old(started[k]))) then
                !found && cookie == old(cookie) && started[k] == old(started[k]) && ended[k]
              else
                var n := NextDev(groups[k].slots, resume);
                && started[k] == (old(started[k]) || old(cookie) == NULL || !isOurs)
                && if groups[k].configured then
                     found == (n < |groups[k].slots| && groups[k].slots[n].active)
                     && cookie == (if n < |groups[k].slots| then groups[k].slots[n].id else NULL)
                     && ended[k] == !(n < |groups[k].slots|)
                   else !found && cookie == old(cookie) && ended[k]
    {
      found := false;
      var more := false;
      if cookie == NULL {
        found, more := StorGet(k, resume);
        started := started[k := true];
      } else {
        var t := StorType();
        TypeIs(k, t);
        if t == k {
          if ended[k] {
            return false;
          }
          found, more := StorGet(k, resume);
        } else {
          if ended[k] {
            return false;
          }
          if !started[k] {
            started := started[k := true];
            found, more := StorGet(k, resume);
          } else {
            found, more := false, false;
          }
        }
      }
      ended := ended[k := !more];
    }

    lemma TypeIs(k: nat, t: nat)
      requires Distinct(groups, net) && k < |groups| && t <= |groups|
      requires t < |groups| ==> exists j :: DevAt(groups, t, j) && IdAt(groups, t, j) == cookie
      requires forall g, j :: g < t && DevAt(groups, g, j) ==> IdAt(groups, g, j) != cookie
      ensures t == k <==> exists j :: DevAt(groups, k, j) && IdAt(groups, k, j) == cookie
    {}

    /** Where the scan stands before group `i`: at or before the group `g0` of the device
        yielded last, or past it (`g0` is -1 when there is no such device). */
    ghost predicate Standing(i: nat, g0: int, p0: nat, rem: seq<int>)
      reads this
    {
      if i <= g0 then Yielded(g0, p0, rem) else Ready(i, rem)
    }

    /** One turn of dev_enum_storage. */
    method Visit(i: nat, ghost g0: int, ghost p0: nat, ghost rem: seq<int>) returns (found: bool, ghost p: nat)
      requires i < |groups| && Standing(i, g0, p0, rem)
      modifies this
      ensures found ==> rem != [] && cookie == rem[0] && Yielded(i, p, rem[1..])
      ensures !found ==> Standing(i + 1, g0, p0, rem)
    {
      ghost var slots := groups[i].slots;
      ghost var resume := if i == g0 then p0 + 1 else if cookie == NULL then 0 else |slots|;
      p := NextDev(slots, resume);
      FromNext(groups, i, resume);
      assert i != g0 && cookie != NULL ==> forall j :: DevAt(groups, i, j) ==> IdAt(groups, i, j) != cookie;
      found := EnumStor(i, resume);
      assert p < |slots| ==> DevAt(groups, i, p);
    }

    /** dev_enum_storage */
    method EnumStorage(ghost g0: int, ghost p0: nat, ghost rem: seq<int>) returns (found: bool, ghost g: nat, ghost p: nat)
      requires -1 <= g0 < |groups| && Standing(0, g0, p0, rem)
      modifies this
      ensures found ==> rem != [] && cookie == rem[0] && Yielded(g, p, rem[1..])
      ensures !found ==> rem == [] && Shape()
    {
      hide Listing, From;
      g, p := 0, 0;
      for i := 0 to |groups|
        invariant Standing(i, g0, p0, rem)
      {
        found, p := Visit(i, g0, p0, rem);
        if found {
          g := i;
          return;
        }
      }
      ListingEnds(groups);
      found := false;
    }

    /** Between calls: nothing yielded yet, the network device, or a storage device was. */
    ghost predicate Between(g: int, p: nat, rem: seq<int>)
      reads this
    {
      && Shape()
      && if cookie == NULL then rem == Yield(groups, net)
         else if g < 0 then g == -1 && Ready(0, rem)
         else Yielded(g, p, rem)
    }

    /** dev_enum_reset */
    method Reset()
      requires Shape()
      modifies this`started, this`ended
      ensures Touched(0)
    {
      started, ended := seq(|groups|, _ => false), seq(|groups|, _ => false);
    }

    /** API_dev_enum: the next cookie of the enumeration, or NULL at its end. */
    method DevEnum(ghost g: int, ghost p: nat, ghost rem: seq<int>) returns (ghost g': int, ghost p': nat)
      requires Between(g, p, rem)
      modifies this
      ensures rem == [] ==> cookie == NULL && Shape()
      ensures rem != [] ==> cookie == rem[0] != NULL && Between(g', p', rem[1..])
    {
      hide Listing, From;
      g', p' := g, p;
      if cookie == NULL {
        Reset();
        g' := -1;
        // dev_enum_net
        if net != NULL {
          cookie := net;
          return;
        }
      }
      var found;
      found, g', p' := EnumStorage(g', p', rem);
      if !found {
        cookie := NULL;
      }
    }
  }

  lemma ListingEnds(groups: seq<Group>)
    ensures Listing(groups, |groups|, false) == [] && Listing(groups, |groups|, true) == []
  {}

  /** Calls API_dev_enum from a NULL cookie until the cookie is NULL again. */
  method EnumerateAll(e: Enumerator) returns (cookies: seq<int>, calls: nat)
    requires e.Shape() && e.cookie == NULL
    modifies e
    ensures cookies == Yield(e.groups, e.net) && calls == |cookies| + 1
  {
    hide Yield, Enumerator.Between;
    ghost var rem := Yield(e.groups, e.net);
    ghost var g: int, p: nat := -1, 0;
    cookies, calls := [], 0;
    AtStart(e);
    while true
      invariant e.Between(g, p, rem) && calls == |cookies|
      invariant cookies + rem == Yield(e.groups, e.net)
      decreases |rem|
    {
      g, p := e.DevEnum(g, p, rem);
      calls := calls + 1;
      if e.cookie == NULL {
        break;
      }
      cookies := cookies + [e.cookie];
      rem := rem[1..];
    }
  }

  lemma AtStart(e: Enumerator)
    requires e.Shape() && e.cookie == NULL
    ensures e.Between(-1, 0, Yield(e.groups, e.net))
  {}

  // ---- which devices an enumeration reaches ---------------------------------------------

  /** Every active device, in group then slot order. */
  function ActiveFrom(groups: seq<Group>, g: nat, i: nat): seq<int>
    requires g < |groups| && i <= |groups[g].slots|
    decreases |groups| - g, 0, |groups[g].slots| - i
  {
    var slots := groups[g].slots;
    if i == |slots| then Active(groups, g + 1)
    else if slots[i].Dev? && slots[i].active then [slots[i].id] + ActiveFrom(groups, g, i + 1)
    else ActiveFrom(groups, g, i + 1)
  }

  function Active(groups: seq<Group>, g: nat): seq<int>
    requires g <= |groups|
    decreases |groups| - g, 1
  {
    if g == |groups| then [] else ActiveFrom(groups, g, 0)
  }

  predicate NoneActive(slots: seq<Slot>, i: nat)
  {
    forall j :: i <= j < |slots| && slots[j].Dev? ==> !slots[j].active
  }

  /** The first inactive device at or after slot `i`, or the number of slots. */
  function FirstInactive(slots: seq<Slot>, i: nat): (n: nat)
    requires i <= |slots|
    ensures i <= n <= |slots|
    decreases |slots| - i
  {
    if i == |slots| || (slots[i].Dev? && !slots[i].active) then i else FirstInactive(slots, i + 1)
  }

  /** No active device is hidden: none follows an inactive one in its group, and none is in
      the configured group after a group that is cut short (or after a network device). */
  predicate NothingHidden(groups: seq<Group>, g: nat, foreign: bool)
    requires g <= |groups|
    decreases |groups| - g
  {
    if g == |groups| then true
    else if !groups[g].configured then NothingHidden(groups, g + 1, foreign)
    else if foreign then NoneActive(groups[g].slots, 0) && NothingHidden(groups, g + 1, false)
    else
      var n := FirstInactive(groups[g].slots, 0);
      NoneActive(groups[g].slots, n) && NothingHidden(groups, g + 1, n < |groups[g].slots|)
  }

  lemma {:induction false} NoneActiveFrom(groups: seq<Group>, g: nat, i: nat)
    requires g < |groups| && i <= |groups[g].slots|
    ensures |Active(groups, g + 1)| <= |ActiveFrom(groups, g, i)|
    ensures |Active(groups, g + 1)| == |ActiveFrom(groups, g, i)| <==> NoneActive(groups[g].slots, i)
    ensures NoneActive(groups[g].slots, i) ==> ActiveFrom(groups, g, i) == Active(groups, g + 1)
    decreases |groups[g].slots| - i
  {
    if i == |groups[g].slots| {
    } else {
      NoneActiveFrom(groups, g, i + 1);
    }
  }

  /** What is reached is all there is exactly when nothing is hidden. */
  lemma {:induction false} ReachesAll(groups: seq<Group>, net: int, g: nat, foreign: bool)
    requires g <= |groups| && Distinct(groups, net)
    ensures var (l, a) := (Listing(groups, g, foreign), Active(groups, g));
            |l| <= |a| && (|l| == |a| <==> NothingHidden(groups, g, foreign)) && (NothingHidden(groups, g, foreign) ==> l == a)
    decreases |groups| - g, 1, 0
  {
    if g == |groups| {
    } else {
      if !groups[g].configured {
        ReachesAll(groups, net, g + 1, foreign);
      } else if foreign {
        ReachesAll(groups, net, g + 1, false);
        NoneActiveFrom(groups, g, 0);
      } else {
        ReachesAllFrom(groups, net, g, 0);
      }
    }
  }

  lemma {:induction false} ReachesAllFrom(groups: seq<Group>, net: int, g: nat, i: nat)
    requires g < |groups| && i <= |groups[g].slots| && Distinct(groups, net)
    ensures var (l, a) := (From(groups, g, i), ActiveFrom(groups, g, i));
            var n := FirstInactive(groups[g].slots, i);
            var clear := NoneActive(groups[g].slots, n) && NothingHidden(groups, g + 1, n < |groups[g].slots|);
            |l| <= |a| && (|l| == |a| <==> clear) && (clear ==> l == a)
    decreases |groups| - g, 0, |groups[g].slots| - i
  {
    var slots := groups[g].slots;
    if i == |slots| {
      ReachesAll(groups, net, g + 1, false);
    } else if slots[i].Dev? && !slots[i].active {
      ReachesAll(groups, net, g + 1, true);
      NoneActiveFrom(groups, g, i);
    } else {
      ReachesAllFrom(groups, net, g, i + 1);
    }
  }

  /** Without a network device, storage enumeration is complete if and only if nothing is
      hidden; with one, the first configured group has to be without active devices too. */
  lemma CompleteExactly(groups: seq<Group>, net: int)
    requires Distinct(groups, net)
    ensures Yield(groups, net) == (if net != NULL then [net] else []) + Active(groups, 0) <==>
            NothingHidden(groups, 0, net != NULL)
  {
    ReachesAll(groups, net, 0, net != NULL);
  }

  /** With no network device and no inactive device, all devices are reached. */
  lemma CompleteWhenAllActive(groups: seq<Group>)
    requires Distinct(groups, NULL) && forall g, i :: DevAt(groups, g, i) ==> groups[g].slots[i].active
    ensures Yield(groups, NULL) == Active(groups, 0)
  {
    AllActiveClear(groups, 0);
    ReachesAll(groups, NULL, 0, false);
  }

  lemma {:induction false} AllActiveClear(groups: seq<Group>, g: nat)
    requires g <= |groups| && forall h, i :: DevAt(groups, h, i) ==> groups[h].slots[i].active
    ensures NothingHidden(groups, g, false)
    decreases |groups| - g
  {
    if g == |groups| {
    } else {
      AllActiveClear(groups, g + 1);
      NoInactive(groups, g, 0);
    }
  }

  lemma {:induction false} NoInactive(groups: seq<Group>, g: nat, i: nat)
    requires g < |groups| && i <= |groups[g].slots| && forall h, j :: DevAt(groups, h, j) ==> groups[h].slots[j].active
    ensures FirstInactive(groups[g].slots, i) == |groups[g].slots|
    decreases |groups[g].slots| - i
  {
    if i == |groups[g].slots| {
    } else {
      assert groups[g].slots[i].Dev? ==> DevAt(groups, g, i);
      NoInactive(groups, g, i + 1);
    }
  }

  /** A network device hides the devices of the first configured group. */
  lemma NetworkHides() returns (groups: seq<Group>)
    ensures Distinct(groups, 7) && Active(groups, 0) == [1] && Yield(groups, 7) == [7] && Yield(groups, NULL) == [1]
  {
    groups := [Group(true, [Dev(1, true)])];
    assert Listing(groups, 1, false) == [] && Active(groups, 1) == [];
    assert From(groups, 0, 1) == [] && ActiveFrom(groups, 0, 1) == [];
    assert From(groups, 0, 0) == [1] && ActiveFrom(groups, 0, 0) == [1];
  }

  // ---- no device twice; every cookie can be opened ----------------------------------------

  /** The device that an id in the list stands for. */
  lemma {:induction false} ActiveIsDevice(groups: seq<Group>, g: nat, i: nat, k: nat) returns (h: nat, j: nat)
    requires g < |groups| && i <= |groups[g].slots| && k < |ActiveFrom(groups, g, i)|
    ensures DevAt(groups, h, j) && IdAt(groups, h, j) == ActiveFrom(groups, g, i)[k] && groups[h].slots[j].active
    ensures h > g || (h == g && j >= i)
    decreases |groups| - g, |groups[g].slots| - i
  {
    var slots := groups[g].slots;
    if i == |slots| {
      h, j := ActiveIsDevice(groups, g + 1, 0, k);
    } else if slots[i].Dev? && slots[i].active {
      if k == 0 {
        h, j := g, i;
      } else {
        h, j := ActiveIsDevice(groups, g, i + 1, k - 1);
      }
    } else {
      h, j := ActiveIsDevice(groups, g, i + 1, k);
    }
  }

  /** No active device is missing from the list. */
  lemma {:induction false} ActiveIsListed(groups: seq<Group>, g: nat, i: nat, h: nat, j: nat)
    requires g < |groups| && i <= |groups[g].slots|
    requires DevAt(groups, h, j) && groups[h].slots[j].active && (h > g || (h == g && j >= i))
    ensures IdAt(groups, h, j) in ActiveFrom(groups, g, i)
    decreases |groups| - g, |groups[g].slots| - i
  {
    if i == |groups[g].slots| {
      ActiveIsListed(groups, g + 1, 0, h, j);
    } else if h != g || j != i {
      ActiveIsListed(groups, g, i + 1, h, j);
    }
  }

  /** No device is listed twice. */
  lemma {:induction false} ActiveOnce(groups: seq<Group>, net: int, g: nat, i: nat, a: nat, b: nat)
    requires g < |groups| && i <= |groups[g].slots| && Distinct(groups, net) && a < b < |ActiveFrom(groups, g, i)|
    ensures ActiveFrom(groups, g, i)[a] != ActiveFrom(groups, g, i)[b]
    decreases |groups| - g, |groups[g].slots| - i
  {
    var slots := groups[g].slots;
    if i == |slots| {
      ActiveOnce(groups, net, g + 1, 0, a, b);
    } else if slots[i].Dev? && slots[i].active {
      if a == 0 {
        var h, j := ActiveIsDevice(groups, g, i + 1, b - 1);
        assert DevAt(groups, g, i);
      } else {
        ActiveOnce(groups, net, g, i + 1, a - 1, b - 1);
      }
    } else {
      ActiveOnce(groups, net, g, i + 1, a, b);
    }
  }

  /** dev_open_stor with dev_stor_is_valid: 0 for an active device, an error otherwise. */
  method OpenStor(e: Enumerator) returns (ok: bool)
    requires e.cookie != NULL && Distinct(e.groups, e.net)
    ensures ok <==> exists g, i :: DevAt(e.groups, g, i) && IdAt(e.groups, g, i) == e.cookie && e.groups[g].slots[i].active
  {
    var t := e.StorType();
    if t == |e.groups| {
      return false;
    }
    for i := 0 to |e.groups[t].slots|
      invariant forall j :: j < i && DevAt(e.groups, t, j) && IdAt(e.groups, t, j) == e.cookie ==> !e.groups[t].slots[j].active
    {
      if e.cookie == BlkGetDev(e.groups[t].slots[i]) {
        assert DevAt(e.groups, t, i) && IdAt(e.groups, t, i) == e.cookie;
        if e.groups[t].slots[i].active {
          return true;
        }
      }
    }
    return false;
  }

  /** Every storage cookie that is yielded names an active device, so it can be opened. */
  lemma {:induction false} YieldedIsActive(groups: seq<Group>, g: nat, foreign: bool, k: nat) returns (h: nat, j: nat)
    requires g <= |groups| && k < |Listing(groups, g, foreign)|
    ensures DevAt(groups, h, j) && IdAt(groups, h, j) == Listing(groups, g, foreign)[k] && groups[h].slots[j].active
    decreases |groups| - g, 1, 0
  {
    if !groups[g].configured {
      h, j := YieldedIsActive(groups, g + 1, foreign, k);
    } else if foreign {
      h, j := YieldedIsActive(groups, g + 1, false, k);
    } else {
      h, j := YieldedFrom(groups, g, 0, k);
    }
  }

  lemma {:induction false} YieldedFrom(groups: seq<Group>, g: nat, i: nat, k: nat) returns (h: nat, j: nat)
    requires g < |groups| && i <= |groups[g].slots| && k < |From(groups, g, i)|
    ensures DevAt(groups, h, j) && IdAt(groups, h, j) == From(groups, g, i)[k] && groups[h].slots[j].active
    decreases |groups| - g, 0, |groups[g].slots| - i
  {
    var slots := groups[g].slots;
    if i == |slots| {
      h, j := YieldedIsActive(groups, g + 1, false, k);
    } else if slots[i].Empty? {
      h, j := YieldedFrom(groups, g, i + 1, k);
    } else if !slots[i].active {
      h, j := YieldedIsActive(groups, g + 1, true, k);
    } else if k == 0 {
      h, j := g, i;
    } else {
      h, j := YieldedFrom(groups, g, i + 1, k - 1);
    }
  }
}
