/** Memory descriptors, the comparison that sorts them, and qsort. */
module EfiSort {
  const U64 := 0x1_0000_0000_0000_0000
  const HALF := 0x8000_0000_0000_0000

  type U64Int = x: int | 0 <= x < U64

  datatype Desc = Desc(typ: int, start: U64Int, virt: U64Int, pages: U64Int, attribute: U64Int)

  /** A 64-bit difference read as a signed number. */
  function Signed64(x: int): int { (x + HALF) % U64 - HALF }

  /** h_cmp_entry */
  function Compare(d1: Desc, d2: Desc): int
  {
    var diff := Signed64(d1.start - d2.start);
    if diff < 0 then -1 else if diff > 0 then 1 else 0
  }

  function Sign(x: int): int { if x < 0 then -1 else if x > 0 then 1 else 0 }

  /** The comparison is right exactly when the first address is less than 2^63 above and at
      most 2^63 below the second. */
  lemma CompareExact(d1: Desc, d2: Desc)
    ensures Compare(d1, d2) == Sign(d1.start - d2.start) <==> -HALF <= d1.start - d2.start < HALF
  {
    var x := d1.start - d2.start;
    if x < -HALF {
      assert Signed64(x) == x + U64;
    } else if x < HALF {
      assert Signed64(x) == x;
    } else {
      assert Signed64(x) == x - U64;
    }
  }

  /** Further apart it does not even order them: three addresses in a circle. */
  lemma CompareCircular() returns (a: Desc, b: Desc, c: Desc)
    ensures Compare(a, b) < 0 && Compare(b, c) < 0 && Compare(c, a) < 0
  {
    a := Desc(0, 0, 0, 1, 0);
    b := Desc(0, 0x6000_0000_0000_0000, 0, 1, 0);
    c := Desc(0, 0xC000_0000_0000_0000, 0, 1, 0);
  }

  /** All addresses lie in one stretch of 2^63 that starts at `low`. */
  ghost predicate Near(s: seq<Desc>, low: int)
  {
    forall i :: 0 <= i < |s| ==> low <= s[i].start < low + HALF
  }

  predicate Sorted(s: seq<Desc>)
  {
    forall i, j :: 0 <= i < j < |s| ==> s[i].start <= s[j].start
  }

  /** Neighbours are in the order of the comparison. */
  predicate Linked(s: seq<Desc>)
  {
    forall i :: 0 <= i < |s| - 1 ==> Compare(s[i], s[i + 1]) <= 0
  }

  /** A comparison that asks for a swap is satisfied by it. */
  lemma CompareBack(d: Desc, e: Desc)
    requires Compare(d, e) > 0
    ensures Compare(e, d) < 0
  {
    var x := d.start - e.start;
    if x < -HALF {
      assert Signed64(x) == x + U64 && Signed64(-x) == -x - U64;
    } else {
      assert x < HALF ==> Signed64(x) == x && Signed64(-x) == -x;
      assert x >= HALF ==> Signed64(x) == x - U64;
    }
  }

  /** A neighbour in order is not smaller, unless it lies 2^63 or more below. */
  lemma CompareDrop(d: Desc, e: Desc)
    requires Compare(d, e) <= 0
    ensures d.start <= e.start || d.start - e.start >= HALF
  {
    var x := d.start - e.start;
    assert 0 < x < HALF ==> Signed64(x) == x;
  }

  /** What the comparison puts in order is sorted exactly when no address is followed by one
      2^63 or more below it. */
  lemma LinkedSorted(s: seq<Desc>)
    requires Linked(s)
    ensures Sorted(s) <==> forall i :: 0 <= i < |s| - 1 ==> s[i].start - s[i + 1].start < HALF
  {
    hide Compare;
    if forall i :: 0 <= i < |s| - 1 ==> s[i].start - s[i + 1].start < HALF {
      forall i | 0 <= i < |s| - 1 ensures s[i].start <= s[i + 1].start {
        CompareDrop(s[i], s[i + 1]);
      }
      forall i, j | 0 <= i < j < |s| ensures s[i].start <= s[j].start {
        Climbs(s, i, j);
      }
    }
  }

  lemma {:induction false} Climbs(s: seq<Desc>, i: nat, j: nat)
    requires i <= j < |s| && forall k :: 0 <= k < |s| - 1 ==> s[k].start <= s[k + 1].start
    ensures s[i].start <= s[j].start
    decreases j
  {
    if i == j {
    } else {
      Climbs(s, i, j - 1);
      assert s[j - 1].start <= s[j - 1 + 1].start;
    }
  }

  /** So it is sorted whenever all addresses lie in one stretch of 2^63. */
  lemma LinkedNear(s: seq<Desc>, low: int)
    requires Linked(s) && Near(s, low)
    ensures Sorted(s)
  {
    LinkedSorted(s);
  }

  /** What a step of the sort keeps: the elements, and everything from `n` on. */
  ghost predicate Rearranged(was: seq<Desc>, now: seq<Desc>, n: nat)
  {
    |was| == |now| && n <= |now| && multiset(was[..n]) == multiset(now[..n]) && was[n..] == now[n..]
  }

  lemma RearrangedTwice(a: seq<Desc>, b: seq<Desc>, c: seq<Desc>, n: nat)
    requires Rearranged(a, b, n) && Rearranged(b, c, n)
    ensures Rearranged(a, c, n)
  {}

  lemma RearrangedNone(a: seq<Desc>, n: nat)
    requires n <= |a|
    ensures Rearranged(a, a, n)
  {}

  /** The swap loop of qsort, one element at a time. */
  method Swap(a: array<Desc>, n: nat, i: nat, j: nat)
    requires i < j < n <= a.Length
    modifies a
    ensures Rearranged(old(a[..]), a[..], n)
    ensures a[..n] == old(a[..n])[i := old(a[j])][j := old(a[i])]
  {
    ghost var was, s := a[..], a[..n];
    a[i], a[j] := a[j], a[i];
    assert a[..n] == s[i := s[j]][j := s[i]];
    assert was[..n] == s && a[..][..n] == a[..n] && was[n..] == a[..][n..];
  }

  /** Neighbours up to `i` are in order apart from the element moving down at `m`, which is
      in order with what follows it; so are the two beside it. */
  ghost predicate LinkedBut(s: seq<Desc>, i: nat, m: nat)
    requires m <= i < |s|
  {
    && (forall p :: 0 <= p < i && p + 1 != m ==> Compare(s[p], s[p + 1]) <= 0)
    && (0 < m < i ==> Compare(s[m - 1], s[m + 1]) <= 0)
  }

  lemma LinkedButStart(s: seq<Desc>, i: nat)
    requires i < |s| && Linked(s[..i])
    ensures LinkedBut(s, i, i)
  {
    hide Compare;
    forall p | 0 <= p < i && p + 1 != i ensures Compare(s[p], s[p + 1]) <= 0 {
      assert Compare(s[..i][p], s[..i][p + 1]) <= 0;
    }
  }

  lemma LinkedButSwap(s: seq<Desc>, i: nat, m: nat)
    requires 0 < m <= i < |s| && LinkedBut(s, i, m) && Compare(s[m - 1], s[m]) > 0
    ensures LinkedBut(s[m - 1 := s[m]][m := s[m - 1]], i, m - 1)
  {
    hide Compare;
    CompareBack(s[m - 1], s[m]);
    var t := s[m - 1 := s[m]][m := s[m - 1]];
    forall p | 0 <= p < i && p + 1 != m - 1 ensures Compare(t[p], t[p + 1]) <= 0 {
      assert p + 1 != m ==> Compare(s[p], s[p + 1]) <= 0;
    }
    assert m > 1 ==> Compare(s[m - 2], s[m - 2 + 1]) <= 0;
  }

  lemma LinkedButEnd(s: seq<Desc>, i: nat, m: nat)
    requires m <= i < |s| && LinkedBut(s, i, m) && (m > 0 ==> Compare(s[m - 1], s[m]) <= 0)
    ensures Linked(s[..i + 1])
  {
    hide Compare;
    var t := s[..i + 1];
    forall p | 0 <= p < |t| - 1 ensures Compare(t[p], t[p + 1]) <= 0 {
      assert p + 1 != m ==> Compare(s[p], s[p + 1]) <= 0;
    }
  }

  /** The innermost loop: moves element `i` down in steps of `gap`. */
  method Insert(a: array<Desc>, n: nat, i: nat, gap: nat)
    requires 0 < gap <= i < n <= a.Length
    requires gap == 1 ==> Linked(a[..i])
    modifies a
    ensures Rearranged(old(a[..]), a[..], n)
    ensures gap == 1 ==> Linked(a[..i + 1])
  {
    hide LinkedBut, Linked, Compare, Rearranged;
    var j := i;
    assert a[..n][..i] == a[..i];
    if gap == 1 { LinkedButStart(a[..n], i); }
    RearrangedNone(a[..], n);
    while true
      invariant gap <= j <= i
      invariant Rearranged(old(a[..]), a[..], n)
      invariant gap == 1 ==> LinkedBut(a[..n], i, j)
      decreases j
    {
      j := j - gap;
      if Compare(a[j], a[j + gap]) <= 0 {
        if gap == 1 { LinkedButEnd(a[..n], i, j + 1); }
        break;
      }
      if gap == 1 { LinkedButSwap(a[..n], i, j + 1); }
      ghost var was := a[..];
      Swap(a, n, j, j + gap);
      RearrangedTwice(old(a[..]), was, a[..], n);
      if j < gap {
        if gap == 1 { LinkedButEnd(a[..n], i, 0); }
        break;
      }
    }
    assert a[..n][..i + 1] == a[..i + 1];
  }

  /** One pass over the array with a fixed gap. */
  method Pass(a: array<Desc>, n: nat, gap: nat)
    requires 0 < gap < n <= a.Length
    modifies a
    ensures Rearranged(old(a[..]), a[..], n)
    ensures gap == 1 ==> Linked(a[..n])
  {
    hide Compare, Rearranged;
    var i := gap;
    RearrangedNone(a[..], n);
    while true
      invariant gap <= i < n
      invariant Rearranged(old(a[..]), a[..], n)
      invariant gap == 1 ==> Linked(a[..i])
      decreases n - i
    {
      ghost var was := a[..];
      Insert(a, n, i, gap);
      RearrangedTwice(old(a[..]), was, a[..], n);
      i := i + 1;
      if i >= n {
        break;
      }
    }
  }

  /** The gaps 1, 4, 13, ...: each is three times the one below it, plus one. */
  ghost predicate IsGap(g: nat)
  {
    g == 1 || (g > 1 && (g - 1) % 3 == 0 && IsGap((g - 1) / 3))
  }

  /** qsort (a shell sort) of the first `n` elements, by h_cmp_entry: a permutation in which
      all neighbours are in the order of the comparison. */
  method Qsort(a: array<Desc>, n: nat)
    requires n <= a.Length
    modifies a
    ensures multiset(a[..n]) == old(multiset(a[..n])) && a[n..] == old(a[n..])
    ensures Linked(a[..n])
    ensures forall low :: Near(a[..n], low) ==> Sorted(a[..n])
  {
    hide Compare, Near, Sorted;
    RearrangedNone(a[..], n);
    if n > 1 {
      hide Rearranged;
      var gap: nat := 1;
      while gap < (n - 1) / 3
        invariant IsGap(gap) && gap < n
      {
        gap := 3 * gap + 1;
      }
      while gap > 0
        invariant gap == 0 || (IsGap(gap) && gap < n)
        invariant Rearranged(old(a[..]), a[..], n)
        invariant gap == 0 ==> Linked(a[..n])
      {
        ghost var was := a[..];
        Pass(a, n, gap);
        RearrangedTwice(old(a[..]), was, a[..], n);
        gap := (gap - 1) / 3;
      }
    }
    RearrangedParts(old(a[..]), a[..], n);
    assert a[..][..n] == a[..n] && a[..][n..] == a[n..];
    assert old(a[..])[..n] == old(a[..n]) && old(a[..])[n..] == old(a[n..]);
    forall low | Near(a[..n], low) ensures Sorted(a[..n]) {
      LinkedNear(a[..n], low);
    }
  }

  lemma RearrangedParts(a: seq<Desc>, b: seq<Desc>, n: nat)
    requires Rearranged(a, b, n)
    ensures |a| == |b| && n <= |b| && multiset(a[..n]) == multiset(b[..n]) && a[n..] == b[n..]
  {}
}

/** efi_build_mem_table */
module EfiMap {
  import opened EfiSort

  const LOADER_CODE := 1
  const LOADER_DATA := 2
  const BOOT_SERVICES_CODE := 3
  const BOOT_SERVICES_DATA := 4
  const CONVENTIONAL := 7
  const TABLE_END := 15

  predicate IsBootServices(typ: int)
  {
    typ == LOADER_CODE || typ == LOADER_DATA || typ == BOOT_SERVICES_CODE || typ == BOOT_SERVICES_DATA
  }

  /** The type an entry is given in the table. */
  function TypeOf(d: Desc, skip: bool): int
  {
    if skip && IsBootServices(d.typ) then CONVENTIONAL else d.typ
  }

  /** The address after an entry, in 64 bits. */
  function End64(d: Desc): U64Int { (d.start + d.pages * 4096 % U64) % U64 }

  /** Whether the entry joins the one before it in the table. */
  predicate Joins(out: seq<Desc>, addr: U64Int, d: Desc, skip: bool)
  {
    skip && out != [] && d.start == addr && TypeOf(d, skip) == CONVENTIONAL && out[|out| - 1].typ == CONVENTIONAL
  }

  function Grown(p: Desc, d: Desc): Desc { p.(pages := (p.pages + d.pages) % U64) }

  /** The table after the first `k` entries of a sorted map. */
  function Table(s: seq<Desc>, k: nat, skip: bool): (out: seq<Desc>)
    requires k <= |s|
    ensures |out| <= k
  {
    if k == 0 then []
    else
      var out := Table(s, k - 1, skip);
      var d := s[k - 1];
      if Joins(out, LastEnd(s, k - 1), d, skip) then out[..|out| - 1] + [Grown(out[|out| - 1], d)]
      else out + [d.(typ := TypeOf(d, skip))]
  }

  function LastEnd(s: seq<Desc>, k: nat): U64Int
    requires k <= |s|
  {
    if k == 0 then 0 else End64(s[k - 1])
  }

  /** The compaction loop: reads at `desc`, writes at `dest`, in one buffer. */
  method CompactInPlace(base: array<Desc>, count: nat, skip: bool) returns (dest: nat)
    requires base.Length == count + 1
    modifies base
    ensures dest <= count && base[..dest] == Table(old(base[..count]), count, skip)
    ensures base[dest].typ == TABLE_END
  {
    ghost var s := base[..count];
    dest := 0;
    var prev, addr, desc := -1, 0, 0;
    while desc < count
      invariant 0 <= dest <= desc <= count && prev == dest - 1
      invariant base[..dest] == Table(s, desc, skip)
      invariant base[desc..count] == s[desc..]
      invariant addr == LastEnd(s, desc)
    {
      assert base[desc] == s[desc] by { assert base[desc..count][0] == s[desc..][0]; }
      dest, prev, addr := Absorb(base, count, desc, dest, prev, addr, skip, s);
      desc := desc + 1;
    }
    base[dest] := base[dest].(typ := TABLE_END);
  }

  /** One turn of the loop. */
  method Absorb(base: array<Desc>, count: nat, desc: nat, dest: nat, prev: int, addr: U64Int, skip: bool, ghost s: seq<Desc>)
    returns (dest': nat, prev': int, addr': U64Int)
    requires base.Length == count + 1 && dest <= desc < count == |s| && prev == dest - 1
    requires base[..dest] == Table(s, desc, skip) && base[desc] == s[desc] && base[desc..count] == s[desc..]
    requires addr == LastEnd(s, desc)
    modifies base
    ensures dest' <= desc + 1 && prev' == dest' - 1 && addr' == LastEnd(s, desc + 1)
    ensures base[..dest'] == Table(s, desc + 1, skip) && base[desc + 1..count] == s[desc + 1..]
  {
    hide Table, End64, Grown;
    TableStep(s, desc, skip);
    ghost var out := base[..dest];
    var merge := true;
    var typ := base[desc].typ;
    if skip && IsBootServices(typ) {
      typ := CONVENTIONAL;
    }
    base[dest] := base[desc];
    base[dest] := base[dest].(typ := typ);
    // desc may now be the entry just written; only its type has changed
    assert base[..dest] == out && base[dest] == s[desc].(typ := TypeOf(s[desc], skip));
    assert base[desc].start == s[desc].start && base[desc].pages == s[desc].pages;
    assert base[desc + 1..count] == s[desc..][1..];
    if !skip || prev < 0 {
      merge := false;
    } else if base[desc].start != addr {
      merge := false;
    } else if typ != CONVENTIONAL {
      merge := false;
    } else if base[prev].typ != CONVENTIONAL {
      merge := false;
    }
    assert merge == Joins(out, addr, s[desc], skip);
    EndOf(base[desc], s[desc], if merge then base[prev] else base[desc]);
    if merge {
      base[prev] := Grown(base[prev], base[desc]);
      dest', prev' := dest, prev;
      assert base[..dest'] == out[..dest - 1] + [Grown(out[dest - 1], s[desc])];
    } else {
      dest', prev' := dest + 1, dest;
      assert base[..dest'] == out + [base[dest]];
    }
    addr' := End64(base[desc]);
    assert base[desc + 1..count] == s[desc..][1..];
  }

  lemma TableStep(s: seq<Desc>, k: nat, skip: bool)
    requires k < |s|
    ensures var out := Table(s, k, skip);
            var d := s[k];
            Table(s, k + 1, skip) == if Joins(out, LastEnd(s, k), d, skip) then out[..|out| - 1] + [Grown(out[|out| - 1], d)]
                                     else out + [d.(typ := TypeOf(d, skip))]
  {}

  /** Only the start and the size matter for what comes after an entry. */
  lemma EndOf(d: Desc, d': Desc, p: Desc)
    requires d.start == d'.start && d.pages == d'.pages
    ensures End64(d) == End64(d') && Grown(p, d) == Grown(p, d')
  {}

  lemma MultisetSize(a: seq<Desc>, b: seq<Desc>)
    requires multiset(a) == multiset(b)
    ensures |a| == |b|
  {
    assert |multiset(a)| == |multiset(b)|;
  }

  // ---- what the table means ------------------------------------------------------

  /** No entry runs past the 64-bit address space. */
  ghost predicate Fits(s: seq<Desc>)
  {
    forall i :: 0 <= i < |s| ==> s[i].pages < 0x10_0000_0000_0000 && After(s[i]) <= U64
  }

  function After(d: Desc): int { d.start + d.pages * 4096 }

  predicate Covers(d: Desc, x: int) { d.start <= x < After(d) }

  /** What a memory type is after boot services are gone, by its number: 1 to 4 are the
      loader's and the boot services' memory, which becomes free (7). */
  function Afterwards(typ: int, skip: bool): int
  {
    if skip && 1 <= typ <= 4 then 7 else typ
  }

  /** The table gives every entry that type. */
  lemma TypesAfterwards(d: Desc, skip: bool)
    ensures TypeOf(d, skip) == Afterwards(d.typ, skip)
  {}

  /** How many entries say that address `x` has type `t`, once boot services are gone if
      `skip`. */
  function Weight(s: seq<Desc>, skip: bool, x: int, t: int): nat
  {
    if s == [] then 0
    else
      var d := s[|s| - 1];
      Weight(s[..|s| - 1], skip, x, t) + One(d, skip, x, t)
  }

  function Pages(s: seq<Desc>): nat
  {
    if s == [] then 0 else Pages(s[..|s| - 1]) + s[|s| - 1].pages
  }

  /** Entry `k` is taken for the continuation of one that ends at the top of the address
      space. */
  predicate WrapsAt(s: seq<Desc>, k: nat)
  {
    && 0 < k < |s| && After(s[k - 1]) == U64 && s[k].start == 0
    && Afterwards(s[k - 1].typ, true) == 7 == Afterwards(s[k].typ, true)
  }

  ghost predicate Wraps(s: seq<Desc>, skip: bool)
  {
    skip && exists k :: WrapsAt(s, k)
  }

  lemma EndsAtTop(d: Desc)
    requires d.pages < 0x10_0000_0000_0000 && After(d) == U64
    ensures d.start > 0
  {}

  /** Nothing wraps in a sorted map. */
  lemma SortedNoWrap(s: seq<Desc>, skip: bool)
    requires Fits(s) && Sorted(s)
    ensures !Wraps(s, skip)
  {
    forall k: nat ensures !WrapsAt(s, k) {
      if 0 < k < |s| && After(s[k - 1]) == U64 {
        EndsAtTop(s[k - 1]);
        assert s[k - 1].start <= s[k].start;
      }
    }
  }

  /** The last table entry reaches to the end of the last entry read, and has its type. */
  lemma {:induction false} LastReaches(s: seq<Desc>, k: nat, skip: bool)
    requires 0 < k <= |s| && !Wraps(s, skip) && Fits(s)
    ensures var out := Table(s, k, skip);
            && out != [] && After(out[|out| - 1]) == After(s[k - 1])
            && out[|out| - 1].start <= s[k - 1].start && out[|out| - 1].typ == TypeOf(s[k - 1], skip)
  {
    hide Wraps, Fits, After, End64, Grown, TypeOf;
    SameAfter(s[k - 1], TypeOf(s[k - 1], skip));
    if k == 1 {
    } else {
      LastReaches(s, k - 1, skip);
      if Joins(Table(s, k - 1, skip), LastEnd(s, k - 1), s[k - 1], skip) {
        JoinIsExact(s, k - 1, skip);
        Lowest(Table(s, k - 1, skip), s, k - 1);
      }
    }
  }

  lemma SameAfter(d: Desc, typ: int)
    ensures After(d.(typ := typ)) == After(d)
  {}

  lemma Lowest(out: seq<Desc>, s: seq<Desc>, k: nat)
    requires out != [] && k < |s| && After(out[|out| - 1]) == s[k].start
    ensures out[|out| - 1].start <= s[k].start
  {}

  /** When an entry joins, it starts exactly where the last table entry ends, and the
      page counts add up without wrapping. */
  lemma JoinIsExact(s: seq<Desc>, k: nat, skip: bool)
    requires 0 < k < |s| && !Wraps(s, skip) && Fits(s)
    requires var out := Table(s, k, skip);
             out != [] && After(out[|out| - 1]) == After(s[k - 1]) && out[|out| - 1].typ == TypeOf(s[k - 1], skip)
    requires Joins(Table(s, k, skip), LastEnd(s, k), s[k], skip)
    ensures var out := Table(s, k, skip);
            var p := out[|out| - 1];
            && After(p) == s[k].start && Grown(p, s[k]) == p.(pages := p.pages + s[k].pages)
            && After(Grown(p, s[k])) == After(s[k])
  {
    hide Table;
    assert !WrapsAt(s, k);
    EndIsExact(s[k - 1], s[k]);
  }

  lemma EndIsExact(d: Desc, e: Desc)
    requires d.pages < 0x10_0000_0000_0000 && After(d) <= U64 && !(After(d) == U64 && e.start == 0)
    ensures End64(d) == e.start <==> After(d) == e.start
  {
    assert d.pages * 4096 < U64;
    if After(d) < U64 {
      assert End64(d) == After(d);
    } else {
      assert End64(d) == 0;
    }
  }

  lemma SnocFacts(s: seq<Desc>, d: Desc, skip: bool, x: int, t: int)
    ensures Weight(s + [d], skip, x, t) == Weight(s, skip, x, t) + One(d, skip, x, t)
    ensures Pages(s + [d]) == Pages(s) + d.pages
  {
    assert (s + [d])[..|s|] == s;
  }

  function One(d: Desc, skip: bool, x: int, t: int): nat
  {
    if Covers(d, x) && Afterwards(d.typ, skip) == t then 1 else 0
  }

  /** A grown entry counts as much as its two parts did. */
  lemma GrownCounts(p: Desc, d: Desc, skip: bool, x: int, t: int)
    requires After(p) == d.start && p.typ == CONVENTIONAL == TypeOf(d, skip) && p.pages + d.pages < U64
    ensures One(p.(pages := p.pages + d.pages), false, x, t) == One(p, false, x, t) + One(d, skip, x, t)
  {}

  lemma Nothing(s: seq<Desc>, skip: bool, x: int, t: int)
    ensures Table(s, 0, skip) == [] && Weight([], skip, x, t) == 0 && Pages([]) == 0
  {}

  /** Every address keeps its types, with multiplicity, and no page is gained or lost. */
  lemma {:induction false} TableKeepsMeaning(s: seq<Desc>, k: nat, skip: bool, x: int, t: int)
    requires k <= |s| && !Wraps(s, skip) && Fits(s)
    ensures Weight(Table(s, k, skip), false, x, t) == Weight(s[..k], skip, x, t)
    ensures Pages(Table(s, k, skip)) == Pages(s[..k])
  {
    hide Table, Weight, Pages, Grown, One, Fits, Wraps, LastEnd, After;
    if k == 0 {
      Nothing(s, skip, x, t);
      Nothing(s, false, x, t);
    } else {
      TableKeepsMeaning(s, k - 1, skip, x, t);
      var out := Table(s, k - 1, skip);
      var d := s[k - 1];
      assert s[..k] == s[..k - 1] + [d];
      SnocFacts(s[..k - 1], d, skip, x, t);
      TableStep(s, k - 1, skip);
      if Joins(out, LastEnd(s, k - 1), d, skip) {
        OutNotEmpty(s, k - 1, skip);
        LastReaches(s, k - 1, skip);
        JoinIsExact(s, k - 1, skip);
        var p := out[|out| - 1];
        assert out == out[..|out| - 1] + [p];
        SnocFacts(out[..|out| - 1], p, false, x, t);
        SnocFacts(out[..|out| - 1], Grown(p, d), false, x, t);
        GrownCounts(p, d, skip, x, t);
      } else {
        SnocFacts(out, d.(typ := TypeOf(d, skip)), false, x, t);
        SameSpan(d, skip, x, t);
      }
    }
  }

  lemma OutNotEmpty(s: seq<Desc>, k: nat, skip: bool)
    requires k <= |s| && Table(s, k, skip) != []
    ensures k > 0
  {}

  lemma SameSpan(d: Desc, skip: bool, x: int, t: int)
    ensures One(d.(typ := TypeOf(d, skip)), false, x, t) == One(d, skip, x, t)
  {}

  /** No two neighbours are both conventional and contiguous. */
  ghost predicate Normal(out: seq<Desc>)
  {
    forall i :: 0 <= i < |out| - 1 ==>
      !(out[i].typ == CONVENTIONAL && out[i + 1].typ == CONVENTIONAL && After(out[i]) == out[i + 1].start)
  }

  ghost predicate Clean(out: seq<Desc>)
  {
    Sorted(out) && Normal(out) && forall i :: 0 <= i < |out| ==> !(1 <= out[i].typ <= 4)
  }

  lemma CleanAdd(out: seq<Desc>, d: Desc)
    requires Clean(out) && !(1 <= d.typ <= 4)
    requires out != [] ==>
      var p := out[|out| - 1];
      p.start <= d.start && !(p.typ == CONVENTIONAL && d.typ == CONVENTIONAL && After(p) == d.start)
    ensures Clean(out + [d])
  {
    hide After;
  }

  lemma CleanGrow(out: seq<Desc>, g: Desc)
    requires out != [] && Clean(out) && g.start == out[|out| - 1].start && g.typ == out[|out| - 1].typ
    ensures Clean(out[..|out| - 1] + [g])
  {
    var r := out[..|out| - 1] + [g];
    assert forall i :: 0 <= i < |r| ==> r[i].start == out[i].start && r[i].typ == out[i].typ;
    assert forall i :: 0 <= i < |r| - 1 ==> r[i] == out[i];
  }

  lemma CleanNothing(s: seq<Desc>)
    ensures Clean(Table(s, 0, true))
  {}

  /** With skip_bs the table is sorted, in normal form, and free of boot-service types. */
  lemma {:induction false} TableIsNormal(s: seq<Desc>, k: nat)
    requires k <= |s| && Sorted(s) && Fits(s)
    ensures Clean(Table(s, k, true))
  {
    hide Table, Grown, Clean, After, End64, Wraps, Fits, LastEnd, Sorted;
    SortedNoWrap(s, true);
    if k == 0 {
      CleanNothing(s);
    } else {
      TableIsNormal(s, k - 1);
      TableStep(s, k - 1, true);
      var out := Table(s, k - 1, true);
      var d := s[k - 1];
      if Joins(out, LastEnd(s, k - 1), d, true) {
        OutNotEmpty(s, k - 1, true);
        LastReaches(s, k - 1, true);
        JoinIsExact(s, k - 1, true);
        CleanGrow(out, Grown(out[|out| - 1], d));
      } else {
        NotJoined(s, k - 1);
        CleanAdd(out, d.(typ := TypeOf(d, true)));
      }
    }
  }

  /** An entry that is not joined does not continue the one before it. */
  lemma NotJoined(s: seq<Desc>, k: nat)
    requires k < |s| && Sorted(s) && !Wraps(s, true) && Fits(s) && !Joins(Table(s, k, true), LastEnd(s, k), s[k], true)
    ensures var out := Table(s, k, true);
            out != [] ==>
              var p := out[|out| - 1];
              p.start <= s[k].start && !(p.typ == CONVENTIONAL && TypeOf(s[k], true) == CONVENTIONAL && After(p) == s[k].start)
  {
    hide Table, After, End64;
    if Table(s, k, true) != [] {
      OutNotEmpty(s, k, true);
      LastReaches(s, k, true);
      NoTopBefore(s, k);
      EndIsExact(s[k - 1], s[k]);
    }
  }

  lemma NoTopBefore(s: seq<Desc>, k: nat)
    requires 0 < k < |s| && Sorted(s) && Fits(s)
    ensures !(After(s[k - 1]) == U64 && s[k].start == 0)
  {
    if After(s[k - 1]) == U64 {
      EndsAtTop(s[k - 1]);
    }
  }

  /** Without skip_bs the table is the sorted map itself. */
  lemma {:induction false} TableWithoutSkip(s: seq<Desc>, k: nat)
    requires k <= |s|
    ensures Table(s, k, false) == s[..k]
  {
    if k == 0 {
    } else {
      TableWithoutSkip(s, k - 1);
    }
  }

  lemma {:induction false} WeightRemove(s: seq<Desc>, i: nat, skip: bool, x: int, t: int)
    requires i < |s|
    ensures Weight(s, skip, x, t) == Weight(s[..i] + s[i + 1..], skip, x, t) + One(s[i], skip, x, t)
    ensures Pages(s) == Pages(s[..i] + s[i + 1..]) + s[i].pages
    decreases |s|
  {
    if i == |s| - 1 {
      assert s[..i] + s[i + 1..] == s[..|s| - 1];
    } else {
      var last := s[|s| - 1];
      var s0 := s[..|s| - 1];
      WeightRemove(s0, i, skip, x, t);
      assert s[..i] + s[i + 1..] == (s0[..i] + s0[i + 1..]) + [last];
      SnocFacts(s0[..i] + s0[i + 1..], last, skip, x, t);
    }
  }

  lemma SameRest(a0: seq<Desc>, b: seq<Desc>, i: nat, d: Desc)
    requires i < |b| && b[i] == d && multiset(a0 + [d]) == multiset(b)
    ensures multiset(a0) == multiset(b[..i] + b[i + 1..])
  {
    assert b == b[..i] + [d] + b[i + 1..];
    assert multiset(b) == multiset(b[..i]) + multiset{d} + multiset(b[i + 1..]);
    assert multiset(a0 + [d]) == multiset(a0) + multiset{d};
    var m := multiset(b[..i] + b[i + 1..]);
    assert m == multiset(b[..i]) + multiset(b[i + 1..]);
    assert multiset(a0) == multiset(b) - multiset{d} && m == multiset(b) - multiset{d};
  }

  /** Sorting changes no weight. */
  lemma {:induction false} WeightPermutes(a: seq<Desc>, b: seq<Desc>, skip: bool, x: int, t: int)
    requires multiset(a) == multiset(b)
    ensures Weight(a, skip, x, t) == Weight(b, skip, x, t) && Pages(a) == Pages(b)
    decreases |a|
  {
    hide Weight, Pages, One;
    MultisetSize(a, b);
    if a == [] {
      assert b == [];
    } else {
      var d := a[|a| - 1];
      var a0 := a[..|a| - 1];
      assert a == a0 + [d];
      assert d in multiset(b);
      var i :| 0 <= i < |b| && b[i] == d;
      var b0 := b[..i] + b[i + 1..];
      SameRest(a0, b, i, d);
      WeightPermutes(a0, b0, skip, x, t);
      WeightRemove(b, i, skip, x, t);
      SnocFacts(a0, d, skip, x, t);
    }
  }

  /** From the firmware's map to the finished table: every address has the same types,
      and the page total is the same. */
  lemma TableMeansMap(entries: seq<Desc>, sorted: seq<Desc>, skip: bool, x: int, t: int)
    requires multiset(sorted) == multiset(entries) && !Wraps(sorted, skip) && Fits(sorted)
    ensures Weight(Table(sorted, |sorted|, skip), false, x, t) == Weight(entries, skip, x, t)
    ensures Pages(Table(sorted, |sorted|, skip)) == Pages(entries)
  {
    TableKeepsMeaning(sorted, |sorted|, skip, x, t);
    assert sorted[..|sorted|] == sorted;
    WeightPermutes(sorted, entries, skip, x, t);
  }

  // ---- where the meaning is lost ----------------------------------------------------------

  ghost predicate Means(table: seq<Desc>, s: seq<Desc>, skip: bool)
  {
    forall x, t :: Weight(table, false, x, t) == Weight(s, skip, x, t)
  }

  ghost predicate NoneEmpty(s: seq<Desc>)
  {
    forall i :: 0 <= i < |s| ==> s[i].pages > 0
  }

  /** How many entries are conventional and start at address 0. */
  function AtZero(s: seq<Desc>, skip: bool): nat
  {
    if s == [] then 0 else AtZero(s[..|s| - 1], skip) + ZeroOne(s[|s| - 1], skip)
  }

  function ZeroOne(d: Desc, skip: bool): nat
  {
    if d.start == 0 && Afterwards(d.typ, skip) == 7 then 1 else 0
  }

  lemma AtZeroSnoc(s: seq<Desc>, d: Desc, skip: bool)
    ensures AtZero(s + [d], skip) == AtZero(s, skip) + ZeroOne(d, skip)
  {
    assert (s + [d])[..|s|] == s;
  }

  /** Only those cover address 0. */
  lemma {:induction false} ZeroWeight(s: seq<Desc>, skip: bool)
    ensures Weight(s, skip, 0, CONVENTIONAL) <= AtZero(s, skip)
    ensures NoneEmpty(s) ==> Weight(s, skip, 0, CONVENTIONAL) == AtZero(s, skip)
    decreases |s|
  {
    if s == [] {
    } else {
      var s0 := s[..|s| - 1];
      ZeroWeight(s0, skip);
      assert NoneEmpty(s) ==> NoneEmpty(s0) && s[|s| - 1].pages > 0;
    }
  }

  /** A wrapping entry joins the table, so that the table has fewer entries at 0. */
  lemma {:induction false} ZeroShrinks(s: seq<Desc>, k: nat)
    requires k <= |s| && Fits(s)
    ensures AtZero(Table(s, k, true), false) <= AtZero(s[..k], true)
    ensures (exists j: nat :: j < k && WrapsAt(s, j)) ==> AtZero(Table(s, k, true), false) < AtZero(s[..k], true)
    ensures k > 0 ==> var out := Table(s, k, true); out != [] && out[|out| - 1].typ == TypeOf(s[k - 1], true)
    decreases k
  {
    hide Table, AtZero, End64, After, Grown, ZeroOne, Fits;
    if k == 0 {
      ZeroNothing(s);
    } else {
      var out, d := Table(s, k - 1, true), s[k - 1];
      ZeroShrinks(s, k - 1);
      TableStep(s, k - 1, true);
      assert s[..k] == s[..k - 1] + [d];
      AtZeroSnoc(s[..k - 1], d, true);
      if Joins(out, LastEnd(s, k - 1), d, true) {
        var p := out[|out| - 1];
        assert out == out[..|out| - 1] + [p];
        AtZeroSnoc(out[..|out| - 1], p, false);
        AtZeroSnoc(out[..|out| - 1], Grown(p, d), false);
        GrownZero(p, d);
      } else {
        AtZeroSnoc(out, d.(typ := TypeOf(d, true)), false);
      }
      if WrapsAt(s, k - 1) {
        WrapJoins(s, k - 1);
      }
      SameZero(d);
    }
  }

  lemma ZeroNothing(s: seq<Desc>)
    ensures AtZero(Table(s, 0, true), false) == 0 == AtZero(s[..0], true)
  {}

  lemma GrownZero(p: Desc, d: Desc)
    ensures ZeroOne(Grown(p, d), false) == ZeroOne(p, false) && Grown(p, d).typ == p.typ
  {}

  lemma SameZero(d: Desc)
    ensures ZeroOne(d.(typ := TypeOf(d, true)), false) == ZeroOne(d, true)
  {}

  lemma WrapJoins(s: seq<Desc>, k: nat)
    requires WrapsAt(s, k) && Fits(s)
    ensures s[k].start == LastEnd(s, k) && ZeroOne(s[k], true) == 1
    ensures var out := Table(s, k, true);
            out != [] && out[|out| - 1].typ == TypeOf(s[k - 1], true) ==> Joins(out, LastEnd(s, k), s[k], true)
  {
    hide Table;
    TopIsZero(s[k - 1]);
  }

  lemma TopIsZero(d: Desc)
    requires d.pages < 0x10_0000_0000_0000 && After(d) == U64
    ensures End64(d) == 0
  {
    assert d.pages * 4096 < U64;
  }

  /** Without empty entries the table means the same as the entries it was made from if and
      only if no conventional entry at 0 follows one that ends at the top. */
  lemma MeaningExactly(s: seq<Desc>, skip: bool)
    requires Fits(s) && NoneEmpty(s)
    ensures Means(Table(s, |s|, skip), s, skip) <==> !Wraps(s, skip)
  {
    hide Table, Weight, Fits, NoneEmpty, WrapsAt;
    assert s[..|s|] == s;
    if !Wraps(s, skip) {
      forall x, t ensures Weight(Table(s, |s|, skip), false, x, t) == Weight(s, skip, x, t) {
        TableKeepsMeaning(s, |s|, skip, x, t);
      }
    } else {
      var k :| WrapsAt(s, k);
      WrapsInside(s, k);
      ZeroShrinks(s, |s|);
      ZeroWeight(Table(s, |s|, true), false);
      ZeroWeight(s, true);
      assert Weight(Table(s, |s|, true), false, 0, CONVENTIONAL) < Weight(s, true, 0, CONVENTIONAL);
    }
  }

  lemma WrapsInside(s: seq<Desc>, k: nat)
    requires WrapsAt(s, k)
    ensures k < |s|
  {}

  lemma MeansPermuted(table: seq<Desc>, s: seq<Desc>, t: seq<Desc>, skip: bool)
    requires multiset(s) == multiset(t)
    ensures Means(table, s, skip) <==> Means(table, t, skip)
  {
    hide Weight;
    forall x, y ensures Weight(s, skip, x, y) == Weight(t, skip, x, y) {
      WeightPermutes(s, t, skip, x, y);
    }
  }

  /** What a caller can see beforehand: nothing is skipped, or the comparison orders the map,
      or it lacks conventional entries at one of the two ends. */
  ghost predicate Regular(entries: seq<Desc>, skip: bool, low: int)
  {
    || !skip || Near(entries, low)
    || (forall d :: d in entries && Afterwards(d.typ, true) == 7 ==> After(d) < U64)
    || (forall d :: d in entries && Afterwards(d.typ, true) == 7 ==> d.start > 0)
  }

  lemma FitsPermuted(entries: seq<Desc>, sorted: seq<Desc>)
    requires multiset(sorted) == multiset(entries)
    ensures Fits(entries) ==> Fits(sorted)
    ensures NoneEmpty(entries) ==> NoneEmpty(sorted)
    ensures forall d :: d in sorted ==> d in entries
    ensures forall low :: Near(entries, low) ==> Near(sorted, low)
  {
    forall i | 0 <= i < |sorted| ensures sorted[i] in entries {
      assert sorted[i] in multiset(entries);
    }
  }

  lemma RegularNoWrap(entries: seq<Desc>, sorted: seq<Desc>, skip: bool, low: int)
    requires Fits(entries) && Regular(entries, skip, low) && multiset(sorted) == multiset(entries)
    requires Near(sorted, low) ==> Sorted(sorted)
    ensures !Wraps(sorted, skip)
  {
    hide Near, Sorted, Fits, After, Afterwards;
    FitsPermuted(entries, sorted);
    if Near(entries, low) {
      SortedNoWrap(sorted, skip);
    } else if skip {
      forall k: nat ensures !WrapsAt(sorted, k) {
        if 0 < k < |sorted| {
          assert sorted[k - 1] in entries && sorted[k] in entries;
        }
      }
    }
  }

  /** efi_build_mem_table: copy, sort, compact, mark the end.  The table means what the map
      meant if and only if the sort did not put a conventional entry at 0 after one that
      ends at the top; with skip_bs it is in normal form when the map came out sorted. */
  method BuildMemTable(entries: seq<Desc>, skip: bool) returns (base: array<Desc>, ghost n: nat, ghost sorted: seq<Desc>)
    ensures fresh(base) && n <= |entries| < base.Length
    ensures multiset(sorted) == multiset(entries) && Linked(sorted)
    ensures forall low :: Near(entries, low) ==> Sorted(sorted)
    ensures base[..n] == Table(sorted, |sorted|, skip) && base[n].typ == 15
    ensures Fits(entries) && NoneEmpty(entries) ==> (Means(base[..n], entries, skip) <==> !Wraps(sorted, skip))
    ensures Fits(entries) && !Wraps(sorted, skip) ==> Means(base[..n], entries, skip) && Pages(base[..n]) == Pages(entries)
    ensures forall low :: Fits(entries) && Regular(entries, skip, low) ==> !Wraps(sorted, skip)
    ensures Fits(entries) && Sorted(sorted) && skip ==> Clean(base[..n])
  {
    hide Near, Sorted, Fits, Regular, Clean, Means, NoneEmpty, Pages, Table, Wraps, Linked, Weight;
    var count := |entries|;
    base := new Desc[count + 1](i => if 0 <= i < count then entries[i] else Desc(0, 0, 0, 0, 0));
    assert base[..count] == entries;
    Qsort(base, count);
    sorted := base[..count];
    MultisetSize(sorted, entries);
    FitsPermuted(entries, sorted);
    var dest := CompactInPlace(base, count, skip);
    n := dest;
    TableResult(entries, sorted, skip);
    forall low | Fits(entries) && Regular(entries, skip, low) ensures !Wraps(sorted, skip) {
      RegularNoWrap(entries, sorted, skip, low);
    }
  }

  /** The promises of the table, about the entries in the order the sort left them. */
  lemma TableResult(entries: seq<Desc>, sorted: seq<Desc>, skip: bool)
    requires multiset(sorted) == multiset(entries)
    ensures var table := Table(sorted, |sorted|, skip);
            && (Fits(entries) && NoneEmpty(entries) ==> (Means(table, entries, skip) <==> !Wraps(sorted, skip)))
            && (Fits(entries) && !Wraps(sorted, skip) ==> Means(table, entries, skip) && Pages(table) == Pages(entries))
            && (Fits(entries) && Sorted(sorted) && skip ==> Clean(table))
  {
    hide Near, Sorted, Fits, Clean, NoneEmpty, Pages, Table, Wraps, Weight;
    var table := Table(sorted, |sorted|, skip);
    FitsPermuted(entries, sorted);
    if Fits(entries) {
      if NoneEmpty(entries) {
        hide Means;
        MeaningExactly(sorted, skip);
        MeansPermuted(table, sorted, entries, skip);
      }
      if !Wraps(sorted, skip) {
        forall x, t ensures Weight(table, false, x, t) == Weight(entries, skip, x, t) {
          TableMeansMap(entries, sorted, skip, x, t);
        }
        TableMeansMap(entries, sorted, skip, 0, 0);
      }
      if Sorted(sorted) && skip {
        TableIsNormal(sorted, |sorted|);
      }
    }
  }

  /** One page at the top of the address space and one at its bottom: the table loses the
      page at 0, whichever way round the map lists them. */
  method TopAndBottom(swap: bool) returns (base: array<Desc>, ghost n: nat)
    ensures n < base.Length && Weight(base[..n], false, 0, CONVENTIONAL) == 0
  {
    hide Compare, Linked, Means, Wraps, Fits, NoneEmpty, Regular, Near, Sorted, Clean, Table, Weight, Pages;
    var top := Desc(CONVENTIONAL, 0xFFFF_FFFF_FFFF_F000, 0, 1, 0);
    var bottom := Desc(CONVENTIONAL, 0, 0, 1, 0);
    var entries := if swap then [bottom, top] else [top, bottom];
    ghost var sorted;
    base, n, sorted := BuildMemTable(entries, true);
    assert multiset(entries) == multiset{top, bottom};
    LostPage(sorted, top, bottom);
  }

  /** Two entries come out in the order of the comparison. */
  lemma TwoSorted(sorted: seq<Desc>, a: Desc, b: Desc)
    requires Linked(sorted) && multiset(sorted) == multiset{a, b} && Compare(b, a) > 0
    ensures sorted == [a, b]
  {
    hide Compare;
    assert |sorted| == |multiset(sorted)| == 2;
    assert sorted == [sorted[0], sorted[1]];
    assert a in multiset(sorted) && b in multiset(sorted);
    assert sorted[0] in multiset(sorted) && sorted[1] in multiset(sorted);
    assert Compare(sorted[0], sorted[0 + 1]) <= 0;
  }

  lemma TwoEntries(a: Desc, b: Desc)
    ensures var out := [a.(typ := TypeOf(a, true))];
            && Table([a, b], 1, true) == out && LastEnd([a, b], 1) == End64(a)
            && Table([a, b], 2, true)
               == if Joins(out, End64(a), b, true) then [Grown(out[0], b)] else [out[0], b.(typ := TypeOf(b, true))]
  {
    hide End64, Grown, TypeOf;
    assert Table([a, b], 0, true) == [];
    TableStep([a, b], 0, true);
    TableStep([a, b], 1, true);
  }

  lemma LostPage(sorted: seq<Desc>, a: Desc, b: Desc)
    requires a == Desc(CONVENTIONAL, 0xFFFF_FFFF_FFFF_F000, 0, 1, 0) && b == Desc(CONVENTIONAL, 0, 0, 1, 0)
    requires Linked(sorted) && multiset(sorted) == multiset{a, b}
    ensures Weight(Table(sorted, |sorted|, true), false, 0, CONVENTIONAL) == 0
  {
    hide Table, Linked;
    TwoSorted(sorted, a, b);
    TwoEntries(a, b);
    TopIsZero(a);
    assert [Grown(a, b)][..0] == [];
  }

  /** Two entries more than 2^63 apart: the table is not sorted. */
  method FarApart() returns (base: array<Desc>, ghost n: nat)
    ensures n < base.Length && !Sorted(base[..n])
  {
    hide Compare, Linked, Means, Wraps, Fits, NoneEmpty, Regular, Near, Sorted, Clean, Table, Weight, Pages;
    var low := Desc(0, 0, 0, 1, 0);
    var high := Desc(0, 0x8000_0000_0000_1000, 0, 1, 0);
    ghost var sorted;
    base, n, sorted := BuildMemTable([low, high], true);
    assert multiset([low, high]) == multiset{high, low};
    Unsorted(sorted, high, low);
  }

  lemma Unsorted(sorted: seq<Desc>, high: Desc, low: Desc)
    requires high == Desc(0, 0x8000_0000_0000_1000, 0, 1, 0) && low == Desc(0, 0, 0, 1, 0)
    requires Linked(sorted) && multiset(sorted) == multiset{high, low}
    ensures !Sorted(Table(sorted, |sorted|, true))
  {
    hide Table, Linked, End64;
    TwoSorted(sorted, high, low);
    TwoEntries(high, low);
  }
}
