/** How many frames the address-space operations of vm.c take: one for a page, and one for each page table that was not
    there. */
module FrameCount {
  import opened PageTables

  // The directory entries that have a page table.
  ghost function Tables(mem: Memory, d: nat): set<nat>
    requires d < |mem|
  {
    set i: nat | i < NPTENTRIES && Table(mem, d, i) != 0
  }

  predicate InSpan(first: nat, end: nat, i: nat) {
    first < end && first / NPTENTRIES <= i <= (end - 1) / NPTENTRIES
  }

  // The directory entries under which the pages from first up to end are.
  function Span(first: nat, end: nat): set<nat> {
    set i: nat | i < NPTENTRIES && InSpan(first, end, i)
  }

  // What mapping the pages from first up to end takes where the entries in have already have tables.
  function Need(have: set<nat>, first: nat, end: nat): int
    requires first <= end
  {
    end - first + |have + Span(first, end)| - |have|
  }

  // From n0 free frames to n1: tables for the entries in add, those it did not have before, and so many pages.
  ghost predicate Counted(m0: Memory, n0: nat, m1: Memory, n1: nat, d: nat, add: set<nat>, pages: nat) {
    && d < |m0| && d < |m1| && Tables(m1, d) == Tables(m0, d) + add
    && n1 + pages + |Tables(m1, d)| == n0 + |Tables(m0, d)|
  }

  lemma SizeWith(s: set<nat>, i: nat)
    ensures |s + {i}| == |s| + if i in s then 0 else 1
  {
    if i in s {
      assert s + {i} == s;
    }
  }

  lemma SizeMonotone(s: set<nat>, t: set<nat>)
    requires s <= t
    ensures |s| <= |t|
  {
    assert t == s + (t - s);
  }

  // A set that lacks something another has.
  lemma SizeLess(s: set<nat>, t: set<nat>, i: nat)
    requires s <= t && i in t && i !in s
    ensures |s| < |t|
  {
    SizeWith(s, i);
    SizeMonotone(s + {i}, t);
  }

  lemma SpanNone(first: nat)
    ensures Span(first, first) == {}
  {
  }

  lemma SpanNext(first: nat, end: nat)
    requires first <= end < NPAGES
    ensures Span(first, end + 1) == Span(first, end) + {end / NPTENTRIES}
  {
    if first < end {
      assert end / NPTENTRIES <= (end - 1) / NPTENTRIES + 1;
    }
  }

  lemma SpanWithin(first: nat, a: nat, end: nat)
    requires first <= a <= end
    ensures Span(first, a) <= Span(first, end)
    ensures a < end && a < NPAGES ==> a / NPTENTRIES in Span(first, end)
  {
  }

  lemma NeedNext(have: set<nat>, first: nat, a: nat)
    requires first <= a < NPAGES
    ensures Need(have, first, a + 1) == Need(have, first, a) + 1 + if a / NPTENTRIES in have + Span(first,
        a) then 0 else 1
  {
    SpanNext(first, a);
    assert have + Span(first, a + 1) == (have + Span(first, a)) + {a / NPTENTRIES};
    SizeWith(have + Span(first, a), a / NPTENTRIES);
  }

  lemma NeedGrows(have: set<nat>, first: nat, a: nat, b: nat)
    requires first <= a <= b
    ensures Need(have, first, a) + (b - a) <= Need(have, first, b)
  {
    SpanWithin(first, a, b);
    SizeMonotone(have + Span(first, a), have + Span(first, b));
  }

  lemma NeedNone(have: set<nat>, first: nat)
    ensures Need(have, first, first) == 0
  {
    SpanNone(first);
    assert have + {} == have;
  }

  // ----- how the counts go on

  lemma CountedNothing(m: Memory, n: nat, d: nat)
    requires d < |m|
    ensures Counted(m, n, m, n, d, {}, 0)
  {
    assert Tables(m, d) + {} == Tables(m, d);
  }

  lemma CountedThen(m0: Memory, n0: nat, m1: Memory, n1: nat, m2: Memory, n2: nat, d: nat, a: set<nat>, p: nat,
                    b: set<nat>, q: nat)
    requires Counted(m0, n0, m1, n1, d, a, p) && Counted(m1, n1, m2, n2, d, b, q)
    ensures Counted(m0, n0, m2, n2, d, a + b, p + q)
  {
    assert (Tables(m0, d) + a) + b == Tables(m0, d) + (a + b);
  }

  // The tables are the same ones.
  lemma CountedSame(m0: Memory, n0: nat, m1: Memory, n1: nat, m2: Memory, d: nat, a: set<nat>, p: nat)
    requires Counted(m0, n0, m1, n1, d, a, p) && d < |m2|
    requires forall i {:trigger Table(m2, d, i)} :: 0 <= i < NPTENTRIES ==> Table(m2, d, i) == Table(m1, d, i)
    ensures Counted(m0, n0, m2, n1, d, a, p)
  {
    assert Tables(m2, d) == Tables(m1, d);
  }

  // walkpgdir finds the table of entry i.
  lemma CountedFound(m: Memory, n: nat, d: nat, i: nat)
    requires d < |m| && i < NPTENTRIES && Table(m, d, i) != 0
    ensures Counted(m, n, m, n, d, {i}, 0)
  {
    assert Tables(m, d) + {i} == Tables(m, d);
  }

  // walkpgdir makes it.
  lemma CountedMade(m: Memory, n: nat, d: nat, i: nat, f: nat, lo: nat, hi: nat)
    requires SpaceOk(m, d, lo, hi) && i < NPTENTRIES && Table(m, d, i) == 0 && lo <= f < hi && !Owns(m, d, f) && n > 0
    ensures Counted(m, n, WithTable(m, d, i, f), n - 1, d, {i}, 0)
  {
    var m' := WithTable(m, d, i, f);
    WithTableTables(m, d, i, f, lo, hi);
    hide Table, Owns, SpaceOk, WithTable;
    forall j: nat
      ensures j in Tables(m', d) <==> j in Tables(m, d) || j == i
    {
      if j < NPTENTRIES {
        assert Table(m', d, j) == if j == i then f else Table(m, d, j);
      }
    }
    assert Tables(m', d) == Tables(m, d) + {i};
    SizeWith(Tables(m, d), i);
  }

  // An entry is written.
  lemma CountedEntry(m0: Memory, n0: nat, m: Memory, n: nat, d: nat, a: set<nat>, pages: nat, p: nat, e: nat, lo: nat,
                     hi: nat)
    requires Counted(m0, n0, m, n, d, a, pages)
    requires SpaceOk(m, d, lo, hi) && p < NPAGES && Table(m, d, p / NPTENTRIES) != 0
    ensures Counted(m0, n0, WithPte(m, d, p, e), n, d, a, pages)
  {
    WithPteTables(m, d, p, e, lo, hi);
    CountedSame(m0, n0, m, n, WithPte(m, d, p, e), d, a, pages);
  }

  // ----- numbers of tables

  lemma {:induction false} SpanSize(k: nat)
    requires k <= NPTENTRIES
    ensures |Span(0, k * NPTENTRIES)| == k
  {
    if k == 0 {
      SpanNone(0);
    } else {
      SpanSize(k - 1);
      assert Span(0, k * NPTENTRIES) == Span(0, (k - 1) * NPTENTRIES) + {k - 1};
    }
  }

  // Pages from 0 on, where none has a table yet: one for every 1024 of them.
  lemma NeedFromStart(have: set<nat>, n: nat)
    requires n <= NPAGES && forall i :: i in have && i < NPTENTRIES ==> i * NPTENTRIES >= n
    ensures Need(have, 0, n) == n + (n + NPTENTRIES - 1) / NPTENTRIES
  {
    var k := (n + NPTENTRIES - 1) / NPTENTRIES;
    SpanSize(k);
    assert Span(0, n) == Span(0, k * NPTENTRIES);
    assert have !! Span(0, n);
    assert |have + Span(0, n)| == |have| + |Span(0, n)|;
  }
}
