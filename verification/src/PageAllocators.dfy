/** The two page allocators that came before the page tree: a bitmap over a fixed region, and an ordered map from page
    addresses to a dirty bit. Both are described by sets of page numbers, like the tree. */
module PageAllocators {
  import opened Options
  import opened Bits
  import opened Bitmaps
  import opened Runs

  const PAGE_BITS: nat := 12
  const PAGE_IS_FREE: bool := false

  datatype Error = PageNotFound | PageExists

  datatype Result<+T> = Ok(value: T) | Err(error: Error)

  // Addresses and page numbers

  predicate IsAlignedToPage(addr: nat) {
    And(addr, PAGE_SIZE - 1) == 0
  }

  lemma AlignedIff(addr: nat)
    ensures IsAlignedToPage(addr) <==> addr % PAGE_SIZE == 0
  {
    assert Pow2(PAGE_BITS) == PAGE_SIZE;
    AndLow(addr, PAGE_BITS);
  }

  lemma PageOf(addr: nat)
    requires addr % PAGE_SIZE == 0
    ensures addr == addr / PAGE_SIZE * PAGE_SIZE
  {
  }

  /** `ok` fails when the assertion does. */
  method ConvertIndexToAddr(start: nat, index: nat) returns (ok: bool, addr: nat)
    ensures ok <==> start % PAGE_SIZE == 0
    ensures addr == start + index * PAGE_SIZE
    ensures ok ==> addr % PAGE_SIZE == 0 && addr / PAGE_SIZE == start / PAGE_SIZE + index
  {
    AlignedIff(start);
    return IsAlignedToPage(start), start + index * PAGE_SIZE;
  }

  method ConvertAddrToIndex(start: nat, addr: nat) returns (ok: bool, index: nat)
    ensures ok <==> addr >= start && start % PAGE_SIZE == 0 && addr % PAGE_SIZE == 0
    ensures ok ==> addr / PAGE_SIZE == start / PAGE_SIZE + index
  {
    AlignedIff(start);
    AlignedIff(addr);
    if !(addr >= start && IsAlignedToPage(start) && IsAlignedToPage(addr)) {
      return false, 0;
    }
    PageOf(addr);
    PageOf(start);
    return true, (addr - start) / PAGE_SIZE;
  }

  // The bitmap allocator

  /** The pages of a bitmap whose first page is `base`. */
  ghost function FreeOf(bits: seq<bool>, base: nat): (r: set<nat>)
    ensures forall p :: p in r <==> base <= p < base + |bits| && bits[p - base] == PAGE_IS_FREE
  {
    set i | 0 <= i < |bits| && bits[i] == PAGE_IS_FREE :: base + i
  }

  lemma FreeRun(bits: seq<bool>, base: nat, i: nat, k: nat)
    requires k > 0
    ensures AllAre(bits, i, k, PAGE_IS_FREE) <==> Fits(FreeOf(bits, base), base + i, k)
  {
    var run := Run(base + i, k);
    if AllAre(bits, i, k, PAGE_IS_FREE) {
      assert forall p :: p in run ==> bits[p - base] == PAGE_IS_FREE;
    }
    if Fits(FreeOf(bits, base), base + i, k) {
      assert base + i + (k - 1) in run;
      forall j | i <= j < i + k
        ensures bits[j] == PAGE_IS_FREE
      {
        assert base + j in run;
      }
    }
  }

  lemma LeastFree(bits: seq<bool>, base: nat, i: nat, k: nat)
    requires k > 0 && AllAre(bits, i, k, PAGE_IS_FREE)
    requires forall s :: 0 <= s < i ==> !AllAre(bits, s, k, PAGE_IS_FREE)
    ensures IsLeastRun(FreeOf(bits, base), base + i, k)
  {
    FreeRun(bits, base, i, k);
    forall s: nat | Fits(FreeOf(bits, base), s, k)
      ensures base + i <= s
    {
      FreeRun(bits, base, s - base, k);
    }
  }

  lemma NoneFree(bits: seq<bool>, base: nat, k: nat)
    requires k > 0 && forall s :: 0 <= s ==> !AllAre(bits, s, k, PAGE_IS_FREE)
    ensures NoRun(FreeOf(bits, base), k)
  {
    forall s: nat
      ensures !Fits(FreeOf(bits, base), s, k)
    {
      if s >= base {
        FreeRun(bits, base, s - base, k);
      }
    }
  }

  lemma PaintedFree(bits: seq<bool>, base: nat, i: nat, k: nat, bits': seq<bool>)
    requires i + k <= |bits|
    ensures bits' == Painted(bits, i, k, !PAGE_IS_FREE) ==> FreeOf(bits', base) == FreeOf(bits, base) - Run(base + i, k)
    ensures bits' == Painted(bits, i, k, PAGE_IS_FREE) ==> FreeOf(bits', base) == FreeOf(bits, base) + Run(base + i, k)
  {
    if bits' == Painted(bits, i, k, !PAGE_IS_FREE) {
      forall p
        ensures p in FreeOf(bits', base) <==> p in FreeOf(bits, base) - Run(base + i, k)
      {
      }
    }
    if bits' == Painted(bits, i, k, PAGE_IS_FREE) {
      forall p
        ensures p in FreeOf(bits', base) <==> p in FreeOf(bits, base) + Run(base + i, k)
      {
      }
    }
  }

  lemma Taken(bits: seq<bool>, bits': seq<bool>, base: nat, i: nat, k: nat)
    requires k > 0 && AllAre(bits, i, k, PAGE_IS_FREE)
    requires forall s :: 0 <= s < i ==> !AllAre(bits, s, k, PAGE_IS_FREE)
    requires bits' == Painted(bits, i, k, !PAGE_IS_FREE)
    ensures IsLeastRun(FreeOf(bits, base), base + i, k)
    ensures FreeOf(bits', base) == FreeOf(bits, base) - Run(base + i, k)
  {
    LeastFree(bits, base, i, k);
    PaintedFree(bits, base, i, k, bits');
  }

  lemma Freed(bits: seq<bool>, bits': seq<bool>, base: nat, i: nat, k: nat)
    requires i + k <= |bits| && bits' == Painted(bits, i, k, PAGE_IS_FREE)
    ensures FreeOf(bits', base) == FreeOf(bits, base) + Run(base + i, k)
  {
    PaintedFree(bits, base, i, k, bits');
  }

  class PageMap {
    const pool: Bitmap
    const start: nat
    const size: nat

    ghost predicate Valid()
      reads this, pool, pool.bits
    {
      pool.Valid() && pool.bitCount == size / PAGE_SIZE
    }

    /** The first page of the region. */
    function Base(): nat {
      start / PAGE_SIZE
    }

    /** The numbers of the free pages. */
    ghost function Free(): set<nat>
      requires Valid()
      reads this, pool, pool.bits
    {
      FreeOf(pool.Contents(), Base())
    }

    constructor (start: nat, size: nat)
      ensures Valid() && this.start == start && this.size == size && fresh(pool) && fresh(pool.bits)
      ensures Free() == Run(start / PAGE_SIZE, size / PAGE_SIZE)
    {
      pool := new Bitmap(size / PAGE_SIZE);
      this.start, this.size := start, size;
    }

    /** The lowest run of pages; `ok` fails where machine arithmetic does. */
    method FlipFree(count: nat) returns (ok: bool, found: Option<nat>)
      requires Valid()
      modifies pool.bits
      ensures Valid() && (ok <==> 1 <= count <= pool.bitCount + 1)
      ensures ok && found.Some? ==>
        IsLeastRun(old(Free()), Base() + found.value, count)
        && Free() == old(Free()) - Run(Base() + found.value, count)
      ensures ok && found.None? ==> NoRun(old(Free()), count) && Free() == old(Free())
      ensures !ok ==> Free() == old(Free())
    {
      ghost var before := pool.Contents();
      ok, found := pool.FindAndFlip(0, count, PAGE_IS_FREE);
      if ok && found.None? {
        NoneFree(before, Base(), count);
      }
      if ok && found.Some? {
        assert pool.Contents() == Painted(before, found.value, count, !PAGE_IS_FREE);
        Taken(before, pool.Contents(), Base(), found.value, count);
      }
    }

    /** The address of the lowest run of pages; `ok` fails where an assertion or machine arithmetic does. */
    method GetMultiple(count: nat) returns (ok: bool, r: Result<nat>)
      requires Valid()
      modifies pool.bits
      ensures Valid()
      ensures ok <==>
        1 <= count <= size / PAGE_SIZE + 1 && (start % PAGE_SIZE == 0 || NoRun(old(Free()), count))
      ensures ok && r.Ok? ==>
        && r.value % PAGE_SIZE == 0 && IsLeastRun(old(Free()), r.value / PAGE_SIZE, count)
        && Free() == old(Free()) - Run(r.value / PAGE_SIZE, count)
      ensures ok && r.Err? ==> r.error == PageNotFound && NoRun(old(Free()), count) && Free() == old(Free())
      ensures !ok ==>
        if 1 <= count <= size / PAGE_SIZE + 1
        then exists page :: IsLeastRun(old(Free()), page, count) && Free() == old(Free()) - Run(page, count)
        else Free() == old(Free())
    {
      var found, addr;
      ok, found := FlipFree(count);
      if !ok || found.None? {
        return ok, Err(PageNotFound);
      }
      ghost var free, page := old(Free()), Base() + found.value;
      assert IsLeastRun(free, page, count) && Free() == free - Run(page, count);
      ok, addr := ConvertIndexToAddr(start, found.value);
      r := Ok(addr);
      assert ok ==> addr / PAGE_SIZE == page;
    }

    /** Gives back the run of pages at `addr`, which must all be taken. */
    method PutMultiple(addr: nat, count: nat) returns (ok: bool, r: Result<()>)
      requires Valid()
      modifies pool.bits
      ensures Valid()
      ensures var page := addr / PAGE_SIZE;
        && (ok <==> addr >= start && start % PAGE_SIZE == 0 && addr % PAGE_SIZE == 0
                    && page - Base() + count <= size / PAGE_SIZE)
        && (ok ==> (r.Ok? <==> Run(page, count) !! old(Free())))
        && Free() == if ok && r.Ok? then old(Free()) + Run(page, count) else old(Free())
      ensures ok && r.Err? ==> r.error == PageExists
    {
      r := Err(PageExists);
      var index, full;
      ok, index := ConvertAddrToIndex(start, addr);
      if !ok {
        return;
      }
      ghost var page := Base() + index;
      assert addr / PAGE_SIZE == page;
      ok, full := FreeTaken(index, count);
      r := if full then Ok(()) else r;
    }

    /** Frees a run if all of it is taken; `ok` fails where the run ends past the end. */
    method FreeTaken(index: nat, count: nat) returns (ok: bool, full: bool)
      requires Valid()
      modifies pool.bits
      ensures Valid() && (ok <==> index + count <= pool.bitCount) && (!ok ==> !full)
      ensures ok ==> (full <==> Run(Base() + index, count) !! old(Free()))
      ensures Free() == if full then old(Free()) + Run(Base() + index, count) else old(Free())
    {
      ghost var before := pool.Contents();
      ok, full := pool.All(index, count, !PAGE_IS_FREE);
      if !ok {
        return false, false;
      }
      TakenRun(before, Base(), index, count);
      if full {
        ok := pool.SetMultiple(index, count, PAGE_IS_FREE);
        assert pool.Contents() == Painted(before, index, count, PAGE_IS_FREE);
        Freed(before, pool.Contents(), Base(), index, count);
      }
    }
  }

  lemma TakenRun(bits: seq<bool>, base: nat, i: nat, k: nat)
    requires i + k <= |bits|
    ensures AllAre(bits, i, k, !PAGE_IS_FREE) <==> Run(base + i, k) !! FreeOf(bits, base)
  {
    if !AllAre(bits, i, k, !PAGE_IS_FREE) {
      var j :| i <= j < i + k && bits[j] == PAGE_IS_FREE;
      assert base + j in Run(base + i, k) && base + j in FreeOf(bits, base);
    }
  }

  // The ordered-map allocator

  predicate AllHave(pages: map<nat, bool>, addr: nat, count: nat, value: bool) {
    forall i :: 0 <= i < count ==> addr + i * PAGE_SIZE in pages && pages[addr + i * PAGE_SIZE] == value
  }

  predicate AnyHas(pages: map<nat, bool>, addr: nat, count: nat, value: bool) {
    exists i :: 0 <= i < count && addr + i * PAGE_SIZE in pages && pages[addr + i * PAGE_SIZE] == value
  }

  /** `pages` with a run of entries set. */
  ghost function Marked(pages: map<nat, bool>, addr: nat, count: nat, value: bool): (r: map<nat, bool>) {
    if count == 0 then pages
    else Marked(pages, addr, count - 1, value)[addr + (count - 1) * PAGE_SIZE := value]
  }

  ghost predicate Paged(pages: map<nat, bool>) {
    forall a :: a in pages ==> a % PAGE_SIZE == 0
  }

  ghost function PagesOf(pages: map<nat, bool>): set<nat> {
    set a | a in pages && a % PAGE_SIZE == 0 && pages[a] == PAGE_IS_FREE :: a / PAGE_SIZE
  }

  lemma InPagesOf(pages: map<nat, bool>, p: nat)
    ensures p in PagesOf(pages) <==> p * PAGE_SIZE in pages && pages[p * PAGE_SIZE] == PAGE_IS_FREE
  {
    var a := p * PAGE_SIZE;
    assert a % PAGE_SIZE == 0 && a / PAGE_SIZE == p;
    if p in PagesOf(pages) {
      var b :| b in pages && b % PAGE_SIZE == 0 && pages[b] == PAGE_IS_FREE && b / PAGE_SIZE == p;
      PageOf(b);
    }
  }

  /** Runs of free entries are runs of free pages. */
  lemma AllHaveRun(pages: map<nat, bool>, p: nat, k: nat)
    ensures AllHave(pages, p * PAGE_SIZE, k, PAGE_IS_FREE) <==> Run(p, k) <= PagesOf(pages)
    ensures AnyHas(pages, p * PAGE_SIZE, k, PAGE_IS_FREE) <==> !(Run(p, k) !! PagesOf(pages))
  {
    forall i: nat
      ensures p + i in PagesOf(pages) <==>
        p * PAGE_SIZE + i * PAGE_SIZE in pages && pages[p * PAGE_SIZE + i * PAGE_SIZE] == PAGE_IS_FREE
    {
      InPagesOf(pages, p + i);
    }
    if AllHave(pages, p * PAGE_SIZE, k, PAGE_IS_FREE) {
      forall q | q in Run(p, k)
        ensures q in PagesOf(pages)
      {
        var i := q - p;
        assert p + i == q && p * PAGE_SIZE + i * PAGE_SIZE in pages;
      }
    }
    if Run(p, k) <= PagesOf(pages) {
      forall i | 0 <= i < k
        ensures p * PAGE_SIZE + i * PAGE_SIZE in pages && pages[p * PAGE_SIZE + i * PAGE_SIZE] == PAGE_IS_FREE
      {
        assert p + i in Run(p, k);
      }
    }
    if q :| q in Run(p, k) && q in PagesOf(pages) {
      var i := q - p;
      assert p + i == q && p * PAGE_SIZE + i * PAGE_SIZE in pages;
    }
    if i :| 0 <= i < k && p * PAGE_SIZE + i * PAGE_SIZE in pages && pages[p * PAGE_SIZE + i * PAGE_SIZE] == PAGE_IS_FREE {
      assert p + i in Run(p, k) && p + i in PagesOf(pages);
    }
  }

  lemma MarkOne(pages: map<nat, bool>, p: nat, value: bool)
    requires Paged(pages)
    ensures var pages' := pages[p * PAGE_SIZE := value];
      && Paged(pages')
      && PagesOf(pages') == if value == PAGE_IS_FREE then PagesOf(pages) + {p} else PagesOf(pages) - {p}
  {
    var pages' := pages[p * PAGE_SIZE := value];
    assert p * PAGE_SIZE % PAGE_SIZE == 0;
    forall q: nat
      ensures q in PagesOf(pages') <==> if q == p then value == PAGE_IS_FREE else q in PagesOf(pages)
    {
      InPagesOf(pages, q);
      InPagesOf(pages', q);
      assert q * PAGE_SIZE == p * PAGE_SIZE <==> q == p;
    }
  }

  lemma {:induction false} MarkedPages(pages: map<nat, bool>, p: nat, k: nat, value: bool)
    requires Paged(pages)
    ensures var pages' := Marked(pages, p * PAGE_SIZE, k, value);
      && Paged(pages')
      && PagesOf(pages') == if value == PAGE_IS_FREE then PagesOf(pages) + Run(p, k) else PagesOf(pages) - Run(p, k)
  {
    if k > 0 {
      MarkedPages(pages, p, k - 1, value);
      MarkOne(Marked(pages, p * PAGE_SIZE, k - 1, value), p + (k - 1), value);
      MarkedLast(pages, p, k, value);
      RunLast(PagesOf(pages), p, k);
    }
  }

  lemma MarkedLast(pages: map<nat, bool>, p: nat, k: nat, value: bool)
    requires k > 0
    ensures Marked(pages, p * PAGE_SIZE, k, value) ==
      Marked(pages, p * PAGE_SIZE, k - 1, value)[(p + (k - 1)) * PAGE_SIZE := value]
  {
  }

  lemma RunLast(s: set<nat>, p: nat, k: nat)
    requires k > 0
    ensures s + Run(p, k - 1) + {p + (k - 1)} == s + Run(p, k)
    ensures s - Run(p, k - 1) - {p + (k - 1)} == s - Run(p, k)
  {
  }

  class PageSet {
    var pages: map<nat, bool>

    constructor ()
      ensures pages == map[]
    {
      pages := map[];
    }

    /** The lowest address of a run of free entries. */
    method GetMultiple(count: nat) returns (r: Result<nat>)
      modifies this
      ensures r.Ok? ==>
        && r.value in old(pages) && AllHave(old(pages), r.value, count, PAGE_IS_FREE)
        && (forall a :: a in old(pages) && AllHave(old(pages), a, count, PAGE_IS_FREE) ==> r.value <= a)
        && pages == Marked(old(pages), r.value, count, !PAGE_IS_FREE)
      ensures r.Err? ==>
        && r.error == PageNotFound && pages == old(pages)
        && forall a :: a in pages ==> !AllHave(pages, a, count, PAGE_IS_FREE)
    {
      var rest := pages.Keys;
      while rest != {}
        invariant rest <= pages.Keys && pages == old(pages)
        invariant forall a, b :: a in pages && a !in rest && b in rest ==> a < b
        invariant forall a :: a in pages && a !in rest ==> !AllHave(pages, a, count, PAGE_IS_FREE)
      {
        ghost var m := LeastExists(rest);
        var p :| p in rest && forall q :: q in rest ==> p <= q;
        if AllHave(pages, p, count, PAGE_IS_FREE) {
          MarkRun(p, count, !PAGE_IS_FREE);
          return Ok(p);
        }
        rest := rest - {p};
      }
      return Err(PageNotFound);
    }

    /** Adds a run of entries, or frees them, unless one of them is free. */
    method PutMultiple(start: nat, count: nat) returns (r: Result<()>)
      modifies this
      ensures r.Ok? <==> !AnyHas(old(pages), start, count, PAGE_IS_FREE)
      ensures pages == if r.Ok? then Marked(old(pages), start, count, PAGE_IS_FREE) else old(pages)
      ensures r.Err? ==> r.error == PageExists
    {
      if AnyHas(pages, start, count, PAGE_IS_FREE) {
        return Err(PageExists);
      }
      MarkRun(start, count, PAGE_IS_FREE);
      return Ok(());
    }

    method MarkRun(start: nat, count: nat, value: bool)
      modifies this
      ensures pages == Marked(old(pages), start, count, value)
    {
      for i := 0 to count
        invariant pages == Marked(old(pages), start, i, value)
      {
        pages := pages[start + i * PAGE_SIZE := value];
      }
    }
  }

  lemma LeastExists(s: set<nat>) returns (m: nat)
    requires s != {}
    ensures m in s && forall q :: q in s ==> m <= q
  {
    var p :| p in s;
    var rest := s - {p};
    assert forall q :: q in s ==> q == p || q in rest;
    m := p;
    if rest != {} {
      m := LeastExists(rest);
      m := if p < m then p else m;
    }
  }

  /** On page-aligned keys, what `PageSet.GetMultiple` finds is the lowest run of pages. */
  lemma LowestRun(pages: map<nat, bool>, p: nat, k: nat)
    requires k > 0 && AllHave(pages, p * PAGE_SIZE, k, PAGE_IS_FREE)
    requires forall b :: b in pages && AllHave(pages, b, k, PAGE_IS_FREE) ==> p * PAGE_SIZE <= b
    ensures IsLeastRun(PagesOf(pages), p, k)
  {
    AllHaveRun(pages, p, k);
    assert p in Run(p, k);
    forall s: nat | Fits(PagesOf(pages), s, k)
      ensures p <= s
    {
      AllHaveRun(pages, s, k);
      InPagesOf(pages, s);
    }
  }

  lemma NoLowestRun(pages: map<nat, bool>, k: nat)
    requires forall b :: b in pages ==> !AllHave(pages, b, k, PAGE_IS_FREE)
    ensures NoRun(PagesOf(pages), k)
  {
    forall s: nat
      ensures !Fits(PagesOf(pages), s, k)
    {
      AllHaveRun(pages, s, k);
      InPagesOf(pages, s);
    }
  }
}
