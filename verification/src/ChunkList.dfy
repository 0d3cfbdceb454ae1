/** The first-fit allocator. A free chunk starts with a header of two words, its size and the address of the next
    free chunk (0 for none), written into the very memory that is handed out later. Memory maps the address of each
    8-byte word to its value. */
module ChunkLists {
  import opened Options
  import opened Bits

  const HEADER: nat := 16

  datatype Layout = Layout(size: nat, align: nat)

  /** A stretch of memory: a free chunk or a block handed out. */
  datatype Block = Block(addr: nat, size: nat) {
    function End(): nat {
      addr + size
    }

    predicate Contains(x: nat) {
      addr <= x < addr + size
    }
  }

  predicate Apart(b: Block, c: Block) {
    b.End() <= c.addr || c.End() <= b.addr
  }

  // Layouts

  /** The largest size that the layout type of the language admits for an alignment. */
  function FromSizeAlign(size: nat, align: nat): Option<Layout>
    requires IsPow2(align)
  {
    if size + align <= Pow2(63) then Some(Layout(size, align)) else None
  }

  /** Makes a request large and aligned enough for a header. `None`: the code stops, the size being out of range. */
  function AlignLayout(l: Layout): Option<Layout>
    requires IsPow2(l.align)
  {
    var size := if l.size < HEADER then HEADER else l.size;
    var align := if l.align < 8 then 8 else l.align;
    if FromSizeAlign(size, l.align).None? then None
    else
      assert IsPow2(8) by { Pow2Of64(); }
      if FromSizeAlign(size, align).None? then None
      else
        Pow2Of64();
        Some(Layout(AlignUp(size, align), align))
  }

  /** The layouts that `pop_first_fit` is called with. */
  predicate Normal(l: Layout) {
    l.align < USIZE_LIMIT && IsPow2(l.align) && l.align % 8 == 0 && l.size % 8 == 0 && l.size >= HEADER
  }

  lemma {:induction false} Pow2Eighths(k: nat)
    requires k >= 3
    ensures Pow2(k) % 8 == 0
  {
    if k > 3 {
      Pow2Eighths(k - 1);
      SumMod(Pow2(k - 1), Pow2(k - 1), 8);
    } else {
      assert Pow2(3) == 8;
    }
  }

  lemma {:induction false} Pow2AtLeast8(n: nat)
    requires IsPow2(n) && n >= 8
    ensures n % 8 == 0
  {
    IsPow2Iff(n);
    var k: nat :| n == Pow2(k);
    assert Pow2(2) == 4;
    if k < 3 { Pow2Mono(k, 2); }
    Pow2Eighths(k);
  }

  lemma {:induction false} MultipleOfMultiple(x: nat, align: nat)
    requires align > 0 && align % 8 == 0 && x % align == 0
    ensures x % 8 == 0
  {
    var q, p := x / align, align / 8;
    assert x == align * q == 8 * p * q == 8 * (p * q);
    ModUnique(x, 8, p * q, 0);
  }

  /** An aligned layout is large and aligned enough for a header, and covers the request. */
  lemma AlignLayoutCovers(l: Layout)
    requires IsPow2(l.align)
    ensures var size := if l.size < HEADER then HEADER else l.size; var align := if l.align < 8 then 8 else l.align;
      AlignLayout(l).Some? <==> size + align <= Pow2(63)
    ensures AlignLayout(l).Some? ==>
      var r := AlignLayout(l).value;
      Normal(r) && r.size % r.align == 0 && l.size <= r.size && l.align <= r.align
  {
    Pow2Of64();
    if AlignLayout(l).Some? {
      var r := AlignLayout(l).value;
      AlignUpLeast(if l.size < HEADER then HEADER else l.size, r.align);
      Pow2AtLeast8(r.align);
      MultipleOfMultiple(r.size, r.align);
    }
  }

  /** `r` is `l` made large and aligned enough for a header, and no larger than that takes. */
  predicate LeastAligned(l: Layout, r: Layout) {
    var size := if l.size < HEADER then HEADER else l.size;
    && r.align == (if l.align < 8 then 8 else l.align)
    && size <= r.size < size + r.align && r.size % r.align == 0
  }

  lemma AlignLayoutIs(l: Layout)
    requires IsPow2(l.align) && AlignLayout(l).Some?
    ensures LeastAligned(l, AlignLayout(l).value)
  {
    Pow2Of64();
    AlignUpLeast(if l.size < HEADER then HEADER else l.size, AlignLayout(l).value.align);
  }

  /** It is the least such layout: the alignment is the request's or a word's, whichever is greater, and no smaller
      multiple of it is enough. */
  lemma AlignLayoutLeast(l: Layout, q: nat)
    requires IsPow2(l.align) && AlignLayout(l).Some?
    ensures var r := AlignLayout(l).value;
      && r.align == (if l.align < 8 then 8 else l.align)
      && (q % r.align == 0 && q >= l.size && q >= HEADER ==> r.size <= q)
  {
    var r, size := AlignLayout(l).value, if l.size < HEADER then HEADER else l.size;
    AlignLayoutIs(l);
    if q % r.align == 0 && size <= q < r.size { NoMultipleBetween(q, r.size, r.align); }
  }

  lemma MulNonNegative(m: int, d: int)
    requires m > 0 && d >= 0
    ensures m * d >= 0 && m * -d == -(m * d)
  {
    if d > 0 { MulAtLeast(m, d); }
  }

  lemma NoMultipleBetween(q: nat, p: nat, align: nat)
    requires align > 0 && q < p && q % align == 0 && p % align == 0
    ensures q + align <= p
  {
    var i, j := q / align, p / align;
    assert q == align * i && p == align * j;
    assert align * (j - i) == p - q;
    if j <= i {
      MulNonNegative(align, i - j);
    } else {
      MulAtLeast(align, j - i);
    }
  }

  lemma {:induction false} Pow2Divides(k: nat, w: nat)
    requires k <= w
    ensures Pow2(w) % Pow2(k) == 0
  {
    if k == 0 {
      ModUnique(Pow2(w), 1, Pow2(w), 0);
    } else {
      Pow2Divides(k - 1, w - 1);
      DoubleMod(Pow2(w), Pow2(w - 1), 0, Pow2(k - 1));
    }
  }

  /** An aligned address has a whole unit of its alignment before the top of the address space. */
  lemma AlignedBelowTop(p: nat, align: nat)
    requires IsPow2(align) && align < USIZE_LIMIT && p % align == 0 && p < USIZE_LIMIT
    ensures p + align <= USIZE_LIMIT
  {
    IsPow2Iff(align);
    var k: nat :| align == Pow2(k);
    if k > WORD_BITS { Pow2Mono(WORD_BITS, k); }
    Pow2Divides(k, WORD_BITS);
    NoMultipleBetween(p, USIZE_LIMIT, align);
  }

  // Fitting a request into a chunk

  /** The additions on the way to the first place do not leave the machine's range. */
  predicate StartInRange(b: Block, l: Layout)
    requires Normal(l)
  {
    && b.End() < USIZE_LIMIT && b.addr + l.align - 1 < USIZE_LIMIT
    && (b.addr == AlignUp(b.addr, l.align) || b.addr + HEADER + l.align - 1 < USIZE_LIMIT)
  }

  /** The place that the code tries. */
  function FirstPlace(b: Block, l: Layout): nat
    requires Normal(l) && StartInRange(b, l)
  {
    if b.addr == AlignUp(b.addr, l.align) then b.addr else AlignUp(b.addr + HEADER, l.align)
  }

  /** None of the additions for the request overflows; an overflow stops the kernel. */
  predicate InRange(b: Block, l: Layout)
    requires Normal(l)
  {
    StartInRange(b, l) && FirstPlace(b, l) + l.size + 7 < USIZE_LIMIT
  }

  /** The least multiple of `m` that is not below `x`. */
  function NextMultiple(x: nat, m: nat): nat
    requires m > 0
  {
    if x % m == 0 then x else x + (m - x % m)
  }

  lemma NextMultipleIs(x: nat, m: nat, p: nat)
    requires m > 0 && p % m == 0 && x <= p < x + m
    ensures p == NextMultiple(x, m)
  {
    var q, r := x / m, x % m;
    assert x == m * q + r;
    if r != 0 {
      assert NextMultiple(x, m) == m * q + m == m * (q + 1);
      ModUnique(NextMultiple(x, m), m, q + 1, 0);
    }
    if p < NextMultiple(x, m) {
      NoMultipleBetween(p, NextMultiple(x, m), m);
    } else if p > NextMultiple(x, m) {
      NoMultipleBetween(NextMultiple(x, m), p, m);
    }
  }

  lemma RoundedPlace(addr: nat, align: nat)
    requires align < USIZE_LIMIT && IsPow2(align) && addr + align - 1 < USIZE_LIMIT
    ensures AlignUp(addr, align) == NextMultiple(addr, align) && (addr % align != 0 ==> AlignUp(addr, align) != addr)
  {
    AlignUpLeast(addr, align);
    NextMultipleIs(addr, align, AlignUp(addr, align));
  }

  /** What that asks of a chunk and a request: the end of the chunk, the address that is rounded up to the alignment,
      and the end of the block, rounded to words, are below the top of the address space. */
  lemma InRangeIff(b: Block, l: Layout)
    requires Normal(l)
    ensures var start := if b.addr % l.align == 0 then b.addr else b.addr + HEADER;
      InRange(b, l) <==>
        b.End() < USIZE_LIMIT && start + l.align - 1 < USIZE_LIMIT && NextMultiple(start, l.align) + l.size + 7 < USIZE_LIMIT
  {
    var addr, align := b.addr, l.align;
    if addr + align - 1 < USIZE_LIMIT {
      RoundedPlace(addr, align);
      if addr + HEADER + align - 1 < USIZE_LIMIT { RoundedPlace(addr + HEADER, align); }
    }
  }

  predicate Headroom(gap: nat) {
    gap == 0 || gap >= HEADER
  }

  /** Where the block may start: aligned, and with nothing or room for a header before it. */
  predicate Placement(b: Block, l: Layout, p: nat)
    requires l.align > 0
  {
    b.addr <= p && p % l.align == 0 && Headroom(p - b.addr)
  }

  lemma {:induction false} FirstPlaceAligned(b: Block, l: Layout)
    requires Normal(l) && InRange(b, l)
    ensures Placement(b, l, FirstPlace(b, l)) && FirstPlace(b, l) % 8 == 0
    ensures b.addr % l.align == 0 ==> FirstPlace(b, l) == b.addr
    ensures b.addr % l.align != 0 ==> b.addr + HEADER <= FirstPlace(b, l) < b.addr + HEADER + l.align
  {
    AlignUpLeast(b.addr, l.align);
    if b.addr != AlignUp(b.addr, l.align) {
      AlignUpLeast(b.addr + HEADER, l.align);
    }
    MultipleOfMultiple(FirstPlace(b, l), l.align);
  }

  /** It is the least place at which the block may start. */
  lemma {:induction false} FirstPlaceLeast(b: Block, l: Layout, q: nat)
    requires Normal(l) && InRange(b, l) && Placement(b, l, q)
    ensures FirstPlace(b, l) <= q
  {
    FirstPlaceAligned(b, l);
    var p := FirstPlace(b, l);
    if q < p { NoMultipleBetween(q, p, l.align); }
  }

  /** A block at a first place can be looked at as a chunk for the same request. */
  lemma PlaceInRange(c: Block, l: Layout, b: Block)
    requires Normal(l) && InRange(c, l) && b == Block(FirstPlace(c, l), l.size)
    ensures InRange(b, l) && b.addr % l.align == 0
  {
    FirstPlaceAligned(c, l);
    AlignedBelowTop(b.addr, l.align);
    AlignUpLeast(b.addr, l.align);
  }

  /** Does a block of `size` bytes from `start` fit, leaving nothing or room for a header behind it? */
  function FitAt(b: Block, start: nat, size: nat): Option<(nat, nat)>
    requires b.addr <= start && start + size + 7 < USIZE_LIMIT
  {
    var end := AlignWords(start + size);
    if b.End() < end then None
    else
      var left := b.End() - end;
      if left == 0 || left >= HEADER then Some((start - b.addr, end - b.addr)) else None
  }

  lemma FitAtIff(b: Block, p: nat, size: nat)
    requires b.addr <= p && p + size + 7 < USIZE_LIMIT && p % 8 == 0 && size % 8 == 0
    ensures FitAt(b, p, size).Some? <==> p + size <= b.End() && Headroom(b.End() - (p + size))
    ensures FitAt(b, p, size).Some? ==> FitAt(b, p, size).value == (p - b.addr, p - b.addr + size)
  {
    SumMod(p, size, 8);
  }

  /** The offsets in the chunk at which a block of layout `l` would start and end. */
  function CanAllocate(b: Block, l: Layout): Option<(nat, nat)>
    requires Normal(l) && InRange(b, l)
  {
    FirstPlaceAligned(b, l);
    FitAt(b, FirstPlace(b, l), l.size)
  }

  /** The request fits exactly when its least place leaves nothing or room for a header behind the block. */
  lemma {:induction false} CanAllocateIff(b: Block, l: Layout)
    requires Normal(l) && InRange(b, l)
    ensures var p := FirstPlace(b, l);
      && p >= b.addr
      && (CanAllocate(b, l).Some? <==> p + l.size <= b.End() && Headroom(b.End() - (p + l.size)))
      && (CanAllocate(b, l).Some? ==> CanAllocate(b, l).value == (p - b.addr, p - b.addr + l.size))
  {
    FirstPlaceAligned(b, l);
    FitAtIff(b, FirstPlace(b, l), l.size);
  }

  /** The rounding of `init_chunk`. */
  function Rounded(start: nat, size: nat): Block
    requires start + 7 < USIZE_LIMIT && size < USIZE_LIMIT
  {
    Block(AlignWords(start), RoundDownWords(size))
  }

  function RoundDownWords(size: nat): (r: nat)
    requires size < USIZE_LIMIT
    ensures r <= size < r + 8 && r % 8 == 0
  {
    Pow2Of64();
    AlignDownExact(size, 8);
    AlignDown(size, 8)
  }

  /** Rounding moves the start up but does not shorten the size by as much: the chunk stays inside the region given
      exactly if the start is aligned or the size has as many bytes to spare. */
  lemma RoundedInside(start: nat, size: nat)
    requires start + 7 < USIZE_LIMIT && size < USIZE_LIMIT
    ensures Rounded(start, size).addr % 8 == 0 && Rounded(start, size).size % 8 == 0
    ensures start <= Rounded(start, size).addr
    ensures Rounded(start, size).End() <= start + size <==> start % 8 == 0 || 8 - start % 8 <= size % 8
    ensures start % 8 == 0 ==> Rounded(start, size).addr == start
    ensures size % 8 == 0 ==> Rounded(start, size).size == size
  {
    RoundingGap(start, size, AlignWords(start), RoundDownWords(size));
  }

  lemma RoundingGap(start: nat, size: nat, up: nat, down: nat)
    requires start <= up < start + 8 && up % 8 == 0 && down <= size < down + 8 && down % 8 == 0
    ensures up + down <= start + size <==> start % 8 == 0 || 8 - start % 8 <= size % 8
    ensures start % 8 == 0 ==> up == start
    ensures size % 8 == 0 ==> down == size
  {
  }
}
