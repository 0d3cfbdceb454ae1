/** The allocator's state: its free list in memory, and the blocks it handed out. */
module Arenas {
  import opened Options
  import opened Bits
  import opened ChunkLists

  // Free chunks and live blocks partition the space

  predicate Good(b: Block, limit: nat) {
    8 <= b.addr && b.addr % 8 == 0 && b.size % 8 == 0 && b.size >= HEADER && b.End() <= limit
  }

  ghost predicate AllGood(free: seq<Block>, live: set<Block>, limit: nat) {
    && (forall i :: 0 <= i < |free| ==> Good(free[i], limit))
    && (forall b :: b in live ==> Good(b, limit))
  }

  ghost predicate AllApart(free: seq<Block>, live: set<Block>) {
    && (forall i, j :: 0 <= i < j < |free| ==> Apart(free[i], free[j]))
    && (forall i, b :: 0 <= i < |free| && b in live ==> Apart(free[i], b))
    && (forall b, c :: b in live && c in live && b != c ==> Apart(b, c))
  }

  ghost predicate InFree(free: seq<Block>, x: nat) {
    exists i :: 0 <= i < |free| && free[i].Contains(x)
  }

  ghost predicate InLive(live: set<Block>, x: nat) {
    exists b :: b in live && b.Contains(x)
  }

  /** Every byte of `space` lies in exactly one free chunk or live block, and no other byte does. */
  ghost predicate Partition(free: seq<Block>, live: set<Block>, space: set<nat>) {
    AllApart(free, live) && forall x :: x in space <==> InFree(free, x) || InLive(live, x)
  }

  predicate Within(c: Block, b: Block) {
    b.addr <= c.addr && c.End() <= b.End()
  }

  function Splice(free: seq<Block>, i: nat, pieces: seq<Block>): seq<Block>
    requires i < |free|
  {
    free[..i] + pieces + free[i + 1..]
  }

  lemma SpliceApart(free: seq<Block>, live: set<Block>, i: nat, pieces: seq<Block>, b: Block)
    requires AllApart(free, live) && i < |free|
    requires Within(b, free[i]) && forall k :: 0 <= k < |pieces| ==> Within(pieces[k], free[i]) && Apart(pieces[k], b)
    requires forall j, k :: 0 <= j < k < |pieces| ==> Apart(pieces[j], pieces[k])
    ensures AllApart(Splice(free, i, pieces), live + {b})
  {
    var s := Splice(free, i, pieces);
    forall j | 0 <= j < |s|
      ensures s[j] == if j < i then free[j] else if j < i + |pieces| then pieces[j - i] else free[j - |pieces| + 1]
    {
    }
    forall c | c in live
      ensures Apart(b, c)
    {
      assert Apart(free[i], c);
    }
    forall j | 0 <= j < |free| && j != i
      ensures Apart(free[j], b) && forall k :: 0 <= k < |pieces| ==> Apart(free[j], pieces[k])
    {
      assert Apart(free[j], free[i]);
    }
  }

  lemma SpliceCovers(free: seq<Block>, live: set<Block>, i: nat, pieces: seq<Block>, b: Block, x: nat)
    requires i < |free|
    requires free[i].Contains(x) <==> b.Contains(x) || InFree(pieces, x)
    ensures InFree(free, x) || InLive(live, x) <==> InFree(Splice(free, i, pieces), x) || InLive(live + {b}, x)
  {
    var s := Splice(free, i, pieces);
    if j :| 0 <= j < |free| && free[j].Contains(x) {
      if j < i {
        assert s[j] == free[j];
      } else if j > i {
        assert s[j - 1 + |pieces|] == free[j];
      } else if b.Contains(x) {
        assert b in live + {b};
      } else {
        var k :| 0 <= k < |pieces| && pieces[k].Contains(x);
        assert s[i + k] == pieces[k];
      }
    }
    if InLive(live, x) {
      var c :| c in live && c.Contains(x);
      assert c in live + {b};
    }
    if j :| 0 <= j < |s| && s[j].Contains(x) {
      if j < i {
        assert s[j] == free[j];
      } else if j < i + |pieces| {
        assert s[j] == pieces[j - i];
      } else {
        assert s[j] == free[j - |pieces| + 1];
      }
    }
  }

  /** Cutting the block `b` out of free chunk `i` keeps the partition. */
  lemma CutPartition(free: seq<Block>, live: set<Block>, space: set<nat>, i: nat, s: nat, e: nat)
    requires Partition(free, live, space) && i < |free| && s < e <= free[i].size
    ensures var b := Block(free[i].addr + s, e - s);
      b !in live && Partition(Splice(free, i, Cuts(free[i], s, e)), live + {b}, space)
  {
    var c, pieces := free[i], Cuts(free[i], s, e);
    var b := Block(c.addr + s, e - s);
    SpliceApart(free, live, i, pieces, b);
    assert b in live ==> Apart(c, b);
    forall x
      ensures x in space <==> InFree(Splice(free, i, pieces), x) || InLive(live + {b}, x)
    {
      CutsCover(c, s, e, x);
      SpliceCovers(free, live, i, pieces, b, x);
    }
  }

  function Cuts(c: Block, s: nat, e: nat): seq<Block>
    requires s <= e <= c.size
  {
    (if s == 0 then [] else [Block(c.addr, s)]) + if e == c.size then [] else [Block(c.addr + e, c.size - e)]
  }

  lemma CutsCover(c: Block, s: nat, e: nat, x: nat)
    requires s < e <= c.size
    ensures c.Contains(x) <==> Block(c.addr + s, e - s).Contains(x) || InFree(Cuts(c, s, e), x)
  {
    var pieces := Cuts(c, s, e);
    if c.addr <= x < c.addr + s {
      assert pieces[0].Contains(x);
    } else if c.addr + e <= x < c.End() {
      assert pieces[|pieces| - 1].Contains(x);
    }
  }

  /** Moving a block from the live ones to the front of the free list keeps the partition. */
  lemma FreePartition(free: seq<Block>, live: set<Block>, space: set<nat>, b: Block)
    requires Partition(free, live, space) && b in live
    ensures Partition([b] + free, live - {b}, space)
  {
    var free' := [b] + free;
    forall x
      ensures x in space <==> InFree(free', x) || InLive(live - {b}, x)
    {
      if i :| 0 <= i < |free| && free[i].Contains(x) { assert free'[i + 1].Contains(x); }
      if b.Contains(x) { assert free'[0].Contains(x); }
      if c :| c in live && c.Contains(x) { assert c == b || c in live - {b}; }
      if i :| 0 <= i < |free'| && free'[i].Contains(x) { assert i == 0 || free'[i] == free[i - 1]; }
    }
  }

  function Bytes(b: Block): (s: set<nat>)
    ensures forall x :: x in s <==> b.Contains(x)
    decreases b.size
  {
    if b.size == 0 then {} else Bytes(Block(b.addr, b.size - 1)) + {b.addr + b.size - 1}
  }

  /** Appending a chunk of new memory keeps the partition. */
  lemma AppendPartition(free: seq<Block>, live: set<Block>, space: set<nat>, b: Block)
    requires Partition(free, live, space) && Bytes(b) !! space && b.size > 0
    requires forall i :: 0 <= i < |free| ==> free[i].size > 0
    requires forall c :: c in live ==> c.size > 0
    ensures Partition(free + [b], live, space + Bytes(b))
  {
    forall i | 0 <= i < |free|
      ensures Apart(free[i], b)
    {
      assert forall x :: free[i].Contains(x) ==> InFree(free, x);
      OutsideApart(free[i], b, space);
    }
    forall c | c in live
      ensures Apart(b, c)
    {
      assert forall x :: c.Contains(x) ==> InLive(live, x);
      OutsideApart(c, b, space);
    }
    forall x
      ensures x in space + Bytes(b) <==> InFree(free + [b], x) || InLive(live, x)
    {
      InFreeSnoc(free, b, x);
    }
  }

  lemma OutsideApart(c: Block, b: Block, space: set<nat>)
    requires c.size > 0 && b.size > 0 && Bytes(b) !! space && forall x :: c.Contains(x) ==> x in space
    ensures Apart(c, b) && Apart(b, c)
  {
    var x := if c.addr < b.addr then b.addr else c.addr;
    assert b.Contains(x) ==> x in Bytes(b);
  }

  lemma InFreeSnoc(free: seq<Block>, b: Block, x: nat)
    ensures InFree(free + [b], x) <==> InFree(free, x) || b.Contains(x)
  {
    var free' := free + [b];
    if i :| 0 <= i < |free| && free[i].Contains(x) { assert free'[i].Contains(x); }
    if b.Contains(x) { assert free'[|free|].Contains(x); }
    if i :| 0 <= i < |free'| && free'[i].Contains(x) { assert i == |free| || free'[i] == free[i]; }
  }

  // The list in memory

  ghost function AddrAt(free: seq<Block>, i: nat): nat {
    if i < |free| then free[i].addr else 0
  }

  /** The words of memory, by address. */
  type Words = map<nat, nat>

  predicate HeaderAt(m: Words, b: Block, next: nat) {
    b.addr in m && b.addr + 8 in m && m[b.addr] == b.size && m[b.addr + 8] == next
  }

  /** The headers of the free chunks, linked in the order of `free` from `head`. */
  ghost predicate Listed(m: Words, head: nat, free: seq<Block>) {
    head == AddrAt(free, 0) && forall i :: 0 <= i < |free| ==> LinkedAt(m, free, i)
  }

  /** Chunk `i` has its header, which links to the next chunk. */
  ghost predicate LinkedAt(m: Words, free: seq<Block>, i: nat)
    requires i < |free|
  {
    HeaderAt(m, free[i], AddrAt(free, i + 1))
  }

  /** Only words inside `b` and `c` differ. */
  ghost predicate SameWords(m: Words, m': Words, b: Block, c: Block) {
    forall a :: a in m && !b.Contains(a) && !c.Contains(a) ==> a in m' && m'[a] == m[a]
  }

  lemma HeaderFrame(m: Words, m': Words, b: Block, c: Block, d: Block, next: nat)
    requires SameWords(m, m', b, c) && HeaderAt(m, d, next) && d.size >= HEADER
    requires Apart(b, d) && Apart(c, d)
    ensures HeaderAt(m', d, next)
  {
    assert !b.Contains(d.addr) && !c.Contains(d.addr) && !b.Contains(d.addr + 8) && !c.Contains(d.addr + 8);
  }

  /** Headers that link around spliced-in pieces link along the whole sequence. */
  lemma SpliceLinks(m: Words, free: seq<Block>, i: nat, pieces: seq<Block>)
    requires i < |free|
    requires forall j :: 0 <= j < |free| && j != i && j != i - 1 ==> LinkedAt(m, free, j)
    requires i > 0 ==> HeaderAt(m, free[i - 1], AddrAt(Splice(free, i, pieces), i))
    requires forall j :: i <= j < i + |pieces| ==> LinkedAt(m, Splice(free, i, pieces), j)
    ensures var s := Splice(free, i, pieces); forall j :: 0 <= j < |s| ==> LinkedAt(m, s, j)
    ensures i > 0 ==> AddrAt(Splice(free, i, pieces), 0) == AddrAt(free, 0)
  {
    var s := Splice(free, i, pieces);
    forall j | 0 <= j < |s|
      ensures LinkedAt(m, s, j)
    {
      if j < i {
        assert s[j] == free[j];
        if j < i - 1 { assert s[j + 1] == free[j + 1] && LinkedAt(m, free, j); }
      } else if j < i + |pieces| {
        assert LinkedAt(m, s, j);
      } else {
        var j' := j - |pieces| + 1;
        assert s[j] == free[j'] && LinkedAt(m, free, j');
        if j + 1 < |s| { assert s[j + 1] == free[j' + 1]; }
      }
    }
    assert i > 0 ==> s[0] == free[0];
  }

  lemma OtherHeaders(m: Words, m': Words, head: nat, free: seq<Block>, i: nat, p: nat)
    requires Listed(m, head, free) && i < |free| && p < |free|
    requires AllApart(free, {}) && forall j :: 0 <= j < |free| ==> free[j].size >= HEADER
    requires SameWords(m, m', free[i], free[p])
    ensures forall j :: 0 <= j < |free| && j != i && j != p ==> LinkedAt(m', free, j)
  {
    forall j | 0 <= j < |free| && j != i && j != p
      ensures LinkedAt(m', free, j)
    {
      assert Apart(free[i], free[j]) && Apart(free[p], free[j]) && LinkedAt(m, free, j);
      HeaderFrame(m, m', free[i], free[p], free[j], AddrAt(free, j + 1));
    }
  }

  lemma ListedCons(m: Words, m': Words, head: nat, free: seq<Block>, b: Block)
    requires Listed(m, head, free) && SameWords(m, m', b, b) && HeaderAt(m', b, head)
    requires forall i :: 0 <= i < |free| ==> Apart(b, free[i]) && free[i].size >= HEADER
    ensures Listed(m', b.addr, [b] + free)
  {
    var s := [b] + free;
    forall i | 0 <= i < |s|
      ensures LinkedAt(m', s, i)
    {
      if i > 0 {
        assert s[i] == free[i - 1] && LinkedAt(m, free, i - 1);
        HeaderFrame(m, m', b, b, free[i - 1], AddrAt(free, i));
        assert AddrAt(s, i + 1) == AddrAt(free, i);
      } else if |free| > 0 {
        assert s[1] == free[0];
      }
    }
  }

  lemma ListedSnoc(m: Words, m': Words, head: nat, head': nat, free: seq<Block>, b: Block)
    requires Listed(m, head, free) && HeaderAt(m', b, 0)
    requires AllApart(free, {}) && forall i :: 0 <= i < |free| ==> Apart(free[i], b) && free[i].size >= HEADER
    requires free == [] ==> SameWords(m, m', b, b) && head' == b.addr
    requires free != [] ==> SameWords(m, m', b, free[|free| - 1]) && head' == head
    requires free != [] ==> HeaderAt(m', free[|free| - 1], b.addr)
    ensures Listed(m', head', free + [b])
  {
    var s := free + [b];
    forall i | 0 <= i < |s|
      ensures LinkedAt(m', s, i)
    {
      if i < |free| - 1 {
        assert Apart(free[i], free[|free| - 1]) && LinkedAt(m, free, i);
        HeaderFrame(m, m', b, free[|free| - 1], free[i], AddrAt(free, i + 1));
        assert s[i] == free[i] && s[i + 1] == free[i + 1];
      } else if i == |free| - 1 {
        assert s[i] == free[i] && s[i + 1] == b;
      }
    }
  }

  class WordMemory {
    const limit: nat
    var word: Words

    constructor (limit: nat)
      ensures this.limit == limit
    {
      this.limit := limit;
      word := map[];
    }
  }

  /** The words of all blocks of `live` are as before. */
  ghost predicate LiveKept(m: Words, m': Words, live: set<Block>) {
    forall b, a :: b in live && b.Contains(a) && a in m ==> a in m' && m'[a] == m[a]
  }

  /** The header of a listed chunk. */
  lemma ChunkAt(m: Words, head: nat, free: seq<Block>, i: nat)
    requires Listed(m, head, free) && i <= |free| && AddrAt(free, i) != 0
    ensures i < |free| && AddrAt(free, i) == free[i].addr && free[i].addr in m && free[i].addr + 8 in m
    ensures m[free[i].addr] == free[i].size && m[free[i].addr + 8] == AddrAt(free, i + 1)
  {
    assert i < |free| && LinkedAt(m, free, i);
  }

  /** Walks from `head` to the first chunk with room, remembering its predecessor (0 for the list's own head). */
  method FindFit(mem: WordMemory, head: nat, l: Layout, ghost free: seq<Block>)
    returns (ok: bool, prev: nat, cur: nat, info: Option<(nat, nat)>, ghost i: nat)
    requires Normal(l) && Listed(mem.word, head, free) && forall j :: 0 <= j < |free| ==> free[j].addr > 0
    ensures ok <==> FirstFit(free, l) != Overflows
    ensures info.None? ==> ok ==> FirstFit(free, l) == Ends
    ensures info.Some? ==> ok && FirstFit(free, l) == Stops(i, info.value) && i < |free| && cur == free[i].addr
    ensures info.Some? ==> prev == if i == 0 then 0 else free[i - 1].addr
  {
    var next := head;
    prev, cur, i := 0, 0, 0;
    assert free[0..] == free;
    while next != 0
      invariant 0 <= i <= |free| && FirstFit(free, l) == Later(FirstFit(free[i..], l), i)
      invariant next == AddrAt(free, i) && cur == if i == 0 then 0 else free[i - 1].addr
      decreases |free| - i
    {
      ChunkAt(mem.word, head, free, i);
      prev := cur;
      cur := next;
      ok, info := TryChunk(Block(cur, mem.word[cur]), l, free, i);
      if !ok || info.Some? {
        return;
      }
      next := mem.word[cur + 8];
      i := i + 1;
    }
    return true, prev, cur, None, i;
  }

  class ChunkList {
    const mem: WordMemory
    var head: nat
    ghost var free: seq<Block>
    ghost var live: set<Block>
    ghost var space: set<nat>

    ghost predicate Valid()
      reads this, mem
    {
      mem.limit < USIZE_LIMIT && State(mem.word, head, free, live, space, mem.limit)
    }

    constructor (mem: WordMemory)
      requires mem.limit < USIZE_LIMIT
      ensures this.mem == mem && Valid() && free == [] && live == {} && space == {}
    {
      this.mem := mem;
      head := 0;
      free, live, space := [], {}, {};
    }

    method WriteHeader(b: Block, next: nat)
      modifies mem
      ensures mem.word == old(mem.word)[b.addr := b.size][b.addr + 8 := next]
    {
      mem.word := mem.word[b.addr := b.size];
      mem.word := mem.word[b.addr + 8 := next];
    }

    /** Stores a link in the header at `prev`, or in the list's own head if `prev` is 0. */
    method Link(prev: nat, next: nat)
      modifies this`head, mem
      ensures head == if prev == 0 then next else old(head)
      ensures mem.word == if prev == 0 then old(mem.word) else old(mem.word)[prev + 8 := next]
    {
      if prev == 0 {
        head := next;
      } else {
        mem.word := mem.word[prev + 8 := next];
      }
    }

    /** Writes the headers of what is left of the chunk at `cur` and links them in after `prev`. */
    method Relink(prev: nat, cur: nat, s: nat, e: nat)
      requires cur in mem.word && cur + 8 in mem.word && e <= mem.word[cur] && prev != cur
      modifies this`head, mem
      ensures mem.word == ServedWords(old(mem.word), prev, cur, s, e)
      ensures head == if prev == 0 then ServedFirst(old(mem.word), cur, s, e) else old(head)
    {
      var size, next := mem.word[cur], mem.word[cur + 8];
      if e == size {
        if s == 0 {
          Link(prev, next);
        } else {
          WriteHeader(Block(cur, s), next);
          Link(prev, cur);
        }
      } else {
        var back := cur + e;
        WriteHeader(Block(back, size - e), next);
        if s != 0 {
          WriteHeader(Block(cur, s), back);
          Link(prev, cur);
        } else {
          Link(prev, back);
        }
      }
    }

    /** Cuts a block out of chunk `i` and relinks what is left of the chunk. */
    method Serve(prev: nat, cur: nat, s: nat, e: nat, ghost i: nat) returns (p: nat)
      requires Valid() && i < |free| && cur == free[i].addr && prev == (if i == 0 then 0 else free[i - 1].addr)
      requires Cuttable(free[i], s, e)
      modifies this, mem
      ensures Valid() && space == old(space) && p == cur + s
      ensures free == Splice(old(free), i, Cuts(old(free)[i], s, e)) && live == old(live) + {Block(p, e - s)}
      ensures Block(p, e - s) !in old(live) && LiveKept(old(mem.word), mem.word, old(live))
    {
      ghost var c := free[i];
      ghost var m', head' := ServedAll(mem.word, head, free, live, space, mem.limit, i, c, prev, s, e);
      Relink(prev, cur, s, e);
      assert mem.word == m' && head == head';
      p := cur + s;
      free := Splice(free, i, Cuts(free[i], s, e));
      live := live + {Block(p, e - s)};
    }

    /** First fit; `ok` is false where an address computed for a chunk leaves the machine's range. */
    method PopFirstFit(l: Layout) returns (ok: bool, r: Option<nat>)
      requires Valid() && Normal(l)
      modifies this, mem
      ensures Valid() && space == old(space)
      ensures ok <==> FirstFit(old(free), l) != Overflows
      ensures ok ==> Outcome(old(free), old(live), l, r, free, live)
      ensures !ok ==> r == None
      ensures r.None? ==> free == old(free) && live == old(live) && mem.word == old(mem.word) && head == old(head)
      ensures LiveKept(old(mem.word), mem.word, old(live))
    {
      var prev, cur, info;
      ghost var i;
      ok, prev, cur, info, i := FindFit(mem, head, l, free);
      if info.None? {
        if ok {
          OutcomeEnds(free, live, l);
        }
        return ok, None;
      }
      r := ServeFit(l, prev, cur, info.value, i);
    }

    /** Cuts the block out of the chunk where the search stopped. */
    method ServeFit(l: Layout, prev: nat, cur: nat, offsets: (nat, nat), ghost i: nat) returns (r: Option<nat>)
      requires Valid() && Normal(l) && FirstFit(free, l) == Stops(i, offsets)
      requires i < |free| && cur == free[i].addr && prev == if i == 0 then 0 else free[i - 1].addr
      modifies this, mem
      ensures Valid() && space == old(space) && r.Some?
      ensures Outcome(old(free), old(live), l, r, free, live)
      ensures LiveKept(old(mem.word), mem.word, old(live))
    {
      var (s, e) := offsets;
      assert Good(free[i], mem.limit);
      ghost var after, b := FitOutcome(free, live, l, i, s, e, free[i]);
      var p := Serve(prev, cur, s, e, i);
      return Some(p);
    }

    /** A step of a client between calls: a word of a block that it holds is written. */
    method ClientWrite(a: nat, value: nat, ghost b: Block)
      requires Valid() && b in live && b.Contains(a)
      modifies mem
      ensures Valid() && mem.word == old(mem.word)[a := value] && LiveKept(old(mem.word), mem.word, live - {b})
    {
      ghost var m := mem.word;
      mem.word := mem.word[a := value];
      ClientWrites(m, mem.word, head, free, live, space, mem.limit, b);
    }

    /** Puts a region, rounded to words, at the front of the free list. `b` is the chunk that it becomes. */
    method Push(start: nat, size: nat, ghost b: Block)
      requires Valid() && start + 7 < USIZE_LIMIT && size < USIZE_LIMIT
      requires b == Rounded(start, size) && b in live
      modifies this, mem
      ensures Valid() && space == old(space)
      ensures free == [b] + old(free) && live == old(live) - {b}
      ensures LiveKept(old(mem.word), mem.word, live)
    {
      FreePartition(free, live, space, b);
      ghost var m, head0 := mem.word, head;
      assert forall i :: 0 <= i < |free| ==> Apart(free[i], b);
      assert forall c :: c in live && c != b ==> Apart(b, c);
      var chunk := InitChunk(start, size, head);
      head := chunk;
      ListedCons(m, mem.word, head0, free, b);
      free := [b] + free;
      live := live - {b};
    }

    method InitChunk(start: nat, size: nat, next: nat) returns (addr: nat)
      requires start + 7 < USIZE_LIMIT && size < USIZE_LIMIT
      modifies mem
      ensures var b := Rounded(start, size); addr == b.addr && mem.word == PutHeader(old(mem.word), b, next)
    {
      var b := Block(AlignWords(start), RoundDownWords(size));
      WriteHeader(b, next);
      addr := b.addr;
    }

    /** Adds new memory at the end of the free list. `b` is the chunk that the region becomes. */
    method Append(start: nat, size: nat, ghost b: Block)
      requires Valid() && start + 7 < USIZE_LIMIT && size < USIZE_LIMIT
      requires b == Rounded(start, size) && Good(b, mem.limit) && Bytes(b) !! space
      modifies this, mem
      ensures Valid() && space == old(space) + Bytes(b)
      ensures free == old(free) + [b] && live == old(live)
      ensures LiveKept(old(mem.word), mem.word, live)
    {
      ghost var m, head0 := mem.word, head;
      var next := InitChunk(start, size, 0);
      AppendedGood(free, live, space, mem.limit, b);
      OtherLinks(m, mem.word, head, free, b);
      var last := Last();
      Link(last, next);
      AppendedState(m, mem.word, head0, head, free, live, space, mem.limit, b, last);
      free := free + [b];
      space := space + Bytes(b);
    }

    /** The address of the last chunk's header, or 0 if the list is empty. */
    method Last() returns (last: nat)
      requires Listed(mem.word, head, free) && forall j :: 0 <= j < |free| ==> free[j].addr > 0
      ensures last == if free == [] then 0 else free[|free| - 1].addr
      ensures free != [] ==> LinkedAt(mem.word, free, |free| - 1)
    {
      last := 0;
      var cur := head;
      ghost var i := 0;
      while cur != 0
        invariant 0 <= i <= |free| && cur == AddrAt(free, i) && last == if i == 0 then 0 else free[i - 1].addr
        decreases |free| - i
      {
        assert i < |free| && LinkedAt(mem.word, free, i);
        last := cur;
        cur := mem.word[cur + 8];
        i := i + 1;
      }
      assert free != [] ==> LinkedAt(mem.word, free, |free| - 1);
    }
  }

  /** Where the search along the list ends. */
  datatype Search = Overflows | Ends | Stops(at: nat, offsets: (nat, nat))

  function Later(s: Search, k: nat): Search {
    if s.Stops? then s.(at := s.at + k) else s
  }

  function FirstFit(free: seq<Block>, l: Layout): Search
    requires Normal(l)
  {
    if free == [] then Ends
    else if !InRange(free[0], l) then Overflows
    else if CanAllocate(free[0], l).Some? then Stops(0, CanAllocate(free[0], l).value)
    else Later(FirstFit(free[1..], l), 1)
  }

  /** The chunk can be looked at and has no room. */
  predicate NoRoom(c: Block, l: Layout)
    requires Normal(l)
  {
    InRange(c, l) && CanAllocate(c, l).None?
  }

  predicate NoRoomBefore(free: seq<Block>, l: Layout, i: nat)
    requires Normal(l) && i <= |free|
  {
    forall j :: 0 <= j < i ==> NoRoom(free[j], l)
  }

  lemma {:induction false} StopsIs(free: seq<Block>, l: Layout)
    requires Normal(l) && FirstFit(free, l).Stops?
    ensures var Stops(i, offsets) := FirstFit(free, l);
      i < |free| && InRange(free[i], l) && CanAllocate(free[i], l) == Some(offsets)
  {
    if !CanAllocate(free[0], l).Some? {
      StopsIs(free[1..], l);
    }
  }

  /** Where the search ends: at the first chunk, of number `i`, that is not without room. It stops there if the chunk
      has room and stops the kernel if an addition for it overflows; without such a chunk it reaches the end. */
  lemma {:induction false} FirstFitIs(free: seq<Block>, l: Layout) returns (i: nat)
    requires Normal(l)
    ensures i <= |free| && NoRoomBefore(free, l, i) && (i < |free| ==> !NoRoom(free[i], l))
    ensures FirstFit(free, l) ==
      if i == |free| then Ends
      else if !InRange(free[i], l) then Overflows
      else Stops(i, CanAllocate(free[i], l).value)
  {
    i := 0;
    if free != [] && NoRoom(free[0], l) {
      var k := FirstFitIs(free[1..], l);
      i := k + 1;
      forall j | 0 <= j < i
        ensures NoRoom(free[j], l)
      {
        if j > 0 { assert NoRoom(free[1..][j - 1], l); }
      }
    }
  }

  lemma FirstFitNext(free: seq<Block>, l: Layout, i: nat)
    requires Normal(l) && i < |free| && FirstFit(free, l) == Later(FirstFit(free[i..], l), i)
    ensures !InRange(free[i], l) ==> FirstFit(free, l) == Overflows
    ensures InRange(free[i], l) ==>
      FirstFit(free, l) ==
        if CanAllocate(free[i], l).Some? then Stops(i, CanAllocate(free[i], l).value) else Later(FirstFit(free[i + 1..], l), i + 1)
  {
    assert free[i..][0] == free[i] && free[i..][1..] == free[i + 1..];
  }

  /** Looks at one chunk, with what that means for the search. */
  method TryChunk(c: Block, l: Layout, ghost free: seq<Block>, ghost i: nat)
    returns (ok: bool, info: Option<(nat, nat)>)
    requires Normal(l) && i < |free| && c == free[i] && FirstFit(free, l) == Later(FirstFit(free[i..], l), i)
    ensures !ok ==> info == None && FirstFit(free, l) == Overflows
    ensures ok && info.None? ==> FirstFit(free, l) == Later(FirstFit(free[i + 1..], l), i + 1)
    ensures info.Some? ==> ok && FirstFit(free, l) == Stops(i, info.value)
  {
    FirstFitNext(free, l, i);
    ok, info := InRange(c, l), None;
    if ok {
      info := CanAllocate(c, l);
    }
  }

  lemma FitOffsets(c: Block, l: Layout)
    requires Normal(l) && InRange(c, l) && CanAllocate(c, l).Some? && c.addr % 8 == 0 && c.size % 8 == 0
    ensures var (s, e) := CanAllocate(c, l).value;
      && s < e <= c.size && s % 8 == 0 && e % 8 == 0 && e - s == l.size && Headroom(s) && Headroom(c.size - e)
      && c.addr + s == FirstPlace(c, l) && (c.addr + s) % l.align == 0
  {
    CanAllocateIff(c, l);
    FirstPlaceAligned(c, l);
    EighthsOffsets(c.addr, FirstPlace(c, l), l.size);
  }

  lemma EighthsOffsets(addr: nat, p: nat, size: nat)
    requires addr <= p && addr % 8 == 0 && p % 8 == 0 && size % 8 == 0
    ensures (p - addr) % 8 == 0 && (p - addr + size) % 8 == 0
  {
  }

  lemma AppendedGood(free: seq<Block>, live: set<Block>, space: set<nat>, limit: nat, b: Block)
    requires AllGood(free, live, limit) && Partition(free, live, space) && Good(b, limit) && Bytes(b) !! space
    ensures AllGood(free + [b], live, limit) && Partition(free + [b], live, space + Bytes(b))
    ensures forall i :: 0 <= i < |free| ==> Apart(free[i], b)
    ensures forall c :: c in live ==> Apart(b, c)
  {
    AppendPartition(free, live, space, b);
    var free' := free + [b];
    assert forall i :: 0 <= i < |free| ==> free'[i] == free[i];
    assert free'[|free|] == b;
  }

  lemma AppendedState(m: Words, m': Words, head: nat, head': nat, free: seq<Block>, live: set<Block>,
                      space: set<nat>, limit: nat, b: Block, last: nat)
    requires State(m, head, free, live, space, limit) && Good(b, limit) && Bytes(b) !! space
    requires last == if free == [] then 0 else free[|free| - 1].addr
    requires head' == if last == 0 then b.addr else head
    requires m' == if last == 0 then PutHeader(m, b, 0) else PutHeader(m, b, 0)[last + 8 := b.addr]
    ensures State(m', head', free + [b], live, space + Bytes(b), limit) && LiveKept(m, m', live)
  {
    AppendedGood(free, live, space, limit, b);
    AppendedListed(m, m', head, head', free, b, last);
    AppendedKept(m, m', free, live, b);
  }

  lemma AppendedListed(m: Words, m': Words, head: nat, head': nat, free: seq<Block>, b: Block, last: nat)
    requires Listed(m, head, free) && AllApart(free, {}) && b.size >= HEADER
    requires forall i :: 0 <= i < |free| ==> Apart(free[i], b) && free[i].size >= HEADER && free[i].addr > 0
    requires last == if free == [] then 0 else free[|free| - 1].addr
    requires head' == if last == 0 then b.addr else head
    requires m' == if last == 0 then PutHeader(m, b, 0) else PutHeader(m, b, 0)[last + 8 := b.addr]
    ensures Listed(m', head', free + [b])
    ensures SameWords(m, m', b, if free == [] then b else free[|free| - 1])
  {
    if free != [] {
      assert LinkedAt(m, free, |free| - 1);
      assert Apart(free[|free| - 1], b);
    }
    ListedSnoc(m, m', head, head', free, b);
  }

  lemma AppendedKept(m: Words, m': Words, free: seq<Block>, live: set<Block>, b: Block)
    requires AllApart(free, live) && forall c :: c in live ==> Apart(b, c)
    requires SameWords(m, m', b, if free == [] then b else free[|free| - 1])
    ensures LiveKept(m, m', live)
  {
    forall c, a | c in live && c.Contains(a) && a in m
      ensures a in m' && m'[a] == m[a]
    {
      assert Apart(b, c);
      if free != [] { assert Apart(free[|free| - 1], c); }
    }
  }

  /** A header written into new memory leaves the list linked. */
  lemma OtherLinks(m: Words, m': Words, head: nat, free: seq<Block>, b: Block)
    requires Listed(m, head, free) && SameWords(m, m', b, b)
    requires forall i :: 0 <= i < |free| ==> Apart(b, free[i]) && free[i].size >= HEADER
    ensures Listed(m', head, free)
  {
    forall j | 0 <= j < |free|
      ensures LinkedAt(m', free, j)
    {
      assert LinkedAt(m, free, j);
      HeaderFrame(m, m', b, b, free[j], AddrAt(free, j + 1));
    }
  }

  /** The block at `p` was cut out of chunk `i`, at the first place there. */
  ghost predicate ServedFrom(free: seq<Block>, free': seq<Block>, l: Layout, i: nat, p: nat)
    requires Normal(l)
  {
    && i < |free| && InRange(free[i], l)
    && p == FirstPlace(free[i], l) && free[i].addr <= p && p + l.size <= free[i].End() && p % l.align == 0
    && free' == Splice(free, i, Cuts(free[i], p - free[i].addr, p - free[i].addr + l.size))
  }

  /** What a search may end with: nothing where no chunk has room, or a block cut out of the first that has. */
  ghost predicate Outcome(free: seq<Block>, live: set<Block>, l: Layout, r: Option<nat>, free': seq<Block>,
                          live': set<Block>)
    requires Normal(l)
  {
    match FirstFit(free, l)
    case Overflows => false
    case Ends => r == None && free' == free && live' == live
    case Stops(i, _) =>
      r.Some? && ServedFrom(free, free', l, i, r.value)
      && Block(r.value, l.size) !in live && live' == live + {Block(r.value, l.size)}
  }

  /** A block may be cut out from `s` to `e`: it is whole words, large enough for a header when it comes back, and so
      is what is left on either side. */
  predicate Cuttable(c: Block, s: nat, e: nat) {
    s < e <= c.size && s % 8 == 0 && e % 8 == 0 && e - s >= HEADER && Headroom(s) && Headroom(c.size - e)
  }

  lemma ServedCut(free: seq<Block>, l: Layout, i: nat, s: nat, e: nat)
    requires Normal(l) && i < |free| && InRange(free[i], l)
    requires free[i].addr % 8 == 0 && free[i].size % 8 == 0 && CanAllocate(free[i], l) == Some((s, e))
    ensures Cuttable(free[i], s, e) && e - s == l.size
    ensures ServedFrom(free, Splice(free, i, Cuts(free[i], s, e)), l, i, free[i].addr + s)
  {
    FitOffsets(free[i], l);
  }

  /** The cut that the search asks for is possible. */
  lemma ServedFirstFit(free: seq<Block>, l: Layout, i: nat, s: nat, e: nat)
    requires Normal(l) && i < |free| && FirstFit(free, l) == Stops(i, (s, e))
    requires free[i].addr % 8 == 0 && free[i].size % 8 == 0
    ensures Cuttable(free[i], s, e) && e - s == l.size
    ensures ServedFrom(free, Splice(free, i, Cuts(free[i], s, e)), l, i, free[i].addr + s)
  {
    StopsIs(free, l);
    ServedCut(free, l, i, s, e);
  }

  lemma OutcomeEnds(free: seq<Block>, live: set<Block>, l: Layout)
    requires Normal(l) && FirstFit(free, l) == Ends
    ensures Outcome(free, live, l, None, free, live)
  {
  }

  /** That cut has the outcome promised. */
  lemma OutcomeOf(free: seq<Block>, live: set<Block>, l: Layout, i: nat, offsets: (nat, nat), free': seq<Block>, b: Block)
    requires Normal(l) && FirstFit(free, l) == Stops(i, offsets)
    requires ServedFrom(free, free', l, i, b.addr) && b.size == l.size
    ensures b !in live ==> Outcome(free, live, l, Some(b.addr), free', live + {b})
  {
    assert b == Block(b.addr, l.size);
  }

  /** What is left when the search's cut is made, and the block. */
  lemma FitOutcome(free: seq<Block>, live: set<Block>, l: Layout, i: nat, s: nat, e: nat, c: Block)
    returns (after: seq<Block>, b: Block)
    requires Normal(l) && i < |free| && c == free[i] && FirstFit(free, l) == Stops(i, (s, e))
    requires c.addr % 8 == 0 && c.size % 8 == 0
    ensures Cuttable(c, s, e) && after == Splice(free, i, Cuts(c, s, e)) && b == Block(c.addr + s, e - s)
    ensures b !in live ==> Outcome(free, live, l, Some(b.addr), after, live + {b})
  {
    ServedFirstFit(free, l, i, s, e);
    after, b := Splice(free, i, Cuts(c, s, e)), Block(c.addr + s, e - s);
    OutcomeOf(free, live, l, i, (s, e), after, b);
  }

  function PutHeader(m: Words, b: Block, next: nat): Words {
    m[b.addr := b.size][b.addr + 8 := next]
  }

  /** The first chunk after the predecessor once the chunk at `cur` was cut from `s` to `e`. */
  function ServedFirst(m: Words, cur: nat, s: nat, e: nat): nat
    requires cur in m && cur + 8 in m
  {
    if s != 0 then cur else if e == m[cur] then m[cur + 8] else cur + e
  }

  function ServedWords(m: Words, prev: nat, cur: nat, s: nat, e: nat): Words
    requires cur in m && cur + 8 in m && e <= m[cur]
  {
    var size, next := m[cur], m[cur + 8];
    var rest := if e == size then next else cur + e;
    var m1 := if e == size then m else PutHeader(m, Block(cur + e, size - e), next);
    var m2 := if s == 0 then m1 else PutHeader(m1, Block(cur, s), rest);
    if prev == 0 then m2 else m2[prev + 8 := ServedFirst(m, cur, s, e)]
  }

  /** The stores made for a request write the headers of the pieces and the predecessor's link, and stay inside the
      chunk and its predecessor `p` (the chunk itself if there is none). */
  lemma ServedHeaders(m: Words, p: Block, prev: nat, c: Block, next: nat, s: nat, e: nat)
    requires HeaderAt(m, c, next) && c.addr > 0
    requires prev == 0 ==> p == c
    requires prev != 0 ==> prev == p.addr && HeaderAt(m, p, c.addr) && Apart(p, c) && p.size >= HEADER
    requires s < e <= c.size && c.size >= HEADER && Headroom(s) && Headroom(c.size - e)
    ensures var m' := ServedWords(m, prev, c.addr, s, e);
      && (s > 0 ==> HeaderAt(m', Block(c.addr, s), if e == c.size then next else c.addr + e))
      && (e < c.size ==> HeaderAt(m', Block(c.addr + e, c.size - e), next))
      && (prev != 0 ==> HeaderAt(m', p, ServedFirst(m, c.addr, s, e)))
      && SameWords(m, m', c, p)
  {
  }

  lemma SpliceAddrs(free: seq<Block>, i: nat, s: nat, e: nat)
    requires i < |free| && s < e <= free[i].size
    ensures var c := free[i]; var free' := Splice(free, i, Cuts(c, s, e));
      var next := AddrAt(free, i + 1); var rest := if e == c.size then next else c.addr + e;
      && AddrAt(free', i) == (if s == 0 then rest else c.addr)
      && (s > 0 ==> AddrAt(free', i + 1) == rest)
      && (e < c.size ==> AddrAt(free', i + if s > 0 then 2 else 1) == next)
  {
    var c, pieces := free[i], Cuts(free[i], s, e);
    var free' := Splice(free, i, pieces);
    assert forall k :: 0 <= k < |pieces| ==> free'[i + k] == pieces[k];
    if i + 1 < |free| { assert free'[i + |pieces|] == free[i + 1]; }
    assert AddrAt(free', i + |pieces|) == AddrAt(free, i + 1);
    if s > 0 {
      assert pieces[0] == Block(c.addr, s) && free'[i + 0] == pieces[0];
      if e < c.size { assert pieces[1].addr == c.addr + e && free'[i + 1] == pieces[1]; }
    } else if e < c.size {
      assert pieces[0].addr == c.addr + e && free'[i + 0] == pieces[0];
    }
  }

  /** The successor of chunk `i` and what follows its first piece. */
  function RestAddr(c: Block, next: nat, e: nat): nat {
    if e == c.size then next else c.addr + e
  }

  /** Headers that link from the predecessor, through the pieces, to the successor link along the whole list. */
  lemma CutLinks(m: Words, free: seq<Block>, i: nat, s: nat, e: nat)
    requires i < |free| && s < e <= free[i].size
    requires forall j :: 0 <= j < |free| && j != i && j != i - 1 ==> LinkedAt(m, free, j)
    requires var c := free[i]; var next := AddrAt(free, i + 1);
      && (i > 0 ==> HeaderAt(m, free[i - 1], if s == 0 then RestAddr(c, next, e) else c.addr))
      && (s > 0 ==> HeaderAt(m, Block(c.addr, s), RestAddr(c, next, e)))
      && (e < c.size ==> HeaderAt(m, Block(c.addr + e, c.size - e), next))
    ensures var free' := Splice(free, i, Cuts(free[i], s, e));
      && (forall j :: 0 <= j < |free'| ==> LinkedAt(m, free', j))
      && AddrAt(free', 0) == if i > 0 then AddrAt(free, 0)
                             else if s == 0 then RestAddr(free[0], AddrAt(free, 1), e) else free[0].addr
  {
    var c, pieces := free[i], Cuts(free[i], s, e);
    var free' := Splice(free, i, pieces);
    SpliceAddrs(free, i, s, e);
    forall j | i <= j < i + |pieces|
      ensures LinkedAt(m, free', j)
    {
      assert free'[j] == pieces[j - i];
      if j == i && s > 0 {
        assert free'[j] == Block(c.addr, s);
      } else {
        assert free'[j] == Block(c.addr + e, c.size - e) && j == i + if s > 0 then 1 else 0;
      }
    }
    SpliceLinks(m, free, i, pieces);
  }

  /** Everything the allocator maintains. */
  ghost predicate State(m: Words, head: nat, free: seq<Block>, live: set<Block>, space: set<nat>, limit: nat) {
    AllGood(free, live, limit) && Partition(free, live, space) && Listed(m, head, free)
  }

  /** A client may write anything into a block that it holds: the allocator's state and all other blocks stay. */
  lemma ClientWrites(m: Words, m': Words, head: nat, free: seq<Block>, live: set<Block>, space: set<nat>, limit: nat,
                     b: Block)
    requires State(m, head, free, live, space, limit) && b in live && SameWords(m, m', b, b)
    ensures State(m', head, free, live, space, limit) && LiveKept(m, m', live - {b})
  {
    forall i | 0 <= i < |free|
      ensures LinkedAt(m', free, i)
    {
      assert LinkedAt(m, free, i) && Good(free[i], limit) && Apart(free[i], b);
      HeaderFrame(m, m', b, b, free[i], AddrAt(free, i + 1));
    }
    forall c, a | c in live - {b} && c.Contains(a) && a in m
      ensures a in m' && m'[a] == m[a]
    {
      assert Apart(b, c);
    }
  }

  /** The headers that a request at chunk `i` reads. */
  lemma HeadersOf(m: Words, head: nat, free: seq<Block>, live: set<Block>, space: set<nat>, limit: nat, i: nat, p: nat)
    requires State(m, head, free, live, space, limit) && i < |free| && p == if i > 0 then i - 1 else i
    ensures HeaderAt(m, free[i], AddrAt(free, i + 1)) && Good(free[i], limit) && Good(free[p], limit)
    ensures i > 0 ==> HeaderAt(m, free[p], free[i].addr) && Apart(free[p], free[i])
  {
    assert LinkedAt(m, free, i) && LinkedAt(m, free, p);
  }

  lemma ServedListed(m: Words, m': Words, head: nat, head': nat, free: seq<Block>, i: nat, p: nat, s: nat, e: nat)
    requires Listed(m, head, free) && i < |free| && p == if i > 0 then i - 1 else i
    requires AllApart(free, {}) && forall j :: 0 <= j < |free| ==> free[j].size >= HEADER
    requires s < e <= free[i].size && SameWords(m, m', free[i], free[p])
    requires i > 0 ==> head' == head
    requires i > 0 ==> HeaderAt(m', free[p], if s == 0 then RestAddr(free[i], AddrAt(free, i + 1), e) else free[i].addr)
    requires i == 0 ==> head' == if s == 0 then RestAddr(free[i], AddrAt(free, i + 1), e) else free[i].addr
    requires s > 0 ==> HeaderAt(m', Block(free[i].addr, s), RestAddr(free[i], AddrAt(free, i + 1), e))
    requires e < free[i].size ==> HeaderAt(m', Block(free[i].addr + e, free[i].size - e), AddrAt(free, i + 1))
    ensures Listed(m', head', Splice(free, i, Cuts(free[i], s, e)))
  {
    OtherHeaders(m, m', head, free, i, p);
    CutLinks(m', free, i, s, e);
  }

  lemma ServedState(m: Words, m': Words, head: nat, head': nat, free: seq<Block>, live: set<Block>, space: set<nat>,
                    limit: nat, i: nat, p: nat, s: nat, e: nat)
    requires State(m, head, free, live, space, limit) && i < |free| && p == if i > 0 then i - 1 else i
    requires Cuttable(free[i], s, e) && SameWords(m, m', free[i], free[p])
    requires Listed(m', head', Splice(free, i, Cuts(free[i], s, e)))
    ensures var b := Block(free[i].addr + s, e - s);
      && State(m', head', Splice(free, i, Cuts(free[i], s, e)), live + {b}, space, limit)
      && b !in live && LiveKept(m, m', live)
  {
    CutPartition(free, live, space, i, s, e);
    SplitGood(free, live, limit, i, s, e);
    ServedKeepsLive(m, m', free, live, i, p);
  }

  /** Cutting a block out of chunk `i` keeps everything; `m'` and `head'` are what the code stores. */
  lemma ServedAll(m: Words, head: nat, free: seq<Block>, live: set<Block>, space: set<nat>, limit: nat,
                  i: nat, c: Block, prev: nat, s: nat, e: nat) returns (m': Words, head': nat)
    requires State(m, head, free, live, space, limit) && i < |free| && c == free[i]
    requires Cuttable(c, s, e)
    requires prev == if i == 0 then 0 else free[i - 1].addr
    ensures c.addr in m && c.addr + 8 in m && e <= m[c.addr] && prev != c.addr
    ensures m' == ServedWords(m, prev, c.addr, s, e)
    ensures head' == if prev == 0 then ServedFirst(m, c.addr, s, e) else head
    ensures State(m', head', Splice(free, i, Cuts(c, s, e)), live + {Block(c.addr + s, e - s)}, space, limit)
    ensures Block(c.addr + s, e - s) !in live && LiveKept(m, m', live)
  {
    m', head' := ServedStores(m, head, free, live, space, limit, i, c, prev, s, e);
    ServedState(m, m', head, head', free, live, space, limit, i, if i > 0 then i - 1 else i, s, e);
  }

  /** The stores of the code relink the list. */
  lemma ServedStores(m: Words, head: nat, free: seq<Block>, live: set<Block>, space: set<nat>, limit: nat,
                     i: nat, c: Block, prev: nat, s: nat, e: nat) returns (m': Words, head': nat)
    requires State(m, head, free, live, space, limit) && i < |free| && c == free[i]
    requires Cuttable(c, s, e)
    requires prev == if i == 0 then 0 else free[i - 1].addr
    ensures c.addr in m && c.addr + 8 in m && e <= m[c.addr] && prev != c.addr
    ensures m' == ServedWords(m, prev, c.addr, s, e)
    ensures head' == if prev == 0 then ServedFirst(m, c.addr, s, e) else head
    ensures Listed(m', head', Splice(free, i, Cuts(c, s, e))) && SameWords(m, m', c, free[if i > 0 then i - 1 else i])
  {
    var p := if i > 0 then i - 1 else i;
    HeadersOf(m, head, free, live, space, limit, i, p);
    m', head' := ServedWords(m, prev, c.addr, s, e), if prev == 0 then ServedFirst(m, c.addr, s, e) else head;
    ServedHeaders(m, free[p], prev, c, AddrAt(free, i + 1), s, e);
    ServedListed(m, m', head, head', free, i, p, s, e);
  }

  lemma ServedKeepsLive(m: Words, m': Words, free: seq<Block>, live: set<Block>, i: nat, p: nat)
    requires AllApart(free, live) && i < |free| && p < |free| && SameWords(m, m', free[i], free[p])
    ensures LiveKept(m, m', live)
  {
    forall b, a | b in live && b.Contains(a) && a in m
      ensures a in m' && m'[a] == m[a]
    {
      assert Apart(free[i], b) && Apart(free[p], b);
    }
  }

  lemma SplitGood(free: seq<Block>, live: set<Block>, limit: nat, i: nat, s: nat, e: nat)
    requires AllGood(free, live, limit) && i < |free|
    requires Cuttable(free[i], s, e)
    ensures AllGood(Splice(free, i, Cuts(free[i], s, e)), live + {Block(free[i].addr + s, e - s)}, limit)
  {
    CutGood(free[i], s, e, limit);
  }

  lemma CutGood(c: Block, s: nat, e: nat, limit: nat)
    requires Good(c, limit) && Cuttable(c, s, e)
    ensures Good(Block(c.addr + s, e - s), limit)
    ensures forall k :: 0 <= k < |Cuts(c, s, e)| ==> Good(Cuts(c, s, e)[k], limit)
  {
    SumMod(c.addr, s, 8);
    SumMod(c.addr, e, 8);
    DiffMod(e, s, 8);
    DiffMod(c.size, e, 8);
  }

  // The arena's interface

  lemma SmallPow2(n: nat)
    requires IsPow2(n) && n < 8
    ensures n == 1 || n == 2 || n == 4
  {
    assert And(3, 2) == 2 && And(5, 4) == 4 && And(6, 5) == 4 && And(7, 6) == 6;
  }

  lemma AlignedEnough(l: Layout, p: nat)
    requires IsPow2(l.align) && p % 8 == 0 && p % (if l.align < 8 then 8 else l.align) == 0
    ensures p % l.align == 0
  {
    if l.align < 8 {
      SmallPow2(l.align);
      var q := p / 8;
      assert p == 8 * q;
      ModUnique(p, 1, p, 0);
      ModUnique(p, 2, 4 * q, 0);
      ModUnique(p, 4, 2 * q, 0);
    }
  }

  /** A freed block is the first chunk to serve the same request again. */
  lemma ServesAgain(b: Block, l: Layout)
    requires Normal(l) && InRange(b, l) && b.size == l.size && b.addr % l.align == 0 && b.addr % 8 == 0
    ensures CanAllocate(b, l) == Some((0, b.size))
  {
    FirstPlaceAligned(b, l);
    CanAllocateIff(b, l);
  }

  /** Freeing undoes allocating: from the list with the freed block at its head, the same request can only end with
      the same block and in the state that the first one left. */
  lemma FreedServesAgain(free: seq<Block>, live: set<Block>, l: Layout, p: nat, middle: seq<Block>)
    requires Normal(l) && Outcome(free, live, l, Some(p), middle, live + {Block(p, l.size)})
    ensures var b := Block(p, l.size);
      && b !in live && live + {b} - {b} == live
      && FirstFit([b] + middle, l) != Overflows && Outcome([b] + middle, live, l, Some(p), middle, live + {b})
      && forall r, free', live' :: Outcome([b] + middle, live, l, r, free', live') ==>
           r == Some(p) && free' == middle && live' == live + {b}
  {
    var i, b := FirstFit(free, l).at, Block(p, l.size);
    FirstPlaceAligned(free[i], l);
    PlaceInRange(free[i], l, b);
    HeadServes(b, l, middle);
  }

  lemma HeadServes(b: Block, l: Layout, rest: seq<Block>)
    requires Normal(l) && InRange(b, l) && b.size == l.size && b.addr % l.align == 0 && b.addr % 8 == 0
    ensures FirstFit([b] + rest, l) == Stops(0, (0, b.size))
    ensures forall free', p :: ServedFrom([b] + rest, free', l, 0, p) <==> free' == rest && p == b.addr
  {
    ServesAgain(b, l);
    CanAllocateIff(b, l);
    FirstPlaceAligned(b, l);
    assert Cuts(b, 0, b.size) == [] && Splice([b] + rest, 0, []) == rest;
  }

  class Arena {
    const chunks: ChunkList

    constructor (chunks: ChunkList)
      ensures this.chunks == chunks
    {
      this.chunks := chunks;
    }

    /** `ok` is false where the layout is out of range, or an address of a chunk looked at, and the code stops. */
    method Allocate(l: Layout) returns (ok: bool, r: Option<nat>)
      requires chunks.Valid() && IsPow2(l.align)
      modifies chunks, chunks.mem
      ensures chunks.Valid() && chunks.space == old(chunks.space)
      ensures AlignLayout(l).Some? ==> Normal(AlignLayout(l).value) && LeastAligned(l, AlignLayout(l).value)
      ensures ok <==> AlignLayout(l).Some? && FirstFit(old(chunks.free), AlignLayout(l).value) != Overflows
      ensures !ok ==> r == None && chunks.free == old(chunks.free) && chunks.live == old(chunks.live)
      ensures ok ==> Outcome(old(chunks.free), old(chunks.live), AlignLayout(l).value, r, chunks.free, chunks.live)
      ensures ok && r.Some? ==> r.value % l.align == 0 && AlignLayout(l).value.size >= l.size
      ensures LiveKept(old(chunks.mem.word), chunks.mem.word, old(chunks.live))
    {
      AlignLayoutCovers(l);
      var aligned := AlignLayout(l);
      if aligned.None? {
        return false, None;
      }
      AlignLayoutIs(l);
      ok, r := chunks.PopFirstFit(aligned.value);
      if r.Some? {
        assert Block(r.value, aligned.value.size) in chunks.live;
        assert Good(Block(r.value, aligned.value.size), chunks.mem.limit);
        AlignedEnough(l, r.value);
      }
    }

    method Deallocate(ptr: nat, l: Layout)
      requires chunks.Valid() && IsPow2(l.align) && AlignLayout(l).Some?
      requires Block(ptr, AlignLayout(l).value.size) in chunks.live
      modifies chunks, chunks.mem
      ensures chunks.Valid() && chunks.space == old(chunks.space)
      ensures var b := Block(ptr, AlignLayout(l).value.size);
        chunks.live == old(chunks.live) - {b} && chunks.free == [b] + old(chunks.free)
      ensures LiveKept(old(chunks.mem.word), chunks.mem.word, chunks.live)
    {
      var size := AlignLayout(l).value.size;
      ghost var b := Block(ptr, size);
      assert Good(b, chunks.mem.limit);
      TopOfMemory(b, chunks.mem.limit);
      RoundedInside(ptr, size);
      chunks.Push(ptr, size, b);
    }

    /** A client's calls: a block is allocated, freed, and asked for again. */
    method AllocateFreeAllocate(l: Layout)
      returns (ok: bool, first: Option<nat>, again: Option<nat>, ghost middle: seq<Block>)
      requires chunks.Valid() && IsPow2(l.align)
      modifies chunks, chunks.mem
      ensures chunks.Valid() && chunks.space == old(chunks.space)
      ensures AlignLayout(l).Some? ==> Normal(AlignLayout(l).value)
      ensures ok <==> AlignLayout(l).Some? && FirstFit(old(chunks.free), AlignLayout(l).value) != Overflows
      ensures ok ==>
        var served := if first.None? then {} else {Block(first.value, AlignLayout(l).value.size)};
        Outcome(old(chunks.free), old(chunks.live), AlignLayout(l).value, first, middle, old(chunks.live) + served)
        && chunks.free == middle && chunks.live == old(chunks.live) + served && again == first
      ensures !ok ==> first == None && chunks.free == old(chunks.free) && chunks.live == old(chunks.live)
      ensures LiveKept(old(chunks.mem.word), chunks.mem.word, old(chunks.live))
    {
      ok, first := Allocate(l);
      again, middle := first, chunks.free;
      if ok && first.Some? {
        ghost var al := AlignLayout(l).value;
        FreedServesAgain(old(chunks.free), old(chunks.live), al, first.value, middle);
        Deallocate(first.value, l);
        assert chunks.live == old(chunks.live);
        ok, again := Allocate(l);
      }
    }
  }

  lemma TopOfMemory(b: Block, limit: nat)
    requires Good(b, limit) && limit < USIZE_LIMIT
    ensures b.addr + 7 < USIZE_LIMIT && b.size < USIZE_LIMIT
  {
  }
}
