/** The three page allocators side by side. */
module PageLockstep {
  import opened Options
  import opened Bits
  import opened Runs
  import opened Trees
  import opened TreeInsert
  import opened TreeRuns
  import opened PageTrees
  import opened PageAllocators

  /** A request for pages, or the return of a run. */
  datatype Op = Get(count: nat) | Put(start: nat, count: nat)

  /** The pages from `base` on are the pool. Requests ask for 1 page up to the whole pool, and only pages that are
      taken come back. */
  ghost predicate Legal(free: set<nat>, base: nat, size: nat, op: Op) {
    match op
    case Get(count) => 1 <= count <= size
    case Put(start, count) => Run(start, count) <= Run(base, size) && Run(start, count) !! free
  }

  /** What the pages should be after an operation that gave `out`. */
  ghost predicate Served(free: set<nat>, op: Op, out: Option<nat>, free': set<nat>) {
    match op
    case Get(count) =>
      if out.Some? then IsLeastRun(free, out.value, count) && free' == free - Run(out.value, count)
      else NoRun(free, count) && free' == free
    case Put(start, count) => out == None && free' == free + Run(start, count)
  }

  /** The outcome leaves no choice. */
  lemma ServedUnique(free: set<nat>, op: Op, out: Option<nat>, free': set<nat>, out': Option<nat>, free'': set<nat>)
    requires Served(free, op, out, free') && Served(free, op, out', free'')
    ensures out == out' && free' == free''
  {
    if op.Get? && out.Some? && out'.Some? {
      LeastRunUnique(free, out.value, out'.value, op.count);
    }
  }

  /** The outcomes of a run of operations from the free set `free`. */
  ghost predicate ServedAll(free: set<nat>, ops: seq<Op>, outs: seq<Option<nat>>, free': set<nat>)
    requires |outs| == |ops|
  {
    if ops == [] then free' == free
    else
      var n := |ops| - 1;
      exists mid :: ServedAll(free, ops[..n], outs[..n], mid) && Served(mid, ops[n], outs[n], free')
  }

  lemma ServedMore(free: set<nat>, ops: seq<Op>, outs: seq<Option<nat>>, mid: set<nat>, op: Op, out: Option<nat>,
                   free': set<nat>)
    requires |outs| == |ops| && ServedAll(free, ops, outs, mid) && Served(mid, op, out, free')
    ensures ServedAll(free, ops + [op], outs + [out], free')
  {
    assert (ops + [op])[..|ops|] == ops && (outs + [out])[..|ops|] == outs;
  }

  /** The outcomes of a whole run are determined by the free set that it starts from. */
  lemma {:induction false} ServedAllUnique(free: set<nat>, ops: seq<Op>, outs: seq<Option<nat>>, free': set<nat>,
                                           outs': seq<Option<nat>>, free'': set<nat>)
    requires |outs| == |ops| == |outs'|
    requires ServedAll(free, ops, outs, free') && ServedAll(free, ops, outs', free'')
    ensures outs == outs' && free' == free''
  {
    if ops != [] {
      var n := |ops| - 1;
      var mid :| ServedAll(free, ops[..n], outs[..n], mid) && Served(mid, ops[n], outs[n], free');
      var mid' :| ServedAll(free, ops[..n], outs'[..n], mid') && Served(mid', ops[n], outs'[n], free'');
      ServedAllUnique(free, ops[..n], outs[..n], mid, outs'[..n], mid');
      ServedUnique(mid, ops[n], outs[n], free', outs'[n], free'');
      assert outs == outs[..n] + [outs[n]] && outs' == outs'[..n] + [outs'[n]];
    }
  }

  // When the tree completes a run

  ghost function TreeStep(t: Tree, op: Op): (r: Option<Tree>)
    requires SearchOrdered(t) && Colored(t)
    ensures r.Some? ==> SearchOrdered(r.value) && Colored(r.value)
  {
    match op
    case Get(count) =>
      LeastRunCorrect(Pages(t), count);
      (match LeastRun(Pages(t), count)
       case None => Some(t)
       case Some(s) => TakeRunRemoves(t, s, count); TakeRun(t, s, count))
    case Put(start, count) =>
      if CanInsertAll(t, start, count) then
        InsertAllAdds(t, start, count);
        InsertAllColored(t, start, count);
        Some(InsertAll(t, start, count))
      else None
  }

  lemma TreeStepGet(t: Tree, count: nat, found: Option<nat>)
    requires SearchOrdered(t) && Colored(t)
    requires if found.None? then NoRun(Pages(t), count) else IsLeastRun(Pages(t), found.value, count)
    ensures TreeStep(t, Get(count)) == if found.None? then Some(t) else TakeRun(t, found.value, count)
  {
    LeastRunCorrect(Pages(t), count);
    if found.Some? {
      LeastRunUnique(Pages(t), found.value, LeastRun(Pages(t), count).value, count);
    }
  }

  ghost function TreeAfter(t: Tree, ops: seq<Op>): (r: Option<Tree>)
    requires SearchOrdered(t) && Colored(t)
    ensures r.Some? ==> SearchOrdered(r.value) && Colored(r.value)
  {
    if ops == [] then Some(t)
    else
      match TreeAfter(t, ops[..|ops| - 1])
      case None => None
      case Some(u) => TreeStep(u, ops[|ops| - 1])
  }

  lemma TreeAfterNext(t: Tree, ops: seq<Op>, i: nat)
    requires SearchOrdered(t) && Colored(t) && i < |ops| && TreeAfter(t, ops[..i]).Some?
    ensures TreeAfter(t, ops[..i + 1]) == TreeStep(TreeAfter(t, ops[..i]).value, ops[i])
  {
    assert ops[..i + 1][..i] == ops[..i];
  }

  /** The tree completes the run: every page to be deleted can be deleted when its turn comes. */
  ghost predicate CanRun(t: Tree, ops: seq<Op>)
    requires SearchOrdered(t) && Colored(t)
  {
    if ops == [] then true
    else
      var n := |ops| - 1;
      CanRun(t, ops[..n]) && (TreeAfter(t, ops[..n]).Some? ==> CanStep(TreeAfter(t, ops[..n]).value, ops[n]))
  }

  ghost predicate CanStep(t: Tree, op: Op)
    requires SearchOrdered(t) && Colored(t)
  {
    match op
    case Get(count) => forall s :: IsLeastRun(Pages(t), s, count) ==> CanTake(t, s, count)
    case Put(start, count) => CanInsertAll(t, start, count)
  }

  lemma StepIff(t: Tree, op: Op)
    requires SearchOrdered(t) && Colored(t)
    ensures TreeStep(t, op).Some? <==> CanStep(t, op)
  {
    if op.Get? {
      LeastRunCorrect(Pages(t), op.count);
      if LeastRun(Pages(t), op.count).Some? {
        var s := LeastRun(Pages(t), op.count).value;
        TakeRunIff(t, s, op.count);
        assert forall s' :: IsLeastRun(Pages(t), s', op.count) ==> s' <= s <= s';
      }
    }
  }

  lemma {:induction false} RunIff(t: Tree, ops: seq<Op>)
    requires SearchOrdered(t) && Colored(t)
    ensures TreeAfter(t, ops).Some? <==> CanRun(t, ops)
  {
    if ops != [] {
      var n := |ops| - 1;
      RunIff(t, ops[..n]);
      if TreeAfter(t, ops[..n]).Some? {
        StepIff(TreeAfter(t, ops[..n]).value, ops[n]);
      }
    }
  }

  /** A run that stopped stays stopped. */
  lemma {:induction false} StaysStopped(t: Tree, ops: seq<Op>, i: nat)
    requires SearchOrdered(t) && Colored(t) && i <= |ops| && TreeAfter(t, ops[..i]) == None
    ensures TreeAfter(t, ops) == None
    decreases |ops|
  {
    if i < |ops| {
      assert ops[..|ops| - 1][..i] == ops[..i];
      StaysStopped(t, ops[..|ops| - 1], i);
    } else {
      assert ops[..i] == ops;
    }
  }

  // One operation on each allocator

  method StepMap(m: PageMap, op: Op) returns (out: Option<nat>)
    requires m.Valid() && m.start % PAGE_SIZE == 0 && Legal(m.Free(), m.Base(), m.size / PAGE_SIZE, op)
    modifies m.pool.bits
    ensures m.Valid() && Served(old(m.Free()), op, out, m.Free())
  {
    match op {
      case Get(count) =>
        var ok, r := m.GetMultiple(count);
        out := if r.Ok? then Some(r.value / PAGE_SIZE) else None;
      case Put(start, count) =>
        RunWithin(start, count, m.Base(), m.size / PAGE_SIZE);
        if count > 0 {
          PageAddress(start);
          var ok, r := m.PutMultiple(start * PAGE_SIZE, count);
          assert ok;
        } else {
          assert Run(start, count) == {};
        }
        out := None;
    }
  }

  lemma RunWithin(s: nat, k: nat, base: nat, size: nat)
    requires Run(s, k) <= Run(base, size)
    ensures k > 0 ==> base <= s && s + k <= base + size
  {
    if k > 0 {
      assert s in Run(s, k) && s + k - 1 in Run(s, k);
    }
  }

  lemma PageAddress(p: nat)
    ensures p * PAGE_SIZE % PAGE_SIZE == 0 && p * PAGE_SIZE / PAGE_SIZE == p
  {
  }

  method StepSet(s: PageSet, op: Op, ghost base: nat, ghost size: nat) returns (out: Option<nat>)
    requires Paged(s.pages) && Legal(PagesOf(s.pages), base, size, op)
    modifies s
    ensures Paged(s.pages) && Served(old(PagesOf(s.pages)), op, out, PagesOf(s.pages))
  {
    ghost var before := s.pages;
    match op {
      case Get(count) =>
        var r := s.GetMultiple(count);
        if r.Err? {
          NoLowestRun(before, count);
          return None;
        }
        var page := r.value / PAGE_SIZE;
        PageOf(r.value);
        LowestRun(before, page, count);
        MarkedPages(before, page, count, !PAGE_IS_FREE);
        return Some(page);
      case Put(start, count) =>
        AllHaveRun(before, start, count);
        var r := s.PutMultiple(start * PAGE_SIZE, count);
        MarkedPages(before, start, count, PAGE_IS_FREE);
        return None;
    }
  }

  /** `ok` fails when the tree's deletion does. */
  method StepTree(t: PageTree, op: Op, ghost base: nat, ghost size: nat) returns (ok: bool, out: Option<nat>)
    requires t.Valid() && Legal(t.Free(), base, size, op) && 0 < base && base + size <= PAGE_LIMIT
    modifies t, t.mem
    ensures ok <==> TreeStep(old(t.tree), op).Some?
    ensures ok ==> t.Valid() && t.tree == TreeStep(old(t.tree), op).value
    ensures ok ==> Served(old(t.Free()), op, out, t.Free())
  {
    ghost var before := t.tree;
    match op {
      case Get(count) =>
        ok, out := t.GetMultiple(count);
        TreeStepGet(before, count, out);
      case Put(start, count) =>
        RunWithin(start, count, base, size);
        t.Init(start, count);
        return true, None;
    }
  }

  /** Three allocators over one pool, with the same free pages. */
  ghost predicate Agree(m: PageMap, s: PageSet, t: PageTree)
    reads m, m.pool, m.pool.bits, s, t, t.mem
  {
    && m.Valid() && m.start % PAGE_SIZE == 0 && Paged(s.pages) && t.Valid()
    && 0 < m.Base() && m.Base() + m.size / PAGE_SIZE <= PAGE_LIMIT
    && m.Free() == PagesOf(s.pages) == t.Free()
  }

  /** The same operation on all three. */
  method StepAll(m: PageMap, s: PageSet, t: PageTree, op: Op)
    returns (ok: bool, fromMap: Option<nat>, fromSet: Option<nat>, fromTree: Option<nat>)
    requires Agree(m, s, t) && Legal(t.Free(), m.Base(), m.size / PAGE_SIZE, op)
    modifies m.pool.bits, s, t, t.mem
    ensures ok <==> TreeStep(old(t.tree), op).Some?
    ensures ok ==> Agree(m, s, t) && t.tree == TreeStep(old(t.tree), op).value
    ensures ok ==> fromMap == fromSet == fromTree && Served(old(t.Free()), op, fromTree, t.Free())
  {
    ghost var free, base, size := t.Free(), m.Base(), m.size / PAGE_SIZE;
    fromMap := StepMap(m, op);
    fromSet := StepSet(s, op, base, size);
    ok, fromTree := StepTree(t, op, base, size);
    if ok {
      ServedUnique(free, op, fromMap, m.Free(), fromTree, t.Free());
      ServedUnique(free, op, fromSet, PagesOf(s.pages), fromTree, t.Free());
    }
  }

  /** Every operation of the run is legal when its turn comes. */
  ghost predicate LegalRun(free: set<nat>, base: nat, size: nat, ops: seq<Op>) {
    forall n, outs, free' :: 0 <= n < |ops| && |outs| == n && ServedAll(free, ops[..n], outs, free') ==>
      Legal(free', base, size, ops[n])
  }

  /** After `i` operations of the run. */
  ghost predicate Reached(free0: set<nat>, t0: Tree, ops: seq<Op>, i: nat, outs: seq<Option<nat>>, free: set<nat>, t: Tree)
    requires SearchOrdered(t0) && Colored(t0) && i <= |ops|
  {
    |outs| == i && ServedAll(free0, ops[..i], outs, free) && TreeAfter(t0, ops[..i]) == Some(t)
  }

  lemma ReachedLegal(free0: set<nat>, t0: Tree, ops: seq<Op>, i: nat, outs: seq<Option<nat>>, free: set<nat>, t: Tree,
                     base: nat, size: nat)
    requires SearchOrdered(t0) && Colored(t0) && i < |ops| && Reached(free0, t0, ops, i, outs, free, t)
    requires LegalRun(free0, base, size, ops) && SearchOrdered(t) && Colored(t)
    ensures Legal(free, base, size, ops[i])
    ensures TreeStep(t, ops[i]) == None ==> TreeAfter(t0, ops) == None
  {
    TreeAfterNext(t0, ops, i);
    if TreeStep(t, ops[i]) == None {
      StaysStopped(t0, ops, i + 1);
    }
  }

  lemma ReachedNext(free0: set<nat>, t0: Tree, ops: seq<Op>, i: nat, outs: seq<Option<nat>>, free: set<nat>, t: Tree,
                    out: Option<nat>, free': set<nat>, t': Tree)
    requires SearchOrdered(t0) && Colored(t0) && i < |ops| && Reached(free0, t0, ops, i, outs, free, t)
    requires SearchOrdered(t) && Colored(t) && TreeStep(t, ops[i]) == Some(t') && Served(free, ops[i], out, free')
    ensures Reached(free0, t0, ops, i + 1, outs + [out], free', t')
  {
    TreeAfterNext(t0, ops, i);
    ServedMore(free0, ops[..i], outs, free, ops[i], out, free');
    assert ops[..i] + [ops[i]] == ops[..i + 1];
  }

  /** Over any common run of legal operations that the tree completes, the three give the same pages and keep the same
      free set; `ok` fails exactly when a deletion from the tree does. */
  method Lockstep(m: PageMap, s: PageSet, t: PageTree, ops: seq<Op>)
    returns (ok: bool, fromMap: seq<Option<nat>>, fromSet: seq<Option<nat>>, fromTree: seq<Option<nat>>)
    requires Agree(m, s, t) && LegalRun(t.Free(), m.Base(), m.size / PAGE_SIZE, ops)
    modifies m.pool.bits, s, t, t.mem
    ensures ok <==> CanRun(old(t.tree), ops)
    ensures ok ==> Agree(m, s, t) && TreeAfter(old(t.tree), ops) == Some(t.tree)
    ensures ok ==> fromMap == fromSet == fromTree && |fromTree| == |ops|
    ensures ok ==> ServedAll(old(t.Free()), ops, fromTree, t.Free())
  {
    ok, fromMap, fromSet, fromTree := true, [], [], [];
    RunIff(t.tree, ops);
    ghost var free0, t0, base, size := t.Free(), t.tree, m.Base(), m.size / PAGE_SIZE;
    for i := 0 to |ops|
      invariant Agree(m, s, t) && fromMap == fromSet == fromTree
      invariant Reached(free0, t0, ops, i, fromTree, t.Free(), t.tree)
    {
      ghost var free, before := t.Free(), t.tree;
      ReachedLegal(free0, t0, ops, i, fromTree, free, before, base, size);
      var a, b, c;
      ok, a, b, c := StepAll(m, s, t, ops[i]);
      if !ok {
        return;
      }
      ReachedNext(free0, t0, ops, i, fromTree, free, before, c, t.Free(), t.tree);
      fromMap, fromSet, fromTree := fromMap + [a], fromSet + [b], fromTree + [c];
    }
    assert ops[..|ops|] == ops;
  }
}
