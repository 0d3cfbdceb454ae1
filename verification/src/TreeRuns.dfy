/** Runs of the page tree's operations, starting from the empty tree. */
module TreeRuns {
  import opened Options
  import opened Trees
  import opened TreeInsert
  import opened TreeDelete
  import opened Runs

  /** Deletes the `k` pages from `s` upwards, one at a time. */
  function TakeRun(t: Tree, s: nat, k: nat): Option<Tree>
    requires SearchOrdered(t) && Run(s, k) <= Pages(t)
    decreases k
  {
    if k == 0 then Some(t) else
      match DeleteTree(t, s)
      case None => None
      case Some(u) =>
        DeleteRemoves(t, s);
        TakeRun(u, s + 1, k - 1)
  }

  lemma TakeRunNext(t: Tree, s: nat, k: nat)
    requires SearchOrdered(t) && Run(s, k) <= Pages(t) && k > 0
    ensures s in Pages(t)
    ensures DeleteTree(t, s).None? ==> TakeRun(t, s, k).None?
    ensures DeleteTree(t, s).Some? ==>
      var u := DeleteTree(t, s).value;
      && SearchOrdered(u) && Run(s + 1, k - 1) <= Pages(u) <= Pages(t)
      && TakeRun(u, s + 1, k - 1) == TakeRun(t, s, k)
  {
    assert s in Run(s, k);
    DeleteRemoves(t, s);
  }

  /** After `i` of the `k` deletions that take the run out of `t0`. */
  ghost predicate Taking(t: Tree, t0: Tree, s: nat, k: nat, i: nat)
    requires SearchOrdered(t0) && Run(s, k) <= Pages(t0) && i <= k
  {
    && SearchOrdered(t) && Run(s + i, k - i) <= Pages(t) <= Pages(t0)
    && TakeRun(t, s + i, k - i) == TakeRun(t0, s, k)
  }

  lemma TakingNext(t: Tree, t0: Tree, s: nat, k: nat, i: nat)
    requires SearchOrdered(t0) && Run(s, k) <= Pages(t0) && i < k && Taking(t, t0, s, k, i)
    ensures s + i in Pages(t)
    ensures DeleteTree(t, s + i).None? ==> TakeRun(t0, s, k).None?
    ensures DeleteTree(t, s + i).Some? ==> Taking(DeleteTree(t, s + i).value, t0, s, k, i + 1)
  {
    TakeRunNext(t, s + i, k - i);
  }

  /** Removing a run that completes removes exactly that run, and keeps order and colours. */
  lemma {:induction false} TakeRunRemoves(t: Tree, s: nat, k: nat)
    requires SearchOrdered(t) && Run(s, k) <= Pages(t)
    ensures var r := TakeRun(t, s, k);
      r.Some? ==> SearchOrdered(r.value) && Pages(r.value) == Pages(t) - Run(s, k) && (Colored(t) ==> Colored(r.value))
    decreases k
  {
    if k != 0 {
      DeleteRemoves(t, s);
      if Colored(t) { DeleteColored(t, s); }
      if DeleteTree(t, s).Some? {
        TakeRunRemoves(DeleteTree(t, s).value, s + 1, k - 1);
        assert Run(s, k) == {s} + Run(s + 1, k - 1);
      }
    }
  }

  /** Every page of the run can be deleted when its turn comes. */
  ghost predicate CanTake(t: Tree, s: nat, k: nat)
    requires SearchOrdered(t) && Run(s, k) <= Pages(t)
    decreases k
  {
    if k == 0 then true else
      TakeRunNext(t, s, k);
      CanDelete(t, s) && (DeleteTree(t, s).Some? ==> CanTake(DeleteTree(t, s).value, s + 1, k - 1))
  }

  lemma {:induction false} TakeRunIff(t: Tree, s: nat, k: nat)
    requires SearchOrdered(t) && Run(s, k) <= Pages(t)
    ensures TakeRun(t, s, k).Some? <==> CanTake(t, s, k)
    decreases k
  {
    if k > 0 {
      TakeRunNext(t, s, k);
      DeleteIff(t, s);
      if DeleteTree(t, s).Some? {
        TakeRunIff(DeleteTree(t, s).value, s + 1, k - 1);
      }
    }
  }

  /** The least place where `k` consecutive pages are free. */
  ghost function LeastRun(free: set<nat>, k: nat): Option<nat> {
    if exists s :: IsLeastRun(free, s, k) then
      var s :| IsLeastRun(free, s, k); Some(s)
    else None
  }

  lemma LeastRunExists(free: set<nat>, s: nat, k: nat)
    requires Fits(free, s, k)
    ensures exists s' :: IsLeastRun(free, s', k)
  {
    if !IsLeastRun(free, s, k) {
      var s': nat :| Fits(free, s', k) && s' < s;
      LeastRunExists(free, s', k);
    }
  }

  /** `LeastRun` finds a run exactly when there is one. */
  lemma LeastRunCorrect(free: set<nat>, k: nat)
    ensures LeastRun(free, k).Some? ==> IsLeastRun(free, LeastRun(free, k).value, k)
    ensures LeastRun(free, k).None? <==> NoRun(free, k)
  {
    if s :| Fits(free, s, k) {
      LeastRunExists(free, s, k);
    }
  }

  /** The tree after a request that must be served; `None` where there is no run or the repair fails. */
  ghost function Granted(t: Tree, k: nat): (r: Option<Tree>)
    requires SearchOrdered(t)
    ensures r.Some? ==> SearchOrdered(r.value)
  {
    LeastRunCorrect(Pages(t), k);
    match LeastRun(Pages(t), k)
    case None => None
    case Some(s) => TakeRunRemoves(t, s, k); TakeRun(t, s, k)
  }

  lemma GrantedIs(t: Tree, k: nat, found: Option<nat>)
    requires SearchOrdered(t)
    requires if found.None? then NoRun(Pages(t), k) else IsLeastRun(Pages(t), found.value, k)
    ensures Granted(t, k) == if found.None? then None else TakeRun(t, found.value, k)
  {
    LeastRunCorrect(Pages(t), k);
    if found.Some? {
      LeastRunUnique(Pages(t), found.value, LeastRun(Pages(t), k).value, k);
    }
  }

  /** Exactly when such a request is served. */
  lemma GrantedIff(t: Tree, k: nat)
    requires SearchOrdered(t)
    ensures Granted(t, k).Some? <==> exists s :: IsLeastRun(Pages(t), s, k) && CanTake(t, s, k)
  {
    LeastRunCorrect(Pages(t), k);
    if LeastRun(Pages(t), k).Some? {
      var s := LeastRun(Pages(t), k).value;
      TakeRunIff(t, s, k);
      assert forall s' :: IsLeastRun(Pages(t), s', k) ==> s' <= s <= s';
    }
  }

  datatype Op = Insert(n: nat) | Take(k: nat)

  /** `Misused`: the caller inserted a page that is present or not a page. `Failed`: the code met an absent node. */
  datatype Outcome = Live(tree: Tree) | Misused | Failed

  ghost function Execute(t: Tree, op: Op): Outcome
    requires SearchOrdered(t) && Colored(t)
  {
    match op
    case Insert(n) => if CanInsert(t, n) then Live(InsertTree(t, n)) else Misused
    case Take(k) =>
      LeastRunCorrect(Pages(t), k);
      match LeastRun(Pages(t), k)
      case None => Live(t)
      case Some(s) => if TakeRun(t, s, k).Some? then Live(TakeRun(t, s, k).value) else Failed
  }

  lemma ExecuteKeeps(t: Tree, op: Op)
    requires SearchOrdered(t) && Colored(t)
    ensures var r := Execute(t, op); r.Live? ==> SearchOrdered(r.tree) && Colored(r.tree)
    ensures op.Insert? ==> !Execute(t, op).Failed?
  {
    match op
    case Insert(n) =>
      if CanInsert(t, n) {
        InsertAdds(t, n);
        InsertColored(t, n);
      }
    case Take(k) =>
      LeastRunCorrect(Pages(t), k);
      if LeastRun(Pages(t), k).Some? {
        TakeRunRemoves(t, LeastRun(Pages(t), k).value, k);
      }
  }

  /** A step fails exactly if it asks for a run that is there and cannot be taken page by page. */
  lemma FailsIff(t: Tree, op: Op)
    requires SearchOrdered(t) && Colored(t)
    ensures Execute(t, op).Failed? <==>
      op.Take? && exists s :: IsLeastRun(Pages(t), s, op.k) && !CanTake(t, s, op.k)
  {
    if op.Take? {
      LeastRunCorrect(Pages(t), op.k);
      if LeastRun(Pages(t), op.k).Some? {
        var s := LeastRun(Pages(t), op.k).value;
        TakeRunIff(t, s, op.k);
        assert forall s' :: IsLeastRun(Pages(t), s', op.k) ==> s' <= s <= s';
      }
    }
  }

  /** The tree after a run of operations from the empty tree. */
  ghost function After(ops: seq<Op>): (r: Outcome)
    ensures r.Live? ==> SearchOrdered(r.tree) && Colored(r.tree)
  {
    if ops == [] then Live(Leaf) else
      var r := After(ops[..|ops| - 1]);
      if r.Live? then
        ExecuteKeeps(r.tree, ops[|ops| - 1]);
        Execute(r.tree, ops[|ops| - 1])
      else r
  }

  /** What the same operations do to a plain set of free pages. */
  ghost function FreeAfter(ops: seq<Op>): set<nat> {
    if ops == [] then {} else
      var free := FreeAfter(ops[..|ops| - 1]);
      match ops[|ops| - 1]
      case Insert(n) => free + {n}
      case Take(k) =>
        match LeastRun(free, k)
        case None => free
        case Some(s) => free - Run(s, k)
  }

  /** A run that has not failed holds exactly the pages that the operations leave in a plain set. */
  lemma {:induction false} RunRefinesSet(ops: seq<Op>)
    ensures After(ops).Live? ==> Pages(After(ops).tree) == FreeAfter(ops)
  {
    if ops != [] {
      var before, op := ops[..|ops| - 1], ops[|ops| - 1];
      RunRefinesSet(before);
      if After(before).Live? {
        var t := After(before).tree;
        match op
        case Insert(n) => if CanInsert(t, n) { InsertAdds(t, n); }
        case Take(k) =>
          LeastRunCorrect(Pages(t), k);
          if LeastRun(Pages(t), k).Some? { TakeRunRemoves(t, LeastRun(Pages(t), k).value, k); }
      }
    }
  }

  // A run that fails

  lemma AfterStep(ops: seq<Op>, op: Op)
    requires After(ops).Live?
    ensures After(ops + [op]) == Execute(After(ops).tree, op)
  {
    assert (ops + [op])[..|ops|] == ops;
  }

  lemma InsertNext(ops: seq<Op>, t: Tree, n: nat, t': Tree)
    requires After(ops) == Live(t) && CanInsert(t, n) && !IsRed(t) && InsertTree(t, n) == t'
    ensures After(ops + [Insert(n)]) == Live(t')
  {
    AfterStep(ops, Insert(n));
  }

  lemma TakeNext(ops: seq<Op>, t: Tree, s: nat, k: nat)
    requires After(ops) == Live(t) && IsLeastRun(Pages(t), s, k)
    ensures After(ops + [Take(k)]) == if TakeRun(t, s, k).Some? then Live(TakeRun(t, s, k).value) else Failed
  {
    AfterStep(ops, Take(k));
    LeastRunCorrect(Pages(t), k);
    LeastRunUnique(Pages(t), s, LeastRun(Pages(t), k).value, k);
  }

  // The trees on the way to a failure

  const T3 := Node(Node(Leaf, 4, Red, Leaf), 6, Black, Node(Leaf, 7, Red, Leaf))
  const T4 := Node(Node(Node(Leaf, 3, Red, Leaf), 4, Black, Leaf), 6, Black, Node(Leaf, 7, Black, Leaf))
  const T5 := Node(Leaf, 6, Black, Node(Leaf, 7, Black, Leaf))
  const T6 := Node(Node(Leaf, 2, Red, Leaf), 6, Black, Node(Leaf, 7, Black, Leaf))
  const T7 := Node(Node(Leaf, 2, Red, Leaf), 5, Black, Node(Leaf, 6, Red, Node(Leaf, 7, Black, Leaf)))
  const T8 :=
    Node(Node(Leaf, 2, Black, Node(Leaf, 4, Red, Leaf)), 5, Black, Node(Leaf, 6, Black, Node(Leaf, 7, Black, Leaf)))
  const T9 := Node(Node(Leaf, 2, Black, Leaf), 5, Black, Node(Leaf, 6, Black, Node(Leaf, 7, Black, Leaf)))

  lemma FirstInserts()
    ensures After([Insert(6), Insert(7), Insert(4)]) == Live(T3)
  {
    InsertNext([], Leaf, 6, Node(Leaf, 6, Black, Leaf));
    InsertNext([Insert(6)], Node(Leaf, 6, Black, Leaf), 7, Node(Leaf, 6, Black, Node(Leaf, 7, Red, Leaf)));
    assert [Insert(6)] + [Insert(7)] == [Insert(6), Insert(7)];
    InsertNext([Insert(6), Insert(7)], Node(Leaf, 6, Black, Node(Leaf, 7, Red, Leaf)), 4, T3);
    assert [Insert(6), Insert(7)] + [Insert(4)] == [Insert(6), Insert(7), Insert(4)];
  }

  lemma LaterInserts()
    ensures CanInsert(T3, 3) && !IsRed(T3) && InsertTree(T3, 3) == T4
    ensures CanInsert(T5, 2) && !IsRed(T5) && InsertTree(T5, 2) == T6
    ensures CanInsert(T6, 5) && !IsRed(T6) && InsertTree(T6, 5) == T7
    ensures CanInsert(T7, 4) && !IsRed(T7) && InsertTree(T7, 4) == T8
  {
  }

  lemma FirstTake()
    ensures SearchOrdered(T4) && IsLeastRun(Pages(T4), 3, 2) && TakeRun(T4, 3, 2) == Some(T5)
  {
    assert Run(3, 2) == {3, 4};
    assert DeleteTree(T4, 3) == Some(Node(Node(Leaf, 4, Black, Leaf), 6, Black, Node(Leaf, 7, Black, Leaf)));
  }

  lemma LastTake()
    ensures SearchOrdered(T8) && IsLeastRun(Pages(T8), 4, 3) && TakeRun(T8, 4, 3) == None
  {
    assert Run(4, 3) == {4, 5, 6};
    assert DeleteTree(T8, 4) == Some(T9);
    assert SearchOrdered(T9) && DeleteTree(T9, 5) == None;
  }

  lemma InsertTakeInserts(a: seq<Op>, t3: Tree, t4: Tree, t5: Tree, t6: Tree, t7: Tree, t8: Tree)
    returns (ops: seq<Op>)
    requires After(a) == Live(t3)
    requires CanInsert(t3, 3) && !IsRed(t3) && InsertTree(t3, 3) == t4
    requires SearchOrdered(t4) && IsLeastRun(Pages(t4), 3, 2) && TakeRun(t4, 3, 2) == Some(t5)
    requires CanInsert(t5, 2) && !IsRed(t5) && InsertTree(t5, 2) == t6
    requires CanInsert(t6, 5) && !IsRed(t6) && InsertTree(t6, 5) == t7
    requires CanInsert(t7, 4) && !IsRed(t7) && InsertTree(t7, 4) == t8
    ensures ops == a + [Insert(3)] + [Take(2)] + [Insert(2)] + [Insert(5)] + [Insert(4)]
    ensures After(ops) == Live(t8)
  {
    InsertNext(a, t3, 3, t4);
    TakeNext(a + [Insert(3)], t4, 3, 2);
    var b := a + [Insert(3)] + [Take(2)];
    InsertNext(b, t5, 2, t6);
    InsertNext(b + [Insert(2)], t6, 5, t7);
    InsertNext(b + [Insert(2)] + [Insert(5)], t7, 4, t8);
    ops := b + [Insert(2)] + [Insert(5)] + [Insert(4)];
  }

  lemma UnevenTreeReached() returns (ops: seq<Op>)
    ensures After(ops) == Live(T8)
  {
    FirstInserts();
    LaterInserts();
    FirstTake();
    ops := InsertTakeInserts([Insert(6), Insert(7), Insert(4)], T3, T4, T5, T6, T7, T8);
  }

  lemma TakeFails(ops: seq<Op>, t: Tree, s: nat, k: nat)
    requires After(ops) == Live(t) && IsLeastRun(Pages(t), s, k) && TakeRun(t, s, k) == None
    ensures IsLeastRun(FreeAfter(ops), s, k) && After(ops + [Take(k)]) == Failed
  {
    TakeNext(ops, t, s, k);
    RunRefinesSet(ops);
  }

  /** Deletion is not total on reachable trees. Four insertions, a request for two pages and three more insertions
      leave the black page 6 with a single, black child; a request for the three pages 4, 5, 6 then stops the
      kernel. */
  lemma TakeCanFail() returns (ops: seq<Op>)
    ensures IsLeastRun(FreeAfter(ops), 4, 3) && After(ops + [Take(3)]) == Failed
  {
    ops := UnevenTreeReached();
    LastTake();
    TakeFails(ops, T8, 4, 3);
  }
}
