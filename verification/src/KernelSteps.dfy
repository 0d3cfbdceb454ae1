/** What each step of the kernel takes and makes, and exactly when it goes on, told by page trees and maps alone. */
module KernelSteps {
  import opened Options
  import opened Runs
  import opened Trees
  import opened TreeInsert
  import opened TreeRuns
  import opened Kernels

  /** The lowest run of `k` pages starts at `s`, each of its pages can be deleted when its turn comes, and `u` is what
      is left. */
  ghost predicate Takes(t: Tree, s: nat, k: nat, u: Tree) {
    SearchOrdered(t) && IsLeastRun(Pages(t), s, k) && CanTake(t, s, k) && TakeRun(t, s, k) == Some(u)
  }

  lemma TakesIff(t: Tree, k: nat)
    requires GoodTree(t)
    ensures Granted(t, k).Some? <==> exists s: nat, u :: Takes(t, s, k, u)
    ensures Granted(t, k).Some? ==> LeastRun(Pages(t), k).Some? && Takes(t, LeastRun(Pages(t), k).value, k, Granted(t, k).value)
    ensures forall s: nat, u :: Takes(t, s, k, u) ==>
      Granted(t, k) == Some(u) && LeastRun(Pages(t), k) == Some(s) && GoodTree(u) && Pages(u) == Pages(t) - Run(s, k)
  {
    if Granted(t, k).Some? {
      GrantedRun(t, k);
      TakeRunIff(t, LeastRun(Pages(t), k).value, k);
    }
    forall s: nat, u | Takes(t, s, k, u)
      ensures Granted(t, k) == Some(u) && LeastRun(Pages(t), k) == Some(s) && GoodTree(u) && Pages(u) == Pages(t) - Run(s, k)
    {
      GrantedIs(t, k, Some(s));
      LeastRunCorrect(Pages(t), k);
      LeastRunUnique(Pages(t), s, LeastRun(Pages(t), k).value, k);
      TakeRunRemoves(t, s, k);
    }
  }

  /** Only the tree of `c` differs, and it has lost a run. */
  ghost predicate Lost(l: Ledger, l': Ledger, c: nat, s: nat, k: nat)
    requires c in l.trees
  {
    && l'.trees.Keys == l.trees.Keys && Takes(l.trees[c], s, k, l'.trees[c])
    && Pages(l'.trees[c]) == Pages(l.trees[c]) - Run(s, k)
    && forall d :: d in l.trees && d != c ==> l'.trees[d] == l.trees[d]
  }

  lemma ObtainedTakes(l: Ledger, c: nat, n: nat)
    requires Consistent(l) && c in l.trees && n > 0
    ensures Obtained(l, c, n).Some? <==> exists s: nat, u :: Takes(l.trees[c], s, n, u)
    ensures Obtained(l, c, n).Some? ==>
      var Grant(s, l') := Obtained(l, c, n).value;
      Consistent(l') && Lost(l, l', c, s, n) && l'.objects == l.objects[s := n] && s !in l.trees
  {
    assert GoodTree(l.trees[c]);
    TakesIff(l.trees[c], n);
    ObtainedConsistent(l, c, n);
  }

  // Moves

  /** A run went from `c` to `d`, which may be the same; all else stayed. */
  ghost predicate RunMoved(l: Ledger, l': Ledger, c: nat, d: nat, n: nat, s: nat, u: Tree)
    requires c in l.trees && d in l.trees
  {
    && Takes(l.trees[c], s, n, u)
    && l'.objects == l.objects && l'.trees.Keys == l.trees.Keys
    && Pages(l'.trees[c]) == (if c == d then Pages(l.trees[c]) else Pages(l.trees[c]) - Run(s, n))
    && Pages(l'.trees[d]) == Pages(l.trees[d]) + Run(s, n)
    && forall e :: e in l.trees && e != c && e != d ==> l'.trees[e] == l.trees[e]
  }

  lemma MovedTakes(l: Ledger, c: nat, d: nat, n: nat)
    requires Consistent(l) && c in l.trees && d in l.trees
    ensures Moved(l, c, d, n).Some? <==> exists s: nat, u :: Takes(l.trees[c], s, n, u)
    ensures Moved(l, c, d, n).Some? ==>
      var Grant(s, l') := Moved(l, c, d, n).value;
      exists u :: RunMoved(l, l', c, d, n, s, u)
  {
    assert GoodTree(l.trees[c]);
    TakesIff(l.trees[c], n);
    if Moved(l, c, d, n).Some? {
      var Grant(s, l') := Moved(l, c, d, n).value;
      MovedIs(l, l', c, d, n, s, Granted(l.trees[c], n).value);
    }
  }

  lemma MovedIs(l: Ledger, l': Ledger, c: nat, d: nat, n: nat, s: nat, u: Tree)
    requires Consistent(l) && c in l.trees && d in l.trees && Moved(l, c, d, n) == Some(Grant(s, l'))
    requires Granted(l.trees[c], n) == Some(u) && Takes(l.trees[c], s, n, u) && Pages(u) == Pages(l.trees[c]) - Run(s, n)
    ensures RunMoved(l, l', c, d, n, s, u)
  {
    MoveHalf(l, c, d, n);
    TreeGrows(Half(l, c, n).trees[d], s, n);
  }

  /** A move goes on exactly if both are containers and the lowest run can be taken from the first; it takes the run from
      there and gives it to the second. */
  lemma MoveIff(r: Records, c: nat, d: nat, n: nat)
    requires Sound(r)
    ensures var r' := RecordsAfter(r, Move(c, d, n));
      && (r'.Some? <==> c in r.slots && d in r.slots && exists s: nat, u :: Takes(r.ledger.trees[c], s, n, u))
      && (r'.Some? ==>
            r'.value == r.(ledger := r'.value.ledger) && exists s, u :: RunMoved(r.ledger, r'.value.ledger, c, d, n, s, u))
  {
    if c in r.slots && d in r.slots {
      MovedTakes(r.ledger, c, d, n);
    }
  }

  // Creations

  /** A label and an object of `n` pages can be taken, one after the other. */
  ghost predicate TwoFit(t: Tree, n: nat) {
    exists s, u, x, v :: TakesTwo(t, n, s, u, x, v)
  }

  ghost predicate TakesTwo(t: Tree, n: nat, s: nat, u: Tree, x: nat, v: Tree) {
    Takes(t, s, KOBJ_NPAGES, u) && Takes(u, x, n, v)
  }

  /** A label at `lb` and an object of `n` pages at `x` were taken out of `ct`, and both are listed there. */
  ghost predicate MadeTwo(r: Records, l: Ledger, slots: map<nat, Slots>, ct: nat, n: nat, lb: nat, x: nat)
    requires Sound(r) && ct in r.slots
  {
    && l.trees.Keys == r.ledger.trees.Keys
    && (exists u :: TakesTwo(r.ledger.trees[ct], n, lb, u, x, l.trees[ct]))
    && Pages(l.trees[ct]) == Pages(r.ledger.trees[ct]) - Run(lb, KOBJ_NPAGES) - Run(x, n)
    && (forall d :: d in l.trees && d != ct ==> l.trees[d] == r.ledger.trees[d])
    && l.objects == r.ledger.objects[lb := KOBJ_NPAGES][x := n] && x !in l.trees
    && slots == r.slots[ct := Filled(Filled(r.slots[ct], lb), x)]
  }

  lemma TwoLost(l: Ledger, m: Ledger, l': Ledger, ct: nat, n: nat, lb: nat, x: nat)
    requires ct in l.trees && Lost(l, m, ct, lb, KOBJ_NPAGES) && Lost(m, l', ct, x, n)
    ensures l'.trees.Keys == l.trees.Keys && TakesTwo(l.trees[ct], n, lb, m.trees[ct], x, l'.trees[ct])
    ensures Pages(l'.trees[ct]) == Pages(l.trees[ct]) - Run(lb, KOBJ_NPAGES) - Run(x, n)
    ensures forall d :: d in l.trees && d != ct ==> l'.trees[d] == l.trees[d]
  {
  }

  lemma TwoFitIff(t: Tree, n: nat, u: Tree)
    requires GoodTree(t) && Granted(t, KOBJ_NPAGES) == Some(u)
    ensures TwoFit(t, n) <==> exists x: nat, v :: Takes(u, x, n, v)
  {
    TakesIff(t, KOBJ_NPAGES);
    if x: nat, v :| Takes(u, x, n, v) {
      assert TakesTwo(t, n, LeastRun(Pages(t), KOBJ_NPAGES).value, u, x, v);
    }
  }

  lemma ListedTwice(slots: map<nat, Slots>, ct: nat, lb: nat, x: nat)
    requires ct in slots
    ensures Listed(Listed(slots, ct, lb), ct, x) == slots[ct := Filled(Filled(slots[ct], lb), x)]
  {
  }

  lemma SecondMade(r: Records, ct: nat, n: nat, a: Grant, b: Grant, slots: map<nat, Slots>)
    requires Sound(r) && ct in r.slots && n > 0 && Consistent(a.ledger)
    requires Lost(r.ledger, a.ledger, ct, a.page, KOBJ_NPAGES) && a.ledger.objects == r.ledger.objects[a.page := KOBJ_NPAGES]
    requires Lost(a.ledger, b.ledger, ct, b.page, n) && b.ledger.objects == a.ledger.objects[b.page := n]
    requires b.page !in a.ledger.trees && slots == Listed(Listed(r.slots, ct, a.page), ct, b.page)
    ensures MadeTwo(r, b.ledger, slots, ct, n, a.page, b.page)
  {
    ListedTwice(r.slots, ct, a.page, b.page);
    TwoLost(r.ledger, a.ledger, b.ledger, ct, n, a.page, b.page);
  }

  lemma TwoMadeIff(r: Records, ct: nat, mayFlow: bool, n: nat)
    requires Sound(r) && ct in r.slots && n > 0
    ensures var two := TwoMade(r, ct, mayFlow, n);
      && (two.Some? <==> mayFlow && ct in r.labels && TwoFit(r.ledger.trees[ct], n))
      && (two.Some? ==>
            var (lb, x, r') := two.value;
            MadeTwo(r, r'.ledger, r'.slots, ct, n, lb, x) && r'.labels == r.labels && r'.parents == r.parents)
  {
    var t := r.ledger.trees[ct];
    assert GoodTree(t);
    ObtainedTakes(r.ledger, ct, KOBJ_NPAGES);
    if Obtained(r.ledger, ct, KOBJ_NPAGES).Some? {
      var a := Obtained(r.ledger, ct, KOBJ_NPAGES).value;
      TwoFitIff(t, n, a.ledger.trees[ct]);
      ObtainedTakes(a.ledger, ct, n);
      if mayFlow && ct in r.labels {
        TwoMadeIs(r, ct, mayFlow, n, a);
        if Obtained(a.ledger, ct, n).Some? {
          var b := Obtained(a.ledger, ct, n).value;
          SecondMade(r, ct, n, a, b, Listed(Listed(r.slots, ct, a.page), ct, b.page));
        }
      }
    }
  }

  /** `r'` is `r` with a label at `lb` and a container at `x` made by `ct`: without free pages, with no slot in use, and
      under that label. */
  ghost predicate ContainerMade(r: Records, r': Records, ct: nat, lb: nat, x: nat)
    requires Sound(r) && ct in r.slots
  {
    exists l, slots ::
      && MadeTwo(r, l, slots, ct, KOBJ_NPAGES, lb, x)
      && r' == Records(Ledger(l.trees[x := Leaf], l.objects, r'.ledger.holder), slots[x := []], r.labels[x := lb], r.parents)
  }

  lemma OpenedMade(r: Records, m: Records, ct: nat, lb: nat, x: nat)
    requires Sound(r) && ct in r.slots && MadeTwo(r, m.ledger, m.slots, ct, KOBJ_NPAGES, lb, x)
    requires m.labels == r.labels && m.parents == r.parents
    ensures ContainerMade(r, m.(ledger := Opened(m.ledger, x), slots := m.slots[x := []], labels := m.labels[x := lb]),
                          ct, lb, x)
  {
  }

  /** Creating a container goes on exactly if the label check passes, the parent has a label, and two runs of two pages
      can be taken from it. The first becomes a label, the second the new container. */
  lemma CreateIff(r: Records, ct: nat, mayFlow: bool)
    requires Sound(r)
    ensures var r' := RecordsAfter(r, CreateIn(ct, mayFlow));
      && (r'.Some? <==> mayFlow && ct in r.slots && ct in r.labels && TwoFit(r.ledger.trees[ct], KOBJ_NPAGES))
      && (r'.Some? ==> exists lb, x :: ContainerMade(r, r'.value, ct, lb, x))
  {
    if ct in r.slots {
      TwoMadeIff(r, ct, mayFlow, KOBJ_NPAGES);
      if TwoMade(r, ct, mayFlow, KOBJ_NPAGES).Some? {
        var (lb, x, m) := TwoMade(r, ct, mayFlow, KOBJ_NPAGES).value;
        OpenedMade(r, m, ct, lb, x);
      }
    }
  }

  /** `r'` is `r` with a label at `lb` and a thread at `th` made in `ct`. */
  ghost predicate ThreadMade(r: Records, r': Records, ct: nat, lb: nat, th: nat)
    requires Sound(r) && ct in r.slots
  {
    && MadeTwo(r, r'.ledger, r'.slots, ct, THREAD_NPAGES, lb, th)
    && r'.labels == r.labels[th := lb] && r'.parents == r.parents[lb := ct][th := ct]
  }

  lemma SpawnedMade(r: Records, m: Records, ct: nat, lb: nat, th: nat)
    requires Sound(r) && ct in r.slots && MadeTwo(r, m.ledger, m.slots, ct, THREAD_NPAGES, lb, th)
    requires m.labels == r.labels && m.parents == r.parents
    ensures ThreadMade(r, m.(labels := m.labels[th := lb], parents := m.parents[lb := ct][th := ct]), ct, lb, th)
  {
  }

  /** Spawning a thread likewise, with sixteen pages for it; label and thread have the container as their parent. */
  lemma SpawnIff(r: Records, ct: nat, mayFlow: bool)
    requires Sound(r)
    ensures var r' := RecordsAfter(r, SpawnIn(ct, mayFlow));
      && (r'.Some? <==> mayFlow && ct in r.slots && ct in r.labels && TwoFit(r.ledger.trees[ct], THREAD_NPAGES))
      && (r'.Some? ==> exists lb, th :: ThreadMade(r, r'.value, ct, lb, th))
  {
    if ct in r.slots {
      TwoMadeIff(r, ct, mayFlow, THREAD_NPAGES);
      if TwoMade(r, ct, mayFlow, THREAD_NPAGES).Some? {
        var (lb, th, m) := TwoMade(r, ct, mayFlow, THREAD_NPAGES).value;
        SpawnedMade(r, m, ct, lb, th);
      }
    }
  }
}
