/** Taking pages from the low end of a tree. The kernel does so at boot, when the free pages are one run: no such
    request can stop it, although a page taken out need not leave the tree balanced. */
module TreeLowest {
  import opened Options
  import opened Trees
  import opened TreeDelete
  import opened Runs
  import opened TreeRuns

  // Trees that lack one black leaf at the far left

  /** A black leaf put back at the far left would make `t` balanced, with black height `ShortHeight(t)`. */
  predicate Short(t: Tree) {
    t.Node? ==> Short(t.left) && Balanced(t.right) && BlackHeight(t.right) == ShortHeight(t.left)
  }

  function ShortHeight(t: Tree): nat {
    if t.Leaf? then 1 else ShortHeight(t.left) + if t.color == Black then 1 else 0
  }

  predicate AllLeft(p: Path) {
    p.Step? ==> p.side == Left && AllLeft(p.up)
  }

  /** What taking the lowest page keeps. */
  predicate Even(t: Tree) {
    Colored(t) && (Balanced(t) || Short(t))
  }

  lemma {:induction false} ShortPlug(p: Path, t: Tree)
    requires AllLeft(p) && Short(t) && PathBalanced(p, ShortHeight(t))
    ensures Short(Plug(p, t))
  {
    if p.Step? {
      ShortPlug(p.up, Node(t, p.n, p.color, p.other));
    }
  }

  lemma {:induction false} LeftmostAllLeft(p: Path, t: Tree)
    requires AllLeft(p)
    ensures AllLeft(Leftmost(p, t).0)
    decreases t
  {
    if t.Node? && t.left.Node? {
      LeftmostAllLeft(Step(p, Left, t.n, t.color, t.right), t.left);
    }
  }

  lemma {:induction false} LeftmostShort(p: Path, t: Tree)
    requires t.Node? && Short(t) && PathBalanced(p, ShortHeight(t))
    ensures var (q, m) := Leftmost(p, t);
      m.Node? && m.left.Leaf? && Short(m) && PathBalanced(q, ShortHeight(m))
    decreases t
  {
    if t.left.Node? {
      LeftmostShort(Step(p, Left, t.n, t.color, t.right), t.left);
    }
  }

  lemma {:induction false} LocateMin(p: Path, t: Tree, lo: int, hi: int)
    requires t.Node? && Ordered(t, lo, hi)
    ensures Locate(p, t, Min(t)) == Leftmost(p, t)
    decreases t
  {
    if t.left.Node? {
      MinIsLeast(t.left, lo, t.n);
      LocateMin(Step(p, Left, t.n, t.color, t.right), t.left, lo, t.n);
    }
  }

  /** Where the repair starts for the lowest page: `a` moves up below `p`, and a node of colour `c` is gone. */
  lemma BalancedCut(p: Path, a: Tree, c: Color)
    requires AllLeft(p) && Balanced(a) && BlackHeight(a) == 0 && PathBalanced(p, if c == Black then 1 else 0)
    ensures c == Red ==> Balanced(Plug(p, a))
    ensures c == Black ==> Refill(p, a).Some? && (Balanced(Refill(p, a).value) || Short(Refill(p, a).value))
  {
    PlugBalanced(p, a);
    PlugBalanced(p, Blacken(a));
    if c == Black && a.Leaf? {
      ShortPlug(p, Leaf);
    }
  }

  lemma ShortCut(p: Path, a: Tree, c: Color)
    requires PathNoRedRed(p) && a.Node? && Balanced(a) && BlackHeight(a) == 1
    requires PathBalanced(p, if c == Black then 2 else 1)
    ensures c == Red ==> Balanced(Plug(p, a))
    ensures c == Black ==> Refill(p, a).Some? && Balanced(Refill(p, a).value)
  {
    if c == Red {
      PlugBalanced(p, a);
    } else {
      RefillBalances(p, a);
    }
  }

  /** The lowest page can always be taken from a tree that is red-black, or so but for a black leaf at the far left;
      what is left is such a tree again. */
  lemma LowestTaken(t: Tree)
    requires SearchOrdered(t) && Even(t) && t.Node?
    ensures Min(t) in Pages(t) && DeleteTree(t, Min(t)).Some? && Even(DeleteTree(t, Min(t)).value)
  {
    MinIsLeast(t, 0, PAGE_LIMIT);
    LocateMin(Top, t, 0, PAGE_LIMIT);
    LeftmostNode(Top, t);
    LeftmostAllLeft(Top, t);
    LeftmostColored(Top, t);
    DeleteColored(t, Min(t));
    var (p, m) := Leftmost(Top, t);
    if Balanced(t) {
      LeftmostBalanced(Top, t);
      BalancedCut(p, m.right, m.color);
    } else {
      LeftmostShort(Top, t);
      ShortCut(p, m.right, m.color);
    }
  }

  // Runs at the low end

  /** The pages of a run at the low end of such a tree can all be taken. */
  lemma {:induction false} LowestRunTaken(t: Tree, s: nat, k: nat)
    requires SearchOrdered(t) && Even(t) && Run(s, k) <= Pages(t) && forall p :: p in Pages(t) ==> s <= p
    ensures TakeRun(t, s, k).Some? && Even(TakeRun(t, s, k).value)
    decreases k
  {
    if k > 0 {
      assert s in Run(s, k);
      MinIsLeast(t, 0, PAGE_LIMIT);
      LowestTaken(t);
      TakeRunNext(t, s, k);
      DeleteRemoves(t, s);
      LowestRunTaken(DeleteTree(t, s).value, s + 1, k - 1);
    }
  }

  /** In one run of free pages there is room for `k` pages exactly if it has so many, and its start is the place. */
  lemma LeastRunInRun(s: nat, n: nat, k: nat)
    ensures LeastRun(Run(s, n), k) == if k <= n && n > 0 then Some(s) else None
  {
    LeastRunCorrect(Run(s, n), k);
    if k <= n && n > 0 {
      assert IsLeastRun(Run(s, n), s, k);
      LeastRunUnique(Run(s, n), s, LeastRun(Run(s, n), k).value, k);
    } else {
      forall s': nat
        ensures !Fits(Run(s, n), s', k)
      {
        assert k > 0 ==> s' + k - 1 in Run(s', k);
      }
    }
  }

  /** From such a tree over one run of pages, any request that fits into it is served from its start. */
  lemma GrantedFromRun(t: Tree, s: nat, n: nat, k: nat)
    requires SearchOrdered(t) && Even(t) && Pages(t) == Run(s, n)
    ensures LeastRun(Pages(t), k) == if k <= n && n > 0 then Some(s) else None
    ensures Granted(t, k).Some? <==> k <= n && n > 0
    ensures k <= n && n > 0 ==> Even(Granted(t, k).value) && Pages(Granted(t, k).value) == Run(s + k, n - k)
  {
    LeastRunInRun(s, n, k);
    if k <= n && n > 0 {
      LowestRunTaken(t, s, k);
      TakeRunRemoves(t, s, k);
    }
  }
}
