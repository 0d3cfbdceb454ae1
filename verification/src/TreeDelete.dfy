/** Deletion from a red-black tree as the in-place deletion of `PageTrees` performs it. The code looks at nephews
    that it assumes to exist; where one is missing it stops the kernel, which is the outcome `None` here. */
module TreeDelete {
  import opened Options
  import opened Trees

  /** The subtree at which a search for `n` stops, with its path. */
  function Locate(p: Path, t: Tree, n: nat): (Path, Tree)
    decreases t
  {
    if t.Leaf? || n == t.n then (p, t)
    else if n < t.n then Locate(Step(p, Left, t.n, t.color, t.right), t.left, n)
    else Locate(Step(p, Right, t.n, t.color, t.left), t.right, n)
  }

  function Leftmost(p: Path, t: Tree): (Path, Tree)
    decreases t
  {
    if t.Leaf? || t.left.Leaf? then (p, t)
    else Leftmost(Step(p, Left, t.n, t.color, t.right), t.left)
  }

  function Min(t: Tree): nat
    requires t.Node?
  {
    if t.left.Leaf? then t.n else Min(t.left)
  }

  /** A tree from which one node was cut out: `moved` took the place of a node that had the colour `color`. */
  datatype Cut = Cut(path: Path, moved: Tree, color: Color)

  /** Cuts out the root of `t`, or, when it has two children, puts its successor there and cuts out the latter. */
  function CutRoot(p: Path, t: Tree): Cut
    requires t.Node?
  {
    if t.left.Leaf? then Cut(p, t.right, t.color)
    else if t.right.Leaf? then Cut(p, t.left, t.color)
    else
      var (q, m) := Leftmost(Step(p, Right, Min(t.right), t.color, t.left), t.right);
      LeftmostNode(Step(p, Right, Min(t.right), t.color, t.left), t.right);
      Cut(q, m.right, m.color)
  }

  /** Gives back the black node that was cut out above `a`. `None`: a nephew was looked at that does not exist. */
  function Refill(p: Path, a: Tree): Option<Tree>
    decreases if IsRed(a) then 0 else 1 + Depth(p), 0
  {
    if p == Top || a.Leaf? || IsRed(a) then Some(Plug(p, Blacken(a)))
    else if IsRed(p.other) then
      RefillStep(Step(p.up, p.side, p.other.n, Black, Child(p.other, p.side.Other())),
                 p.side, a, p.n, Red, Child(p.other, p.side))
    else
      RefillStep(p.up, p.side, a, p.n, p.color, p.other)
  }

  /** One round in which `a` and its sibling `b` are the children of a node `n` below `up`. */
  function RefillStep(up: Path, side: Side, a: Tree, n: nat, c: Color, b: Tree): Option<Tree>
    decreases if c == Red then 1 else 1 + Depth(up), 1
  {
    if b.Leaf? || b.left.Leaf? || b.right.Leaf? then None
    else
      var near, far := Child(b, side), Child(b, side.Other());
      if near.color == Black && far.color == Black then
        Refill(up, Join(side, a, n, c, b.(color := Red)))
      else if far.color == Black then
        Some(Blacken(Plug(up, Join(side, Join(side, a, n, Black, Child(near, side)), near.n, c,
                                   Join(side, Child(near, side.Other()), b.n, Black, far)))))
      else
        Some(Blacken(Plug(up, Join(side, Join(side, a, n, Black, near), b.n, c, Blacken(far)))))
  }

  function DeleteTree(t: Tree, n: nat): Option<Tree>
    requires SearchOrdered(t) && n in Pages(t)
  {
    LocateSound(Top, t, n);
    var (p, s) := Locate(Top, t, n);
    var cut := CutRoot(p, s);
    if cut.color == Black then Refill(cut.path, cut.moved) else Some(Plug(cut.path, cut.moved))
  }

  lemma {:induction false} LeftmostNode(p: Path, t: Tree)
    requires t.Node?
    ensures var (q, m) := Leftmost(p, t); m.Node? && m.left.Leaf? && m.n == Min(t)
    decreases t
  {
    if t.left.Node? {
      LeftmostNode(Step(p, Left, t.n, t.color, t.right), t.left);
    }
  }

  lemma {:induction false} LocateSound(p: Path, t: Tree, n: nat)
    requires PathOrdered(p) && Ordered(t, Lo(p), Hi(p)) && n in Pages(t)
    ensures var (q, s) := Locate(p, t, n);
      s.Node? && s.n == n && Plug(q, s) == Plug(p, t) && PathOrdered(q) && Ordered(s, Lo(q), Hi(q))
    decreases t
  {
    OrderedPages(t, Lo(p), Hi(p));
    OrderedPages(t.left, Lo(p), t.n);
    OrderedPages(t.right, t.n, Hi(p));
    if n < t.n {
      LocateSound(Step(p, Left, t.n, t.color, t.right), t.left, n);
    } else if n > t.n {
      LocateSound(Step(p, Right, t.n, t.color, t.left), t.right, n);
    }
  }

  // The node that is cut out

  lemma {:induction false} LeftmostPages(p: Path, t: Tree)
    requires t.Node?
    ensures var (q, m) := Leftmost(p, t);
      PathPages(q) + Pages(m) == PathPages(p) + Pages(t) && PathPages(p) <= PathPages(q)
    decreases t
  {
    if t.left.Node? {
      LeftmostPages(Step(p, Left, t.n, t.color, t.right), t.left);
    }
  }

  lemma {:induction false} MinIsLeast(t: Tree, lo: int, hi: int)
    requires t.Node? && Ordered(t, lo, hi)
    ensures lo < Min(t) <= t.n && Min(t) in Pages(t)
    ensures forall k :: k in Pages(t) ==> Min(t) <= k
    decreases t
  {
    OrderedPages(t.right, t.n, hi);
    if t.left.Node? {
      MinIsLeast(t.left, lo, t.n);
    }
  }

  lemma {:induction false} LeftmostOrdered(p: Path, t: Tree, lo: int)
    requires t.Node? && PathOrdered(p) && Lo(p) <= Min(t) && Ordered(t, lo, Hi(p))
    ensures var (q, m) := Leftmost(p, t);
      m.Node? && PathOrdered(q) && Lo(q) == Lo(p) && Min(t) < Hi(q) && Ordered(m.right, Min(t), Hi(q))
    decreases t
  {
    if t.left.Node? {
      MinIsLeast(t.left, lo, t.n);
      LeftmostOrdered(Step(p, Left, t.n, t.color, t.right), t.left, lo);
    }
  }

  /** The cut removes exactly the root of `t` and keeps the search order. */
  lemma {:induction false} CutSound(p: Path, t: Tree)
    requires t.Node? && PathOrdered(p) && Ordered(t, Lo(p), Hi(p))
    ensures var cut := CutRoot(p, t);
      && PathPages(cut.path) + Pages(cut.moved) == PathPages(p) + Pages(t) - {t.n}
      && PathOrdered(cut.path) && Ordered(cut.moved, Lo(cut.path), Hi(cut.path))
  {
    OrderedPathPages(p);
    OrderedPages(t.left, Lo(p), t.n);
    OrderedPages(t.right, t.n, Hi(p));
    if t.left.Leaf? {
      OrderedWiden(t.right, t.n, Hi(p), Lo(p), Hi(p));
    } else if t.right.Leaf? {
      OrderedWiden(t.left, Lo(p), t.n, Lo(p), Hi(p));
    } else {
      SuccessorSound(p, t, Step(p, Right, Min(t.right), t.color, t.left));
    }
  }

  lemma SuccessorSound(p: Path, t: Tree, p': Path)
    requires t.Node? && t.right.Node? && PathOrdered(p) && Ordered(t, Lo(p), Hi(p))
    requires p' == Step(p, Right, Min(t.right), t.color, t.left)
    ensures var (q, m) := Leftmost(p', t.right);
      && m.Node? && PathPages(q) + Pages(m.right) == PathPages(p) + Pages(t) - {t.n}
      && PathOrdered(q) && Ordered(m.right, Lo(q), Hi(q))
  {
    OrderedPathPages(p);
    OrderedPages(t.left, Lo(p), t.n);
    OrderedPages(t.right, t.n, Hi(p));
    MinIsLeast(t.right, t.n, Hi(p));
    OrderedWiden(t.left, Lo(p), t.n, Lo(p), Min(t.right));
    LeftmostNode(p', t.right);
    LeftmostPages(p', t.right);
    LeftmostOrdered(p', t.right, t.n);
    var (q, m) := Leftmost(p', t.right);
    OrderedPages(m.right, Lo(q), Hi(q));
    OrderedPathPages(q);
  }

  lemma {:induction false} LeftmostColored(p: Path, t: Tree)
    requires t.Node? && PathNoRedRed(p) && NoRedRed(t) && !(EndsRed(p) && IsRed(t))
    requires TopBlack(p) && (p == Top ==> !IsRed(t))
    ensures var (q, m) := Leftmost(p, t);
      m.Node? && PathNoRedRed(q) && NoRedRed(m) && !(EndsRed(q) && IsRed(m)) && TopBlack(q)
    decreases t
  {
    if t.left.Node? {
      LeftmostColored(Step(p, Left, t.n, t.color, t.right), t.left);
    }
  }

  lemma {:induction false} LeftmostBalanced(p: Path, t: Tree)
    requires t.Node? && Balanced(t) && PathBalanced(p, BlackHeight(t))
    ensures var (q, m) := Leftmost(p, t);
      m.Node? && m.left.Leaf? && Balanced(m) && PathBalanced(q, BlackHeight(m))
    decreases t
  {
    if t.left.Node? {
      LeftmostBalanced(Step(p, Left, t.n, t.color, t.right), t.left);
    }
  }

  lemma {:induction false} CutColored(p: Path, t: Tree)
    requires t.Node? && PathNoRedRed(p) && NoRedRed(t) && !(EndsRed(p) && IsRed(t))
    requires TopBlack(p) && (p == Top ==> !IsRed(t))
    ensures var cut := CutRoot(p, t);
      && PathNoRedRed(cut.path) && NoRedRed(cut.moved) && TopBlack(cut.path)
      && (cut.color == Red ==> !EndsRed(cut.path) && !IsRed(cut.moved) && cut.path != Top)
  {
    if t.left.Node? && t.right.Node? {
      LeftmostColored(Step(p, Right, Min(t.right), t.color, t.left), t.right);
      LeftmostStep(Step(p, Right, Min(t.right), t.color, t.left), t.right);
    }
  }

  lemma {:induction false} LeftmostStep(p: Path, t: Tree)
    requires p.Step?
    ensures Leftmost(p, t).0.Step?
    decreases t
  {
    if t.Node? && t.left.Node? {
      LeftmostStep(Step(p, Left, t.n, t.color, t.right), t.left);
    }
  }

  /** In a balanced tree the child that moves up has no black node. */
  lemma {:induction false} CutBalanced(p: Path, t: Tree)
    requires t.Node? && Balanced(t) && PathBalanced(p, BlackHeight(t))
    ensures var cut := CutRoot(p, t);
      && Balanced(cut.moved) && BlackHeight(cut.moved) == 0
      && PathBalanced(cut.path, if cut.color == Black then 1 else 0)
  {
    if t.left.Node? && t.right.Node? {
      LeftmostBalanced(Step(p, Right, Min(t.right), t.color, t.left), t.right);
    }
  }

  /** What is left of `t` without its least page, before any repair. */
  function WithoutMin(t: Tree): Tree
    requires t.Node?
  {
    if t.left.Leaf? then t.right else Node(WithoutMin(t.left), t.n, t.color, t.right)
  }

  lemma {:induction false} WithoutMinSound(t: Tree, lo: int, hi: int)
    requires t.Node? && Ordered(t, lo, hi)
    ensures Ordered(WithoutMin(t), Min(t), hi) && Pages(WithoutMin(t)) == Pages(t) - {Min(t)}
  {
    MinIsLeast(t, lo, hi);
    OrderedPages(t.right, t.n, hi);
    if t.left.Node? {
      MinIsLeast(t.left, lo, t.n);
      WithoutMinSound(t.left, lo, t.n);
    }
  }

  lemma {:induction false} LeftmostPlug(p: Path, t: Tree)
    requires t.Node?
    ensures var (q, m) := Leftmost(p, t);
      m.Node? && m.left.Leaf? && m.n == Min(t) && Plug(q, m) == Plug(p, t) && Plug(q, m.right) == Plug(p, WithoutMin(t))
    decreases t
  {
    if t.left.Node? {
      LeftmostPlug(Step(p, Left, t.n, t.color, t.right), t.left);
    }
  }

  // The repair

  lemma {:induction false} RefillPages(p: Path, a: Tree)
    ensures var r := Refill(p, a); r.Some? ==> Pages(r.value) == PathPages(p) + Pages(a)
    decreases if IsRed(a) then 0 else 1 + Depth(p), 0
  {
    if p == Top || a.Leaf? || IsRed(a) {
      PlugPages(p, Blacken(a));
    } else if IsRed(p.other) {
      var up := Step(p.up, p.side, p.other.n, Black, Child(p.other, p.side.Other()));
      RefillStepPages(up, p.side, a, p.n, Red, Child(p.other, p.side));
    } else {
      RefillStepPages(p.up, p.side, a, p.n, p.color, p.other);
    }
  }

  lemma {:induction false} RefillStepPages(up: Path, side: Side, a: Tree, n: nat, c: Color, b: Tree)
    ensures var r := RefillStep(up, side, a, n, c, b);
      r.Some? ==> Pages(r.value) == PathPages(up) + Pages(a) + {n} + Pages(b)
    decreases if c == Red then 1 else 1 + Depth(up), 1
  {
    if RefillStep(up, side, a, n, c, b).Some? {
      var near, far := Child(b, side), Child(b, side.Other());
      if near.color == Black && far.color == Black {
        RefillPages(up, Join(side, a, n, c, b.(color := Red)));
      } else if far.color == Black {
        PlugPages(up, Join(side, Join(side, a, n, Black, Child(near, side)), near.n, c,
                           Join(side, Child(near, side.Other()), b.n, Black, far)));
      } else {
        PlugPages(up, Join(side, Join(side, a, n, Black, near), b.n, c, Blacken(far)));
      }
    }
  }

  lemma {:induction false} RefillOrdered(p: Path, a: Tree)
    requires PathOrdered(p) && Ordered(a, Lo(p), Hi(p))
    ensures var r := Refill(p, a); r.Some? ==> SearchOrdered(r.value)
    decreases if IsRed(a) then 0 else 1 + Depth(p), 0
  {
    if p == Top || a.Leaf? || IsRed(a) {
      PlugOrdered(p, Blacken(a));
    } else if IsRed(p.other) {
      var up := Step(p.up, p.side, p.other.n, Black, Child(p.other, p.side.Other()));
      RefillStepOrdered(up, p.side, a, p.n, Red, Child(p.other, p.side));
    } else {
      RefillStepOrdered(p.up, p.side, a, p.n, p.color, p.other);
    }
  }

  lemma {:induction false} RefillStepOrdered(up: Path, side: Side, a: Tree, n: nat, c: Color, b: Tree)
    requires PathOrdered(up) && Ordered(Join(side, a, n, c, b), Lo(up), Hi(up))
    ensures var r := RefillStep(up, side, a, n, c, b); r.Some? ==> SearchOrdered(r.value)
    decreases if c == Red then 1 else 1 + Depth(up), 1
  {
    if RefillStep(up, side, a, n, c, b).Some? {
      var near, far := Child(b, side), Child(b, side.Other());
      if side == Left {
        assert Ordered(near, n, b.n) && Ordered(far, b.n, Hi(up));
      } else {
        assert Ordered(near, b.n, n) && Ordered(far, Lo(up), b.n);
      }
      if near.color == Black && far.color == Black {
        RefillOrdered(up, Join(side, a, n, c, b.(color := Red)));
      } else if far.color == Black {
        var y := Join(side, Join(side, a, n, Black, Child(near, side)), near.n, c,
                      Join(side, Child(near, side.Other()), b.n, Black, far));
        PlugOrdered(up, y);
        BlackenKeeps(Plug(up, y), 0, PAGE_LIMIT);
      } else {
        var y := Join(side, Join(side, a, n, Black, near), b.n, c, Blacken(far));
        PlugOrdered(up, y);
        BlackenKeeps(Plug(up, y), 0, PAGE_LIMIT);
      }
    }
  }

  lemma {:induction false} RefillColored(p: Path, a: Tree)
    requires PathNoRedRed(p) && TopBlack(p) && NoRedRed(Blacken(a))
    ensures var r := Refill(p, a); r.Some? ==> Colored(r.value)
    decreases if IsRed(a) then 0 else 1 + Depth(p), 0
  {
    if p == Top || a.Leaf? || IsRed(a) {
      PlugNoRedRed(p, Blacken(a));
      PlugTopBlack(p, Blacken(a));
    } else if IsRed(p.other) {
      var up := Step(p.up, p.side, p.other.n, Black, Child(p.other, p.side.Other()));
      RefillStepColored(up, p.side, a, p.n, Red, Child(p.other, p.side));
    } else {
      RefillStepColored(p.up, p.side, a, p.n, p.color, p.other);
    }
  }

  lemma {:induction false} RefillStepColored(up: Path, side: Side, a: Tree, n: nat, c: Color, b: Tree)
    requires PathNoRedRed(up) && TopBlack(up) && !(EndsRed(up) && c == Red)
    requires NoRedRed(a) && !IsRed(a) && NoRedRed(b) && !IsRed(b)
    ensures var r := RefillStep(up, side, a, n, c, b); r.Some? ==> Colored(r.value)
    decreases if c == Red then 1 else 1 + Depth(up), 1
  {
    if RefillStep(up, side, a, n, c, b).Some? {
      var near, far := Child(b, side), Child(b, side.Other());
      assert NoRedRed(near) && NoRedRed(far);
      if near.color == Black && far.color == Black {
        RefillColored(up, Join(side, a, n, c, b.(color := Red)));
      } else if far.color == Black {
        var y := Join(side, Join(side, a, n, Black, Child(near, side)), near.n, c,
                      Join(side, Child(near, side.Other()), b.n, Black, far));
        assert NoRedRed(Child(y, side)) && NoRedRed(Child(y, side.Other()));
        assert NoRedRed(y);
        PlugNoRedRed(up, y);
        BlackenKeeps(Plug(up, y), 0, 0);
      } else {
        var y := Join(side, Join(side, a, n, Black, near), b.n, c, Blacken(far));
        assert NoRedRed(Child(y, side)) && NoRedRed(Child(y, side.Other()));
        assert NoRedRed(y);
        PlugNoRedRed(up, y);
        BlackenKeeps(Plug(up, y), 0, 0);
      }
    }
  }

  // When the repair completes

  predicate HasTwo(t: Tree) {
    t.Node? && t.left.Node? && t.right.Node?
  }

  /** Every nephew that the loop looks at on its way up `p` is there. A red sibling gives way to its near child; a
      black one passes the loop on to the parent if it, its children and the parent are all black. */
  predicate SiblingsHold(p: Path) {
    p == Top ||
    if IsRed(p.other) then HasTwo(Child(p.other, p.side))
    else
      && HasTwo(p.other)
      && (IsRed(p.other.left) || IsRed(p.other.right) || p.color == Red || SiblingsHold(p.up))
  }

  lemma {:induction false} RefillIff(p: Path, a: Tree)
    ensures Refill(p, a).Some? <==> a.Leaf? || IsRed(a) || SiblingsHold(p)
    decreases if IsRed(a) then 0 else 1 + Depth(p), 0
  {
    if p != Top && a.Node? && !IsRed(a) {
      if IsRed(p.other) {
        RefillStepIff(Step(p.up, p.side, p.other.n, Black, Child(p.other, p.side.Other())),
                      p.side, a, p.n, Red, Child(p.other, p.side));
      } else {
        RefillStepIff(p.up, p.side, a, p.n, p.color, p.other);
      }
    }
  }

  lemma {:induction false} RefillStepIff(up: Path, side: Side, a: Tree, n: nat, c: Color, b: Tree)
    ensures RefillStep(up, side, a, n, c, b).Some? <==>
      HasTwo(b) && (IsRed(b.left) || IsRed(b.right) || c == Red || SiblingsHold(up))
    decreases if c == Red then 1 else 1 + Depth(up), 1
  {
    if HasTwo(b) && !IsRed(b.left) && !IsRed(b.right) {
      RefillIff(up, Join(side, a, n, c, b.(color := Red)));
    }
  }

  // What the repair is for

  /** Where one black node is missing above `a`, the repair makes up for it: it completes, and the whole tree is
      balanced. A red `a` makes up for it by turning black. */
  lemma {:induction false} RefillBalances(p: Path, a: Tree)
    requires Balanced(a) && a.Node? && PathNoRedRed(p) && PathBalanced(p, BlackHeight(a) + 1)
    ensures Refill(p, a).Some? && Balanced(Refill(p, a).value)
    decreases if IsRed(a) then 0 else 1 + Depth(p), 0
  {
    if p == Top || IsRed(a) {
      BlackenKeeps(a, 0, 0);
      PlugBalanced(p, Blacken(a));
    } else if IsRed(p.other) {
      var up := Step(p.up, p.side, p.other.n, Black, Child(p.other, p.side.Other()));
      RefillStepBalances(up, p.side, a, p.n, Red, Child(p.other, p.side));
    } else {
      RefillStepBalances(p.up, p.side, a, p.n, p.color, p.other);
    }
  }

  lemma {:induction false} RefillStepBalances(up: Path, side: Side, a: Tree, n: nat, c: Color, b: Tree)
    requires Balanced(a) && a.Node? && !IsRed(a) && Balanced(b) && !IsRed(b) && BlackHeight(b) == BlackHeight(a) + 1
    requires PathNoRedRed(up) && PathBalanced(up, BlackHeight(b) + if c == Black then 1 else 0)
    ensures RefillStep(up, side, a, n, c, b).Some? && Balanced(RefillStep(up, side, a, n, c, b).value)
    decreases if c == Red then 1 else 1 + Depth(up), 1
  {
    var near, far := Child(b, side), Child(b, side.Other());
    assert Balanced(near) && Balanced(far) && BlackHeight(near) == BlackHeight(far) == BlackHeight(a);
    if near.color == Black && far.color == Black {
      RefillBalances(up, Join(side, a, n, c, b.(color := Red)));
    } else {
      var y;
      if far.color == Black {
        var l, r := Join(side, a, n, Black, Child(near, side)), Join(side, Child(near, side.Other()), b.n, Black, far);
        ChildrenBalanced(near, side);
        JoinBalanced(side, a, n, Black, Child(near, side));
        JoinBalanced(side, Child(near, side.Other()), b.n, Black, far);
        JoinBalanced(side, l, near.n, c, r);
        y := Join(side, l, near.n, c, r);
      } else {
        var l := Join(side, a, n, Black, near);
        JoinBalanced(side, a, n, Black, near);
        BlackenKeeps(far, 0, 0);
        JoinBalanced(side, l, b.n, c, Blacken(far));
        y := Join(side, l, b.n, c, Blacken(far));
      }
      PlugBalanced(up, y);
      BlackenKeeps(Plug(up, y), 0, 0);
    }
  }

  lemma JoinBalanced(side: Side, l: Tree, n: nat, c: Color, r: Tree)
    requires Balanced(l) && Balanced(r) && BlackHeight(l) == BlackHeight(r)
    ensures Balanced(Join(side, l, n, c, r))
    ensures BlackHeight(Join(side, l, n, c, r)) == BlackHeight(l) + if c == Black then 1 else 0
  {
  }

  lemma ChildrenBalanced(t: Tree, side: Side)
    requires t.Node? && Balanced(t)
    ensures Balanced(Child(t, side)) && Balanced(Child(t, side.Other()))
    ensures BlackHeight(Child(t, side)) == BlackHeight(Child(t, side.Other())) == BlackHeight(t.left)
  {
  }

  /** The deletion of `n` starts a repair: a black node other than the root is cut out, and a black one moves up. */
  ghost predicate EntersLoop(t: Tree, n: nat)
    requires SearchOrdered(t) && n in Pages(t)
  {
    LocateSound(Top, t, n);
    var (p, s) := Locate(Top, t, n);
    var cut := CutRoot(p, s);
    cut.color == Black && cut.path != Top && cut.moved.Node? && !IsRed(cut.moved)
  }

  /** No repair is needed, or none of the nephews on its way is missing. The siblings are those of `t` itself. */
  ghost predicate CanDelete(t: Tree, n: nat)
    requires SearchOrdered(t) && n in Pages(t)
  {
    LocateSound(Top, t, n);
    var (p, s) := Locate(Top, t, n);
    EntersLoop(t, n) ==> SiblingsHold(CutRoot(p, s).path)
  }

  // Main results

  /** Exactly when a deletion completes, on any search tree. */
  lemma {:induction false} DeleteIff(t: Tree, n: nat)
    requires SearchOrdered(t) && n in Pages(t)
    ensures DeleteTree(t, n).Some? <==> CanDelete(t, n)
  {
    LocateSound(Top, t, n);
    var (p, s) := Locate(Top, t, n);
    var cut := CutRoot(p, s);
    RefillIff(cut.path, cut.moved);
  }

  /** A deletion that completes removes exactly `n` and keeps the search order, whatever the colours. */
  lemma DeleteRemoves(t: Tree, n: nat)
    requires SearchOrdered(t) && n in Pages(t)
    ensures var r := DeleteTree(t, n);
      r.Some? ==> SearchOrdered(r.value) && Pages(r.value) == Pages(t) - {n}
  {
    LocateSound(Top, t, n);
    var (p, s) := Locate(Top, t, n);
    PlugPages(p, s);
    CutSound(p, s);
    var cut := CutRoot(p, s);
    RefillPages(cut.path, cut.moved);
    RefillOrdered(cut.path, cut.moved);
    PlugPages(cut.path, cut.moved);
    PlugOrdered(cut.path, cut.moved);
    OrderedPathPages(p);
  }

  /** A deletion that completes keeps the colour rules, balanced or not. */
  lemma DeleteColored(t: Tree, n: nat)
    requires SearchOrdered(t) && n in Pages(t) && Colored(t)
    ensures var r := DeleteTree(t, n); r.Some? ==> Colored(r.value)
  {
    LocateSound(Top, t, n);
    var (p, s) := Locate(Top, t, n);
    PlugNoRedRed(p, s);
    PlugTopBlack(p, s);
    CutColored(p, s);
    var cut := CutRoot(p, s);
    RefillColored(cut.path, cut.moved);
    PlugNoRedRed(cut.path, cut.moved);
    PlugTopBlack(cut.path, cut.moved);
  }

  /** The node that the deletion of `n` cuts out is a black leaf other than the root. */
  ghost predicate CutsBlackLeaf(t: Tree, n: nat)
    requires SearchOrdered(t) && n in Pages(t)
  {
    LocateSound(Top, t, n);
    var (p, s) := Locate(Top, t, n);
    var cut := CutRoot(p, s);
    cut.color == Black && cut.moved.Leaf? && cut.path != Top
  }

  /** On a full red-black tree the deletion completes without a round of the repair loop; the result is a full
      red-black tree again exactly when the node cut out is not a black leaf other than the root. */
  lemma DeleteRedBlack(t: Tree, n: nat)
    requires SearchOrdered(t) && n in Pages(t) && RedBlack(t)
    ensures !EntersLoop(t, n) && DeleteTree(t, n).Some?
    ensures RedBlack(DeleteTree(t, n).value) <==> !CutsBlackLeaf(t, n)
  {
    LocateSound(Top, t, n);
    var (p, s) := Locate(Top, t, n);
    PlugNoRedRed(p, s);
    PlugTopBlack(p, s);
    PlugBalanced(p, s);
    CutColored(p, s);
    CutBalanced(p, s);
    DeleteColored(t, n);
    var cut := CutRoot(p, s);
    assert cut.moved.Leaf? || IsRed(cut.moved);
    PlugBalanced(cut.path, Blacken(cut.moved));
  }
}
