/** Insertion into a red-black tree: the tree that the in-place insertion of `PageTrees` produces, and what it
    preserves. */
module TreeInsert {
  import opened Bits
  import opened Trees
  import opened Runs

  /** The empty place below `p` and `t` where page `n` belongs. */
  function Descend(p: Path, t: Tree, n: nat): Path
    decreases t
  {
    if t.Leaf? then p
    else if n < t.n then Descend(Step(p, Left, t.n, t.color, t.right), t.left, n)
    else Descend(Step(p, Right, t.n, t.color, t.left), t.right, n)
  }

  /** Repairs a red node `x` below `p`, going up two levels at a time while the uncle is red. */
  function Repair(p: Path, x: Tree): (r: Tree)
    requires x.Node? && TopBlack(p)
    ensures !IsRed(r)
    decreases p
  {
    if !EndsRed(p) then Blacken(Plug(p, x))
    else
      var g := p.up;
      assert TopBlack(g);
      if IsRed(g.other) then
        Repair(g.up, Join(g.side, Join(p.side, x, p.n, Black, p.other), g.n, Red, Blacken(g.other)))
      else if p.side == g.side then
        Blacken(Plug(g.up, Join(g.side, x, p.n, Black, Join(g.side, p.other, g.n, Red, g.other))))
      else
        Blacken(Plug(g.up, Join(g.side, Join(g.side, p.other, p.n, Red, Child(x, g.side)), x.n, Black,
                                Join(g.side, Child(x, p.side), g.n, Red, g.other))))
  }

  function InsertTree(t: Tree, n: nat): (r: Tree)
    requires !IsRed(t)
    ensures !IsRed(r)
  {
    DescendTopBlack(Top, t, n);
    Repair(Descend(Top, t, n), Node(Leaf, n, Red, Leaf))
  }

  // The descent

  lemma {:induction false} DescendTopBlack(p: Path, t: Tree, n: nat)
    requires TopBlack(p)
    requires p == Top ==> !IsRed(t)
    ensures TopBlack(Descend(p, t, n))
    decreases t
  {
    if t.Node? {
      if n < t.n {
        DescendTopBlack(Step(p, Left, t.n, t.color, t.right), t.left, n);
      } else {
        DescendTopBlack(Step(p, Right, t.n, t.color, t.left), t.right, n);
      }
    }
  }

  /** The empty place has `n` in its interval, and nothing was lost on the way. */
  lemma {:induction false} DescendSound(p: Path, t: Tree, n: nat)
    requires PathOrdered(p) && Ordered(t, Lo(p), Hi(p)) && Lo(p) < n < Hi(p) && n !in Pages(t)
    ensures Plug(Descend(p, t, n), Leaf) == Plug(p, t)
    ensures PathOrdered(Descend(p, t, n)) && Lo(Descend(p, t, n)) < n < Hi(Descend(p, t, n))
    decreases t
  {
    if t.Node? {
      if n < t.n {
        DescendSound(Step(p, Left, t.n, t.color, t.right), t.left, n);
      } else {
        DescendSound(Step(p, Right, t.n, t.color, t.left), t.right, n);
      }
    }
  }

  // The repair

  lemma {:induction false} RepairPages(p: Path, x: Tree)
    requires x.Node? && TopBlack(p)
    ensures Pages(Repair(p, x)) == PathPages(p) + Pages(x)
    decreases p
  {
    if !EndsRed(p) {
      PlugPages(p, x);
      BlackenKeeps(Plug(p, x), 0, 0);
    } else {
      var g := p.up;
      if IsRed(g.other) {
        RepairPages(g.up, Join(g.side, Join(p.side, x, p.n, Black, p.other), g.n, Red, Blacken(g.other)));
        BlackenKeeps(g.other, 0, 0);
      } else if p.side == g.side {
        PlugPages(g.up, Join(g.side, x, p.n, Black, Join(g.side, p.other, g.n, Red, g.other)));
      } else {
        PlugPages(g.up, Join(g.side, Join(g.side, p.other, p.n, Red, Child(x, g.side)), x.n, Black,
                             Join(g.side, Child(x, p.side), g.n, Red, g.other)));
      }
    }
  }

  lemma {:induction false} RepairOrdered(p: Path, x: Tree)
    requires x.Node? && TopBlack(p)
    requires PathOrdered(p) && Ordered(x, Lo(p), Hi(p))
    ensures SearchOrdered(Repair(p, x))
    decreases p
  {
    if !EndsRed(p) {
      PlugOrdered(p, x);
      BlackenKeeps(Plug(p, x), 0, PAGE_LIMIT);
    } else {
      var g := p.up;
      assert PathOrdered(g);
      if IsRed(g.other) {
        BlackenKeeps(g.other, Lo(g.up), g.n);
        BlackenKeeps(g.other, g.n, Hi(g.up));
        RepairOrdered(g.up, Join(g.side, Join(p.side, x, p.n, Black, p.other), g.n, Red, Blacken(g.other)));
      } else if p.side == g.side {
        var y := Join(g.side, x, p.n, Black, Join(g.side, p.other, g.n, Red, g.other));
        PlugOrdered(g.up, y);
        BlackenKeeps(Plug(g.up, y), 0, PAGE_LIMIT);
      } else {
        var y := Join(g.side, Join(g.side, p.other, p.n, Red, Child(x, g.side)), x.n, Black,
                      Join(g.side, Child(x, p.side), g.n, Red, g.other));
        PlugOrdered(g.up, y);
        BlackenKeeps(Plug(g.up, y), 0, PAGE_LIMIT);
      }
    }
  }

  lemma {:induction false} RepairColored(p: Path, x: Tree)
    requires x.Node? && x.color == Red && NoRedRed(x)
    requires TopBlack(p) && PathNoRedRed(p)
    ensures Colored(Repair(p, x))
    decreases p
  {
    if !EndsRed(p) {
      PlugNoRedRed(p, x);
    } else {
      var g := p.up;
      if IsRed(g.other) {
        RepairColored(g.up, Join(g.side, Join(p.side, x, p.n, Black, p.other), g.n, Red, Blacken(g.other)));
      } else if p.side == g.side {
        PlugNoRedRed(g.up, Join(g.side, x, p.n, Black, Join(g.side, p.other, g.n, Red, g.other)));
      } else {
        PlugNoRedRed(g.up, Join(g.side, Join(g.side, p.other, p.n, Red, Child(x, g.side)), x.n, Black,
                                Join(g.side, Child(x, p.side), g.n, Red, g.other)));
      }
    }
  }

  lemma {:induction false} RepairBalanced(p: Path, x: Tree)
    requires x.Node? && x.color == Red && Balanced(x)
    requires TopBlack(p) && PathNoRedRed(p) && PathBalanced(p, BlackHeight(x))
    ensures Balanced(Repair(p, x))
    decreases p
  {
    if !EndsRed(p) {
      PlugBalanced(p, x);
    } else {
      var g, h := p.up, BlackHeight(x);
      assert PathBalanced(g, h) && PathBalanced(g.up, h + 1);
      if IsRed(g.other) {
        var y := Join(p.side, x, p.n, Black, p.other);
        assert Balanced(y) && BlackHeight(y) == h + 1;
        RepairBalanced(g.up, Join(g.side, y, g.n, Red, Blacken(g.other)));
      } else if p.side == g.side {
        var y := Join(g.side, p.other, g.n, Red, g.other);
        assert Balanced(y) && BlackHeight(y) == h;
        PlugBalanced(g.up, Join(g.side, x, p.n, Black, y));
      } else {
        var y := Join(g.side, p.other, p.n, Red, Child(x, g.side));
        var z := Join(g.side, Child(x, p.side), g.n, Red, g.other);
        assert Balanced(y) && BlackHeight(y) == h && Balanced(z) && BlackHeight(z) == h;
        PlugBalanced(g.up, Join(g.side, y, x.n, Black, z));
      }
    }
  }

  // Main results

  ghost predicate CanInsert(t: Tree, n: nat) {
    0 < n < PAGE_LIMIT && n !in Pages(t)
  }

  /** Insertion adds exactly `n` and keeps the search order. */
  lemma InsertAdds(t: Tree, n: nat)
    requires SearchOrdered(t) && !IsRed(t) && CanInsert(t, n)
    ensures SearchOrdered(InsertTree(t, n))
    ensures Pages(InsertTree(t, n)) == Pages(t) + {n}
  {
    var p, x := Descend(Top, t, n), Node(Leaf, n, Red, Leaf);
    DescendTopBlack(Top, t, n);
    DescendSound(Top, t, n);
    PlugPages(p, Leaf);
    RepairPages(p, x);
    RepairOrdered(p, x);
  }

  /** Insertion keeps the colour rules, balanced or not. */
  lemma InsertColored(t: Tree, n: nat)
    requires SearchOrdered(t) && Colored(t) && CanInsert(t, n)
    ensures Colored(InsertTree(t, n))
  {
    var p, x := Descend(Top, t, n), Node(Leaf, n, Red, Leaf);
    DescendTopBlack(Top, t, n);
    DescendSound(Top, t, n);
    PlugNoRedRed(p, Leaf);
    RepairColored(p, x);
  }

  /** Insertion into a full red-black tree yields a full red-black tree. */
  lemma InsertRedBlack(t: Tree, n: nat)
    requires SearchOrdered(t) && RedBlack(t) && CanInsert(t, n)
    ensures RedBlack(InsertTree(t, n))
  {
    var p, x := Descend(Top, t, n), Node(Leaf, n, Red, Leaf);
    DescendTopBlack(Top, t, n);
    DescendSound(Top, t, n);
    PlugNoRedRed(p, Leaf);
    PlugBalanced(p, Leaf);
    InsertColored(t, n);
    RepairBalanced(p, x);
  }

  /** Inserts the `m` pages from `base` upwards. */
  function InsertAll(t: Tree, base: nat, m: nat): (r: Tree)
    requires !IsRed(t)
    ensures !IsRed(r)
  {
    if m == 0 then t else InsertTree(InsertAll(t, base, m - 1), base + m - 1)
  }

  ghost predicate CanInsertAll(t: Tree, base: nat, m: nat) {
    m > 0 ==> 0 < base && base + m <= PAGE_LIMIT && Run(base, m) !! Pages(t)
  }

  lemma {:induction false} InsertAllAdds(t: Tree, base: nat, m: nat)
    requires SearchOrdered(t) && !IsRed(t) && CanInsertAll(t, base, m)
    ensures SearchOrdered(InsertAll(t, base, m)) && Pages(InsertAll(t, base, m)) == Pages(t) + Run(base, m)
    ensures m > 0 ==> CanInsert(InsertAll(t, base, m - 1), base + m - 1)
  {
    if m != 0 {
      var n := base + m - 1;
      RunGrows(Pages(t), base, m);
      InsertAllAdds(t, base, m - 1);
      InsertAdds(InsertAll(t, base, m - 1), n);
    }
  }

  lemma InsertAllNext(t: Tree, base: nat, i: nat, m: nat)
    requires SearchOrdered(t) && !IsRed(t) && CanInsertAll(t, base, m) && i < m
    ensures CanInsert(InsertAll(t, base, i), base + i)
    ensures InsertAll(t, base, i + 1) == InsertTree(InsertAll(t, base, i), base + i)
    ensures Pages(InsertAll(t, base, i)) + {base + i} <= Pages(t) + Run(base, m)
  {
    assert CanInsertAll(t, base, i + 1) by { assert Run(base, i + 1) <= Run(base, m); }
    InsertAllAdds(t, base, i + 1);
    InsertAllAdds(t, base, i);
  }

  lemma {:induction false} InsertAllColored(t: Tree, base: nat, m: nat)
    requires SearchOrdered(t) && Colored(t) && CanInsertAll(t, base, m)
    ensures Colored(InsertAll(t, base, m))
  {
    if m != 0 {
      InsertAllAdds(t, base, m);
      InsertAllAdds(t, base, m - 1);
      InsertAllColored(t, base, m - 1);
      InsertColored(InsertAll(t, base, m - 1), base + m - 1);
    }
  }

  lemma {:induction false} InsertAllRedBlack(t: Tree, base: nat, m: nat)
    requires SearchOrdered(t) && RedBlack(t) && CanInsertAll(t, base, m)
    ensures RedBlack(InsertAll(t, base, m))
  {
    if m != 0 {
      InsertAllAdds(t, base, m);
      InsertAllAdds(t, base, m - 1);
      InsertAllRedBlack(t, base, m - 1);
      InsertRedBlack(InsertAll(t, base, m - 1), base + m - 1);
    }
  }

  /** A tree built over `m` pages holds exactly those, is a full red-black tree, and its longest path `h` satisfies
      2^ceil(h/2) <= m + 1. */
  lemma {:induction false} BuildFull(base: nat, m: nat)
    requires 0 < base && base + m <= PAGE_LIMIT
    ensures SearchOrdered(InsertAll(Leaf, base, m)) && RedBlack(InsertAll(Leaf, base, m))
    ensures Pages(InsertAll(Leaf, base, m)) == Run(base, m) && Size(InsertAll(Leaf, base, m)) == m
    ensures Pow2((Height(InsertAll(Leaf, base, m)) + 1) / 2) <= m + 1
  {
    InsertAllAdds(Leaf, base, m);
    InsertAllRedBlack(Leaf, base, m);
    SizePages(InsertAll(Leaf, base, m), 0, PAGE_LIMIT);
    RunSize(base, m);
    HeightBound(InsertAll(Leaf, base, m));
  }
}
