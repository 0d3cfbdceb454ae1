/** The page tree: an intrusive red-black tree whose nodes live in the free pages themselves. Every method leaves the
    ghost field `tree` equal to the functional tree that `TreeInsert`, `TreeDelete` and `TreeRuns` describe, and
    writes to no page other than its own. */
module PageTrees {
  import opened Options
  import opened Bits
  import opened Trees
  import opened TreeInsert
  import opened TreeDelete
  import opened TreeRuns
  import opened PageTables
  import opened Runs

  lemma {:induction false} RootInPath(p: Path, t: Tree)
    ensures p.Step? ==> Plug(p, t).Node? && Plug(p, t).n in PathPages(p)
    decreases p
  {
    if p.Step? && p.up.Step? {
      RootInPath(p.up, Join(p.side, t, p.n, p.color, p.other));
    }
  }

  /** The first page and the number of pages that a region of `size` bytes at `start` is taken to hold. */
  function FirstPage(start: nat): nat
    requires start + PAGE_SIZE - 1 < USIZE_LIMIT
  {
    PageAlignUp(start) / PAGE_SIZE
  }

  function PageCount(size: nat): nat
    requires size < USIZE_LIMIT
  {
    PageAlignDown(size) / PAGE_SIZE
  }

  /** The start is rounded up to a page but the size is not shortened by as much: the pages end inside the region
      exactly if the start is aligned or the size has as many bytes to spare. */
  lemma PagesInside(start: nat, size: nat)
    requires start + PAGE_SIZE - 1 < USIZE_LIMIT && size < USIZE_LIMIT
    ensures start <= FirstPage(start) * PAGE_SIZE < start + PAGE_SIZE
    ensures PageCount(size) * PAGE_SIZE <= size < (PageCount(size) + 1) * PAGE_SIZE
    ensures (FirstPage(start) + PageCount(size)) * PAGE_SIZE <= start + size <==>
      start % PAGE_SIZE == 0 || PAGE_SIZE - start % PAGE_SIZE <= size % PAGE_SIZE
  {
    PagesGap(start, size, PageAlignUp(start), PageAlignDown(size));
  }

  lemma PagesGap(start: nat, size: nat, up: nat, down: nat)
    requires start <= up < start + PAGE_SIZE && up % PAGE_SIZE == 0
    requires down <= size < down + PAGE_SIZE && down % PAGE_SIZE == 0
    ensures up / PAGE_SIZE * PAGE_SIZE == up && down / PAGE_SIZE * PAGE_SIZE == down
    ensures up + down <= start + size <==> start % PAGE_SIZE == 0 || PAGE_SIZE - start % PAGE_SIZE <= size % PAGE_SIZE
  {
  }

  /** A region of one page's bytes from address 1: its page is page 1, which ends at 8192, past the end at 4097. */
  lemma PageOutside()
    ensures FirstPage(1) == 1 && PageCount(PAGE_SIZE) == 1
    ensures (FirstPage(1) + PageCount(PAGE_SIZE)) * PAGE_SIZE == 8192 > 1 + PAGE_SIZE
  {
    PagesInside(1, PAGE_SIZE);
  }

  class PageTree {
    const mem: Memory
    var root: Link
    ghost var tree: Tree

    /** The nodes in memory form the search tree `tree`. */
    ghost predicate Linked()
      reads this, mem
    {
      root == Root(tree) && Stored(mem.node, tree, None) && SearchOrdered(tree)
    }

    /** Linked, with the colour rules that every operation keeps. */
    ghost predicate Valid()
      reads this, mem
    {
      Linked() && Colored(tree)
    }

    ghost function Free(): set<nat>
      reads this
    {
      Pages(tree)
    }

    constructor (mem: Memory)
      ensures this.mem == mem && Valid() && tree == Leaf
    {
      this.mem := mem;
      root := None;
      tree := Leaf;
    }

    // Links

    function Parent(l: Link): Link
      requires l.Some? ==> l.value in mem.node
      reads mem
    {
      if l.None? then None else mem.node[l.value].parent
    }

    function LeftOf(l: Link): Link
      requires l.Some? ==> l.value in mem.node
      reads mem
    {
      if l.None? then None else mem.node[l.value].left
    }

    function RightOf(l: Link): Link
      requires l.Some? ==> l.value in mem.node
      reads mem
    {
      if l.None? then None else mem.node[l.value].right
    }

    function ColorOf(l: Link): Option<Color>
      requires l.Some? ==> l.value in mem.node
      reads mem
    {
      if l.None? then None else Some(mem.node[l.value].color)
    }

    /** What can be read from memory around a place of the tree. */
    lemma Look(p: Path, t: Tree)
      requires Linked() && tree == Plug(p, t)
      ensures Focus(mem.node, p, t)
      ensures PathPages(p) !! Pages(t) && Pages(tree) == PathPages(p) + Pages(t)
      ensures p.Step? ==> root.Some? && root != Root(t)
      ensures p == Top ==> root == Root(t)
      ensures forall k :: k in Pages(tree) ==> k in mem.node
    {
      StoredPages(mem.node, tree, None);
      FocusIffStored(mem.node, p, t);
      FocusApart(mem.node, p, t);
      PlugPages(p, t);
      RootInPath(p, t);
    }

    // Single steps

    method SetColor(k: nat, c: Color, ghost p: Path, ghost t: Tree)
      requires Linked() && tree == Plug(p, t) && t.Node? && t.n == k
      modifies this`tree, mem
      ensures Linked() && tree == Plug(p, t.(color := c)) && Pages(tree) == old(Pages(tree))
      ensures SameOutside(old(mem.node), mem.node, old(Pages(tree)))
    {
      Look(p, t);
      PaintFocus(mem.node, p, t, c);
      PlugPages(p, t.(color := c));
      mem.node := mem.node[k := mem.node[k].(color := c)];
      tree := Plug(p, t.(color := c));
      FocusIffStored(mem.node, p, t.(color := c));
      RootInPath(p, t.(color := c));
      RootInPath(p, t);
      assert Root(tree) == old(Root(tree)) by { PlugRoot(p, t, t.(color := c)); }
    }

    method LeftRotate(a: nat)
      requires CanRotate(mem.node, a, Left)
      modifies this`root, mem
      ensures mem.node == Rotated(old(mem.node), a, Left)
      ensures root == if old(mem.node)[a].parent.None? then old(mem.node)[a].right else old(root)
    {
      var b := mem.node[a].right.value;
      mem.node := mem.node[a := mem.node[a].(right := mem.node[b].left)];
      var mid := mem.node[b].left;
      if mid.Some? {
        mem.node := mem.node[mid.value := mem.node[mid.value].(parent := Some(a))];
      }
      mem.node := mem.node[b := mem.node[b].(parent := mem.node[a].parent)];
      var up := mem.node[a].parent;
      if up.Some? {
        if Some(a) == mem.node[up.value].left {
          mem.node := mem.node[up.value := mem.node[up.value].(left := Some(b))];
        } else {
          mem.node := mem.node[up.value := mem.node[up.value].(right := Some(b))];
        }
      } else {
        root := Some(b);
      }
      mem.node := mem.node[b := mem.node[b].(left := Some(a))];
      mem.node := mem.node[a := mem.node[a].(parent := Some(b))];
    }

    method RightRotate(b: nat)
      requires CanRotate(mem.node, b, Right)
      modifies this`root, mem
      ensures mem.node == Rotated(old(mem.node), b, Right)
      ensures root == if old(mem.node)[b].parent.None? then old(mem.node)[b].left else old(root)
    {
      var a := mem.node[b].left.value;
      mem.node := mem.node[b := mem.node[b].(left := mem.node[a].right)];
      var mid := mem.node[a].right;
      if mid.Some? {
        mem.node := mem.node[mid.value := mem.node[mid.value].(parent := Some(b))];
      }
      mem.node := mem.node[a := mem.node[a].(parent := mem.node[b].parent)];
      var up := mem.node[b].parent;
      if up.Some? {
        if Some(b) == mem.node[up.value].left {
          mem.node := mem.node[up.value := mem.node[up.value].(left := Some(a))];
        } else {
          mem.node := mem.node[up.value := mem.node[up.value].(right := Some(a))];
        }
      } else {
        root := Some(a);
      }
      mem.node := mem.node[a := mem.node[a].(right := Some(b))];
      mem.node := mem.node[b := mem.node[b].(parent := Some(a))];
    }

    /** A rotation seen from the represented tree. */
    method RotateAt(side: Side, k: nat, ghost p: Path, ghost t: Tree)
      requires Linked() && tree == Plug(p, t) && t.Node? && t.n == k && Child(t, side.Other()).Node?
      modifies this, mem
      ensures Linked() && tree == Plug(p, Rotate(t, side)) && Pages(tree) == old(Pages(tree))
      ensures SameOutside(old(mem.node), mem.node, old(Pages(tree)))
    {
      Look(p, t);
      RotateFocus(mem.node, p, t, side);
      RotationPages(p, t, side);
      PlugRoot(p, t, Rotate(t, side));
      if side == Left { LeftRotate(k); } else { RightRotate(k); }
      tree := Plug(p, Rotate(t, side));
      FocusIffStored(mem.node, p, Rotate(t, side));
    }

    function ChildOf(l: Link, side: Side): Link
      requires l.Some? ==> l.value in mem.node
      reads mem
    {
      if side == Left then LeftOf(l) else RightOf(l)
    }

    // Insertion

    method PaintUncles(parent: nat, uncle: nat, grand: nat, ghost p: Path, ghost x: Tree)
      requires Linked() && tree == Plug(p, x)
      requires EndsRed(p) && p.up.Step? && IsRed(p.up.other)
      requires parent == p.n && grand == p.up.n && uncle == p.up.other.n
      modifies this`tree, mem
      ensures var g := p.up;
        tree == Plug(g.up, Join(g.side, Join(p.side, x, p.n, Black, p.other), g.n, Red, Blacken(g.other)))
      ensures Linked() && Pages(tree) == old(Pages(tree))
      ensures SameOutside(old(mem.node), mem.node, old(Pages(tree)))
    {
      ghost var g := p.up;
      SetColor(parent, Black, g, Join(p.side, x, p.n, p.color, p.other));
      ghost var y := Join(p.side, x, p.n, Black, p.other);
      SetColor(uncle, Black, Step(g.up, g.side.Other(), g.n, g.color, y), g.other);
      SetColor(grand, Red, g.up, Join(g.side, y, g.n, g.color, Blacken(g.other)));
    }

    /** The red parent's sibling is not red: one or two rotations end the repair. */
    method RotateUncles(clink: nat, side: Side, ghost p: Path, ghost x: Tree)
      returns (clink': nat, ghost p': Path, ghost x': Tree)
      requires Linked() && tree == Plug(p, x) && x.Node? && x.n == clink && TopBlack(p)
      requires EndsRed(p) && p.up.Step? && !IsRed(p.up.other) && side == p.up.side
      modifies this, mem
      ensures Linked() && tree == Plug(p', x') && x'.Node? && x'.n == clink' && TopBlack(p')
      ensures p'.Step? && p'.color == Black && Depth(p') < Depth(p)
      ensures Repair(p', x') == Repair(p, x)
      ensures Pages(tree) == old(Pages(tree)) && SameOutside(old(mem.node), mem.node, old(Pages(tree)))
    {
      clink' := clink;
      ghost var g := p.up;
      ghost var q, y := p, x;
      assert TopBlack(g);
      Look(p, x);
      var parent := Parent(Some(clink')).value;
      if Some(clink') == ChildOf(Some(parent), side.Other()) {
        clink' := parent;
        RotateAt(side, clink', g, Join(p.side, x, p.n, p.color, p.other));
        q := Step(g, side, x.n, x.color, Child(x, side.Other()));
        y := Join(side, p.other, p.n, Red, Child(x, side));
      }
      assert q.up == g && q.side == side && tree == Plug(q, y) && y.Node? && y.n == clink';
      Look(q, y);
      parent := Parent(Some(clink')).value;
      var grand := Parent(Some(parent)).value;
      SetColor(parent, Black, g, Join(side, y, q.n, q.color, q.other));
      SetColor(grand, Red, g.up, Join(side, Join(side, y, q.n, Black, q.other), g.n, g.color, g.other));
      RotateAt(side.Other(), grand, g.up, Join(side, Join(side, y, q.n, Black, q.other), g.n, Red, g.other));
      p' := Step(g.up, side, q.n, Black, Join(side, q.other, g.n, Red, g.other));
      x' := y;
    }

    /** The two sides of the loop body mirror each other; `side` says on which one the parent hangs. */
    method InsertFixup(start: nat, ghost p: Path, ghost x: Tree)
      requires Linked() && tree == Plug(p, x) && x.Node? && x.n == start && TopBlack(p)
      modifies this, mem
      ensures Linked() && tree == Repair(p, x)
      ensures SameOutside(old(mem.node), mem.node, old(Pages(tree)))
    {
      var clink := start;
      ghost var q, y := p, x;
      Look(q, y);
      while ColorOf(Parent(Some(clink))) == Some(Red)
        invariant Linked() && tree == Plug(q, y) && y.Node? && y.n == clink && TopBlack(q)
        invariant Focus(mem.node, q, y)
        invariant Repair(q, y) == Repair(p, x)
        invariant Pages(tree) == old(Pages(tree)) && SameOutside(old(mem.node), mem.node, old(Pages(tree)))
        decreases Depth(q)
      {
        ghost var g := q.up;
        assert TopBlack(g) && g.Step?;
        Look(q, y);
        Look(g, Join(q.side, y, q.n, q.color, q.other));
        var parent := Parent(Some(clink)).value;
        var grand := Parent(Some(parent)).value;
        var side := if Some(parent) == LeftOf(Some(grand)) then Left else Right;
        assert side == g.side;
        var uncle := ChildOf(Some(grand), side.Other());
        if ColorOf(uncle) == Some(Red) {
          PaintUncles(parent, uncle.value, grand, q, y);
          q, y := g.up, Join(g.side, Join(q.side, y, q.n, Black, q.other), g.n, Red, Blacken(g.other));
          clink := grand;
        } else {
          clink, q, y := RotateUncles(clink, side, q, y);
        }
        Look(q, y);
      }
      ghost var t := tree;
      RootInPath(q, y);
      Look(Top, tree);
      SetColor(root.value, Black, Top, tree);
      assert tree == Blacken(t);
    }

    /** Writes a red node into page `n` and hangs it into the empty place below `prev`. */
    method Attach(n: nat, prev: Link, ghost p: Path)
      requires Linked() && tree == Plug(p, Leaf) && prev == Above(p)
      requires n !in Pages(tree) && Lo(p) < n < Hi(p)
      modifies this, mem
      ensures Linked() && tree == Plug(p, Node(Leaf, n, Red, Leaf))
      ensures SameOutside(old(mem.node), mem.node, old(Pages(tree)) + {n})
    {
      ghost var x := Node(Leaf, n, Red, Leaf);
      Look(p, Leaf);
      OrderedPathPages(p);
      ghost var m := mem.node;
      mem.node := mem.node[n := PageNode(n, prev, None, None, Red)];
      ghost var m1 := mem.node;
      StoredPathFrame(m, m1, p, None);
      if prev.Some? {
        if n < mem.node[prev.value].n {
          mem.node := mem.node[prev.value := mem.node[prev.value].(left := Some(n))];
        } else {
          mem.node := mem.node[prev.value := mem.node[prev.value].(right := Some(n))];
        }
      } else {
        root := Some(n);
      }
      Relink(m1, mem.node, p, None, Some(n));
      PlugRoot(p, Leaf, x);
      assert Ordered(Leaf, Lo(p), n) && Ordered(Leaf, n, Hi(p));
      assert Stored(mem.node, x, Above(p));
      FocusIffStored(mem.node, p, x);
      tree := Plug(p, x);
    }

    method Insert(n: nat)
      requires Linked() && !IsRed(tree) && CanInsert(tree, n)
      modifies this, mem
      ensures Linked() && tree == InsertTree(old(tree), n) && Pages(tree) == old(Pages(tree)) + {n}
      ensures old(Colored(tree)) ==> Valid()
      ensures SameOutside(old(mem.node), mem.node, old(Pages(tree)) + {n})
    {
      InsertAdds(tree, n);
      if Colored(tree) { InsertColored(tree, n); }
      DescendTopBlack(Top, tree, n);
      DescendSound(Top, tree, n);
      ghost var hole := Descend(Top, tree, n);
      assert TopBlack(hole) && InsertTree(tree, n) == Repair(hole, Node(Leaf, n, Red, Leaf));
      var cur, prev: Link := root, None;
      ghost var p, t := Top, tree;
      Look(p, t);
      while cur.Some?
        invariant Linked() && tree == Plug(p, t) && Focus(mem.node, p, t)
        invariant cur == Root(t) && prev == Above(p)
        invariant Descend(p, t, n) == hole
        invariant mem.node == old(mem.node) && tree == old(tree)
        decreases t
      {
        prev := cur;
        if n < mem.node[cur.value].n {
          cur := LeftOf(cur);
          p, t := Step(p, Left, t.n, t.color, t.right), t.left;
        } else {
          cur := RightOf(cur);
          p, t := Step(p, Right, t.n, t.color, t.left), t.right;
        }
        Look(p, t);
      }
      assert p == hole;
      ghost var m, grown := mem.node, Pages(tree) + {n};
      Attach(n, prev, p);
      ghost var m' := mem.node;
      PlugPages(p, Leaf);
      PlugPages(p, Node(Leaf, n, Red, Leaf));
      assert Pages(tree) == grown;
      InsertFixup(n, p, Node(Leaf, n, Red, Leaf));
      SameOutsideTrans(m, m', mem.node, grown, grown, grown);
    }

    /** Adds the pages of a region, lowest first. */
    method Init(base: nat, npages: nat)
      requires Linked() && !IsRed(tree) && CanInsertAll(tree, base, npages)
      modifies this, mem
      ensures Linked() && tree == InsertAll(old(tree), base, npages)
      ensures Pages(tree) == old(Pages(tree)) + Run(base, npages)
      ensures old(Colored(tree)) ==> Valid()
      ensures SameOutside(old(mem.node), mem.node, old(Pages(tree)) + Run(base, npages))
    {
      ghost var t := tree;
      ghost var touched := Pages(t) + Run(base, npages);
      for i := 0 to npages
        invariant Linked() && tree == InsertAll(t, base, i) && (Colored(t) ==> Colored(tree))
        invariant SameOutside(old(mem.node), mem.node, touched)
      {
        ghost var m, grown := mem.node, Pages(tree) + {base + i};
        InsertAllNext(t, base, i, npages);
        Insert(base + i);
        SameOutsideTrans(old(mem.node), m, mem.node, touched, grown, touched);
      }
      InsertAllAdds(t, base, npages);
    }

    /** Adds as many pages as the size of a region holds, from its first page boundary on. The last one may end past
        the region: `PagesInside` says when, `PageOutside` gives one that does. */
    method InitRegion(start: nat, size: nat)
      requires start + PAGE_SIZE - 1 < USIZE_LIMIT && size < USIZE_LIMIT
      requires Linked() && !IsRed(tree) && CanInsertAll(tree, FirstPage(start), PageCount(size))
      modifies this, mem
      ensures var base, npages := FirstPage(start), PageCount(size);
        && Linked() && tree == InsertAll(old(tree), base, npages)
        && Pages(tree) == old(Pages(tree)) + Run(base, npages)
        && (old(Colored(tree)) ==> Valid())
        && SameOutside(old(mem.node), mem.node, old(Pages(tree)) + Run(base, npages))
      ensures var base, npages := FirstPage(start), PageCount(size);
        && start <= base * PAGE_SIZE < start + PAGE_SIZE && npages * PAGE_SIZE <= size < (npages + 1) * PAGE_SIZE
        && ((base + npages) * PAGE_SIZE <= start + size <==>
            start % PAGE_SIZE == 0 || PAGE_SIZE - start % PAGE_SIZE <= size % PAGE_SIZE)
    {
      PagesInside(start, size);
      Init(FirstPage(start), PageCount(size));
    }

    // Walking in order

    method MinLink(start: Link, ghost p: Path, ghost t: Tree) returns (cur: Link)
      requires Linked() && tree == Plug(p, t) && start == Root(t)
      ensures t.Leaf? ==> cur == None
      ensures t.Node? ==> cur == Some(Min(t)) && cur == Root(Leftmost(p, t).1)
    {
      cur := start;
      ghost var q, u := p, t;
      Look(q, u);
      while LeftOf(cur).Some?
        invariant tree == Plug(q, u) && Focus(mem.node, q, u) && cur == Root(u)
        invariant t.Leaf? <==> u.Leaf?
        invariant t.Node? ==> Min(u) == Min(t) && Leftmost(q, u) == Leftmost(p, t)
        decreases u
      {
        cur := LeftOf(cur);
        q, u := Step(q, Left, u.n, u.color, u.right), u.left;
        Look(q, u);
      }
    }

    /** The next higher page, found by walking down to the right or up to the left. */
    method NextLink(start: nat) returns (next: Link)
      requires Linked() && start in Pages(tree)
      ensures next.None? ==> forall k :: k in Pages(tree) ==> k <= start
      ensures next.Some? ==> next.value in Pages(tree) && start < next.value
      ensures next.Some? ==> forall k :: k in Pages(tree) ==> k <= start || next.value <= k
    {
      LocateSound(Top, tree, start);
      ghost var (p, t) := Locate(Top, tree, start);
      Look(p, t);
      OrderedPathPages(p);
      OrderedPages(t.left, Lo(p), t.n);
      if RightOf(Some(start)).Some? {
        MinIsLeast(t.right, t.n, Hi(p));
        next := MinLink(RightOf(Some(start)), Step(p, Right, t.n, t.color, t.left), t.right);
        OrderedPages(t.right, t.n, Hi(p));
      } else {
        var cur := start;
        while Some(cur) == RightOf(Parent(Some(cur)))
          invariant tree == Plug(p, t) && Focus(mem.node, p, t) && t.Node? && t.n == cur
          invariant IsLast(t, start)
          decreases p
        {
          Look(p, t);
          WalkUp(p, t, start);
          cur := Parent(Some(cur)).value;
          p, t := p.up, Join(p.side, t, p.n, p.color, p.other);
          Look(p, t);
        }
        Look(p, t);
        StopBelow(p, t, start);
        next := Parent(Some(cur));
      }
    }

    /** Are `start` and the `npages - 1` pages after it all free? */
    method IsConsecutive(start: nat, npages: nat) returns (all: bool)
      requires Linked() && start in Pages(tree)
      ensures all <==> Run(start, npages) <= Pages(tree)
    {
      var cur := start;
      var i := 1;
      while i < npages
        invariant 1 <= i && (i <= npages || npages == 0)
        invariant cur == start + i - 1 && Run(start, i) <= Pages(tree)
        decreases npages - i
      {
        assert cur in Run(start, i);
        var next := NextLink(cur);
        if next == Some(start + i) {
          cur := start + i;
        } else {
          assert start + i in Run(start, npages) && start + i !in Pages(tree);
          return false;
        }
        i := i + 1;
      }
      return true;
    }

    // Deletion

    /** The sibling `sib` has a red far child: a rotation of the parent ends the repair. */
    method RotateFar(parent: nat, sib: nat, far: nat, side: Side, ghost p: Path, ghost a: Tree)
      requires Linked() && tree == Plug(p, a) && p.Step? && p.side == side && p.n == parent
      requires p.other.Node? && p.other.n == sib && Root(Child(p.other, side.Other())) == Some(far)
      modifies this, mem
      ensures var b := p.other;
        tree == Plug(p.up, Join(side, Join(side, a, p.n, Black, Child(b, side)), b.n, p.color,
                                Blacken(Child(b, side.Other()))))
      ensures Linked() && Pages(tree) == old(Pages(tree))
      ensures SameOutside(old(mem.node), mem.node, old(Pages(tree)))
    {
      ghost var b, here := p.other, Step(p.up, side.Other(), p.n, p.color, a);
      Look(p.up, Join(side, a, p.n, p.color, b));
      var color := ColorOf(Some(parent)).value;
      SetColor(sib, color, here, b);
      ghost var b' := b.(color := p.color);
      SetColor(parent, Black, p.up, Join(side, a, p.n, p.color, b'));
      ghost var near, f := Child(b, side), Child(b, side.Other());
      SetColor(far, Black, Step(here.(color := Black), side.Other(), b.n, p.color, near), f);
      RotateAt(side, parent, p.up, Join(side, a, p.n, Black, Join(side, near, b.n, p.color, Blacken(f))));
    }

    /** The sibling has a red near and a black far child: a rotation of the sibling leads to the case above. */
    method RotateNear(sib: nat, near: nat, side: Side, ghost p: Path, ghost a: Tree)
      requires Linked() && tree == Plug(p, a) && p.Step? && p.side == side
      requires p.other.Node? && p.other.n == sib && Root(Child(p.other, side)) == Some(near)
      modifies this, mem
      ensures var b := p.other; var m := Child(b, side);
        tree == Plug(p.(other := Join(side, Child(m, side), m.n, Black,
                                      Join(side, Child(m, side.Other()), b.n, Red, Child(b, side.Other())))), a)
      ensures Linked() && Pages(tree) == old(Pages(tree))
      ensures SameOutside(old(mem.node), mem.node, old(Pages(tree)))
    {
      ghost var b, here := p.other, Step(p.up, side.Other(), p.n, p.color, a);
      ghost var m, far := Child(b, side), Child(b, side.Other());
      SetColor(near, Black, Step(here, side, b.n, b.color, far), m);
      SetColor(sib, Red, here, Join(side, Blacken(m), b.n, b.color, far));
      RotateAt(side.Other(), sib, here, Join(side, Blacken(m), b.n, Red, far));
    }

    /** The sibling has two children, not both black: one or two rotations end the repair. */
    method RotateSibling(parent: nat, sibling: nat, side: Side, ghost p: Path, ghost a: Tree)
      requires Linked() && tree == Plug(p, a) && p.Step? && p.side == side && p.n == parent
      requires p.other.Node? && p.other.n == sibling && p.other.left.Node? && p.other.right.Node?
      requires p.other.left.color == Red || p.other.right.color == Red
      modifies this, mem
      ensures Linked() && RefillStep(p.up, side, a, p.n, p.color, p.other) == Some(Blacken(tree))
      ensures Pages(tree) == old(Pages(tree))
      ensures SameOutside(old(mem.node), mem.node, old(Pages(tree)))
    {
      ghost var b, q := p.other, p;
      Look(p, a);
      Look(p.up, Join(side, a, p.n, p.color, b));
      var sib := Some(sibling);
      var near, far := ChildOf(sib, side), ChildOf(sib, side.Other());
      assert Stored(mem.node, Child(b, side), Some(b.n)) && Stored(mem.node, Child(b, side.Other()), Some(b.n));
      if ColorOf(far) == Some(Black) {
        RotateNear(sib.value, near.value, side, p, a);
        ghost var m := Child(b, side);
        q := p.(other := Join(side, Child(m, side), m.n, Black,
                              Join(side, Child(m, side.Other()), b.n, Red, Child(b, side.Other()))));
        Look(q, a);
        sib := ChildOf(Some(parent), side.Other());
        assert Stored(mem.node, q.other, Some(parent)) && sib == Some(m.n);
        far := ChildOf(sib, side.Other());
      }
      RotateFar(parent, sib.value, far.value, side, q, a);
    }

    /** One round of the repair, with the sibling `sib`. `ok` is false where the code unwraps an absent nephew. */
    method RefillRound(alink: nat, side: Side, ghost p: Path, ghost a: Tree)
      returns (ok: bool, alink': Link, ghost p': Path, ghost a': Tree)
      requires Linked() && tree == Plug(p, a) && p.Step? && a.Node? && a.n == alink && p.side == side
      modifies this, mem
      ensures ok ==> Linked() && tree == Plug(p', a') && alink' == Root(a') && Pages(tree) == old(Pages(tree))
      ensures ok ==> RefillStep(p.up, side, a, p.n, p.color, p.other) == Refill(p', a')
      ensures ok ==> p' == Top || IsRed(a') || (p.color == Black && Depth(p') < Depth(p))
      ensures !ok ==> RefillStep(p.up, side, a, p.n, p.color, p.other) == None
      ensures SameOutside(old(mem.node), mem.node, old(Pages(tree)))
    {
      alink', p', a' := Some(alink), p, a;
      ghost var b := p.other;
      Look(p.up, Join(side, a, p.n, p.color, b));
      Look(p, a);
      var parent := Parent(alink').value;
      var sib := ChildOf(Some(parent), side.Other());
      var near, far := ChildOf(sib, side), ChildOf(sib, side.Other());
      if near.None? {
        return false, alink', p', a';
      }
      assert Stored(mem.node, Child(b, side), Some(b.n)) && Stored(mem.node, Child(b, side.Other()), Some(b.n));
      var nearBlack := ColorOf(near) == Some(Black);
      if nearBlack && far.None? {
        return false, alink', p', a';
      }
      if nearBlack && ColorOf(far) == Some(Black) {
        SetColor(sib.value, Red, Step(p.up, side.Other(), p.n, p.color, a), b);
        p', a' := p.up, Join(side, a, p.n, p.color, b.(color := Red));
        assert RefillStep(p.up, side, a, p.n, p.color, b) == Refill(p', a');
        return true, Some(parent), p', a';
      }
      if far.None? {
        return false, alink', p', a';
      }
      RotateSibling(parent, sib.value, side, p, a);
      Look(Top, tree);
      p', a' := Top, tree;
      return true, root, p', a';
    }

    method DeleteFixup(start: Link, ghost p: Path, ghost a: Tree) returns (ok: bool)
      requires Linked() && tree == Plug(p, a) && start == Root(a)
      modifies this, mem
      ensures ok <==> Refill(p, a).Some?
      ensures ok ==> Linked() && tree == Refill(p, a).value
      ensures SameOutside(old(mem.node), mem.node, old(Pages(tree)))
    {
      var alink := start;
      ghost var q, b := p, a;
      Look(q, b);
      while alink != root && ColorOf(alink) == Some(Black)
        invariant Linked() && tree == Plug(q, b) && alink == Root(b) && Focus(mem.node, q, b)
        invariant q == Top ==> alink == root
        invariant q.Step? ==> alink != root
        invariant Refill(q, b) == Refill(p, a)
        invariant Pages(tree) == old(Pages(tree)) && SameOutside(old(mem.node), mem.node, old(Pages(tree)))
        decreases if IsRed(b) then 0 else 1 + Depth(q)
      {
        ghost var q0 := q;
        var side := LookSide(alink.value, q, b);
        q := MakeSiblingBlack(alink.value, side, q, b);
        ok, alink, q, b := RefillRound(alink.value, side, q, b);
        if !ok {
          return false;
        }
        Look(q, b);
      }
      if alink.Some? {
        SetColor(alink.value, Black, q, b);
      }
      return true;
    }

    method LookSide(alink: nat, ghost p: Path, ghost a: Tree) returns (side: Side)
      requires Linked() && tree == Plug(p, a) && p.Step? && a.Node? && a.n == alink
      ensures side == p.side
    {
      Look(p, a);
      Look(p.up, Join(p.side, a, p.n, p.color, p.other));
      side := if Some(alink) == LeftOf(Parent(Some(alink))) then Left else Right;
    }

    /** A red sibling comes up, so that the parent becomes red. */
    method MakeSiblingBlack(alink: nat, side: Side, ghost p: Path, ghost a: Tree) returns (ghost p': Path)
      requires Linked() && tree == Plug(p, a) && p.Step? && a.Node? && a.n == alink && p.side == side && !IsRed(a)
      modifies this, mem
      ensures Linked() && tree == Plug(p', a) && p'.Step? && p'.side == side
      ensures p' == p || (p'.color == Red && Depth(p') == Depth(p) + 1)
      ensures Refill(p, a) == RefillStep(p'.up, side, a, p'.n, p'.color, p'.other)
      ensures Pages(tree) == old(Pages(tree)) && SameOutside(old(mem.node), mem.node, old(Pages(tree)))
    {
      p' := p;
      ghost var s := p.other;
      Look(p, a);
      Look(p.up, Join(side, a, p.n, p.color, s));
      var parent := Parent(Some(alink)).value;
      var sib := ChildOf(Some(parent), side.Other());
      if ColorOf(sib) == Some(Red) {
        SetColor(sib.value, Black, Step(p.up, side.Other(), p.n, p.color, a), s);
        SetColor(parent, Red, p.up, Join(side, a, p.n, p.color, Blacken(s)));
        RotateAt(side, parent, p.up, Join(side, a, p.n, Red, Blacken(s)));
        p' := Step(Step(p.up, side, s.n, Black, Child(s, side.Other())), side, p.n, Red, Child(s, side));
      }
    }

    /** The page `alink` gives its place to `blink`. */
    method Transplant(alink: nat, blink: Link)
      requires alink in mem.node && (mem.node[alink].parent.Some? ==> mem.node[alink].parent.value in mem.node)
      requires blink.Some? ==> blink.value in mem.node && blink.value != alink
      requires mem.node[alink].parent != Some(alink)
      modifies this`root, mem
      ensures mem.node == Transplanted(old(mem.node), alink, blink)
      ensures root == if old(mem.node)[alink].parent.None? then blink else old(root)
    {
      var up := Parent(Some(alink));
      if up.Some? {
        if Some(alink) == LeftOf(up) {
          mem.node := mem.node[up.value := mem.node[up.value].(left := blink)];
        } else {
          mem.node := mem.node[up.value := mem.node[up.value].(right := blink)];
        }
      } else {
        root := blink;
      }
      if blink.Some? {
        mem.node := mem.node[blink.value := mem.node[blink.value].(parent := Parent(Some(alink)))];
      }
    }

    /** Cuts out a page with at most one child. */
    method CutOut(n: nat, child: Link, ghost p: Path, ghost t: Tree, ghost u: Tree)
      requires Linked() && tree == Plug(p, t) && t.Node? && t.n == n && child == Root(u)
      requires (t.left.Leaf? && u == t.right) || (t.right.Leaf? && u == t.left)
      modifies this, mem
      ensures Linked() && tree == Plug(p, u)
      ensures SameOutside(old(mem.node), mem.node, old(Pages(tree)))
      ensures n in old(mem.node) && n in mem.node && mem.node[n] == old(mem.node)[n]
      ensures root == if p == Top then Root(u) else old(root)
    {
      Look(p, t);
      OrderedPathPages(p);
      OrderedPages(t.left, Lo(p), n);
      OrderedPages(t.right, n, Hi(p));
      OrderedWiden(t.right, n, Hi(p), Lo(p), Hi(p));
      OrderedWiden(t.left, Lo(p), n, Lo(p), Hi(p));
      TransplantFocus(mem.node, p, n, u, Some(n));
      PlugRoot(p, t, u);
      Transplant(n, child);
      tree := Plug(p, u);
      FocusIffStored(mem.node, p, u);
    }

    /** Takes the successor `b` of a page `n` with two children out of its place and hangs what remains of the right
        subtree below it; `child` moved into the place that `b` left. */
    method TakeSuccessor(n: nat, ghost p: Path, ghost t: Tree) returns (b: nat, child: Link, color: Color)
      requires Linked() && tree == Plug(p, t) && t.Node? && t.n == n && t.left.Node? && t.right.Node?
      modifies this, mem
      ensures root == old(root)
      ensures b == Min(t.right) && b in old(Pages(tree))
      ensures var m := Leftmost(Step(p, Right, n, t.color, t.left), t.right).1;
        m.Node? && color == m.color && child == Root(m.right)
      ensures ReadyToReplace(mem.node, p, n, t.left, t.color, b, WithoutMin(t.right))
      ensures SameOutside(old(mem.node), mem.node, old(Pages(tree)))
    {
      ghost var base, r := Step(p, Right, n, t.color, t.left), WithoutMin(t.right);
      Look(p, t);
      Look(base, t.right);
      var right := RightOf(Some(n));
      var blink := MinLink(right, base, t.right);
      b := blink.value;
      LeftmostPlug(base, t.right);
      ghost var (q, m) := Leftmost(base, t.right);
      Look(q, m);
      SuccessorBounds(p, t);
      color := mem.node[b].color;
      child := RightOf(blink);
      if blink != right {
        assert q.Step? by { LeftmostStep(base, t.right); }
        ghost var m0, pages := mem.node, Pages(tree);
        CutOut(b, child, q, m, m.right);
        SuccessorApart(p, t);
        PlugPages(q, m.right);
        ghost var m1, rest := mem.node, Pages(tree) + {b};
        HangBelow(b, n, p, t.left, t.color, r);
        SameOutsideTrans(m0, m1, mem.node, pages, rest, pages);
      } else {
        ghost var m0 := mem.node;
        assert m == t.right && Stored(m0, t.right, Some(n)) && Stored(m0, t.left, Some(n));
        assert Stored(m0, Node(Leaf, b, m.color, m.right), Some(n));
        assert Stored(m0, m.right, Some(b));
        if child.Some? {
          assert m0[child.value].parent == blink;
          mem.node := mem.node[child.value := mem.node[child.value].(parent := blink)];
        }
        assert mem.node == m0;
      }
    }

    /** Moves the right subtree of page `n` below the detached page `b`. */
    method HangBelow(b: nat, n: nat, ghost p: Path, ghost l: Tree, ghost c: Color, ghost r: Tree)
      requires Linked() && tree == Plug(p, Node(l, n, c, r)) && n < b < Hi(p) && Ordered(r, b, Hi(p))
      requires b !in Pages(tree) && b in mem.node && mem.node[b].n == b && mem.node[b].left == None
      modifies mem
      ensures ReadyToReplace(mem.node, p, n, l, c, b, r)
      ensures mem.node[b].color == old(mem.node)[b].color
      ensures SameOutside(old(mem.node), mem.node, old(Pages(tree)) + {b})
    {
      Look(p, Node(l, n, c, r));
      ghost var m := mem.node;
      mem.node := mem.node[b := mem.node[b].(right := RightOf(Some(n)))];
      if RightOf(Some(b)).Some? {
        var top := RightOf(Some(b)).value;
        mem.node := mem.node[top := mem.node[top].(parent := Some(b))];
      }
      OrderedPathPages(p);
      OrderedPages(l, Lo(p), n);
      OrderedPages(r, b, Hi(p));
      StoredPathFrame(m, mem.node, p, Some(n));
      StoredFrame(m, mem.node, l, Some(n));
      Reparent(m, mem.node, r, Some(n), Some(b), b, Hi(p));
    }

    /** The page `b` takes the place, the left subtree and the colour of page `n`. */
    method ReplaceBy(n: nat, b: nat, ghost p: Path, ghost l: Tree, ghost c: Color, ghost r: Tree)
      requires ReadyToReplace(mem.node, p, n, l, c, b, r)
      requires root.Some? && (p == Top ==> root == Some(n))
      requires p.Step? ==> Root(Plug(p, Leaf)) == root
      modifies this, mem
      ensures Linked() && tree == Plug(p, Node(l, b, c, r))
      ensures SameOutside(old(mem.node), mem.node, PathPages(p) + Pages(l) + {b})
    {
      ReplaceFocus(mem.node, p, n, l, c, b, r);
      ghost var m := mem.node;
      OrderedPathPages(p);
      Transplant(n, Some(b));
      mem.node := mem.node[b := mem.node[b].(left := LeftOf(Some(n)), color := ColorOf(Some(n)).value)];
      if LeftOf(Some(b)).Some? {
        var left := LeftOf(Some(b)).value;
        mem.node := mem.node[left := mem.node[left].(parent := Some(b))];
      }
      assert mem.node == Replaced(m, n, b);
      tree := Plug(p, Node(l, b, c, r));
      PlugRoot(p, Leaf, tree);
      PlugRoot(p, Leaf, Node(l, b, c, r));
      FocusIffStored(mem.node, p, Node(l, b, c, r));
    }

    /** Takes page `n` out of the tree, before any repair. */
    method Cut(n: nat, ghost p: Path, ghost t: Tree) returns (alink: Link, color: Color)
      requires Linked() && tree == Plug(p, t) && t.Node? && t.n == n
      modifies this, mem
      ensures var cut := CutRoot(p, t);
        Linked() && tree == Plug(cut.path, cut.moved) && alink == Root(cut.moved) && color == cut.color
      ensures SameOutside(old(mem.node), mem.node, old(Pages(tree)))
    {
      Look(p, t);
      color := ColorOf(Some(n)).value;
      if LeftOf(Some(n)).None? {
        alink := RightOf(Some(n));
        CutOut(n, alink, p, t, t.right);
      } else if RightOf(Some(n)).None? {
        alink := LeftOf(Some(n));
        CutOut(n, alink, p, t, t.left);
      } else {
        ghost var m0, pages, r := mem.node, Pages(tree), WithoutMin(t.right);
        PlugRoot(p, t, Leaf);
        var b;
        b, alink, color := TakeSuccessor(n, p, t);
        ghost var m1 := mem.node;
        ReplaceBy(n, b, p, t.left, t.color, r);
        ghost var base := Step(p, Right, b, t.color, t.left);
        LeftmostPlug(base, t.right);
        LeftmostSame(base, Step(p, Right, n, t.color, t.left), t.right);
        PlugPages(p, t);
        SameOutsideTrans(m0, m1, mem.node, pages, PathPages(p) + Pages(t.left) + {b}, pages);
      }
    }

    /** Takes page `n` out of the tree and repairs it. `ok` is false if the repair stops the kernel. */
    method Delete(n: nat) returns (ok: bool)
      requires Linked() && n in Pages(tree)
      modifies this, mem
      ensures ok <==> CanDelete(old(tree), n)
      ensures ok <==> DeleteTree(old(tree), n).Some?
      ensures ok ==> Linked() && tree == DeleteTree(old(tree), n).value
      ensures SameOutside(old(mem.node), mem.node, old(Pages(tree)))
    {
      DeleteIff(tree, n);
      LocateSound(Top, tree, n);
      ghost var (p, t) := Locate(Top, tree, n);
      ghost var cut := CutRoot(p, t);
      ghost var m0, pages := mem.node, Pages(tree);
      Look(p, t);
      CutSound(p, t);
      var alink, color := Cut(n, p, t);
      ghost var m1, rest := mem.node, Pages(tree);
      PlugPages(cut.path, cut.moved);
      if color == Black {
        ok := DeleteFixup(alink, cut.path, cut.moved);
      } else {
        ok := true;
      }
      SameOutsideTrans(m0, m1, mem.node, pages, rest, pages);
    }

    // Allocation

    /** The lowest page from which `npages` consecutive pages are free. */
    method FindRun(npages: nat) returns (found: Link)
      requires Linked()
      ensures found.None? ==> NoRun(Pages(tree), npages)
      ensures found.Some? ==> IsLeastRun(Pages(tree), found.value, npages)
    {
      MinBound(tree);
      found := MinLink(root, Top, tree);
      while found.Some?
        invariant found.Some? ==> found.value in Pages(tree)
        invariant forall s :: Fits(Pages(tree), s, npages) ==> found.Some? && found.value <= s
        decreases if found.Some? then PAGE_LIMIT - found.value else 0
      {
        var all := IsConsecutive(found.value, npages);
        if all {
          return;
        }
        OrderedPages(tree, 0, PAGE_LIMIT);
        found := NextLink(found.value);
      }
    }

    /** Takes the lowest run of `npages` pages out of the tree, one page at a time. */
    method GetMultiple(npages: nat) returns (ok: bool, found: Link)
      requires Linked()
      modifies this, mem
      ensures found.None? ==>
        ok && NoRun(old(Pages(tree)), npages) && tree == old(tree) && mem.node == old(mem.node)
      ensures found.Some? ==> IsLeastRun(old(Pages(tree)), found.value, npages)
      ensures found.Some? ==> (ok <==> CanTake(old(tree), found.value, npages))
      ensures found.Some? ==> (ok <==> TakeRun(old(tree), found.value, npages).Some?)
      ensures ok ==> Linked()
      ensures ok && found.Some? ==>
        tree == TakeRun(old(tree), found.value, npages).value
        && Pages(tree) == old(Pages(tree)) - Run(found.value, npages)
      ensures ok && old(Colored(tree)) ==> Valid()
      ensures SameOutside(old(mem.node), mem.node, old(Pages(tree)))
    {
      found := FindRun(npages);
      ok := true;
      if found.Some? {
        ok := TakePages(found.value, npages);
      }
    }

    method TakePages(start: nat, npages: nat) returns (ok: bool)
      requires Linked() && Run(start, npages) <= Pages(tree)
      modifies this, mem
      ensures ok <==> CanTake(old(tree), start, npages)
      ensures ok <==> TakeRun(old(tree), start, npages).Some?
      ensures ok ==> Linked() && tree == TakeRun(old(tree), start, npages).value
      ensures ok ==> Pages(tree) == old(Pages(tree)) - Run(start, npages)
      ensures ok && old(Colored(tree)) ==> Valid()
      ensures SameOutside(old(mem.node), mem.node, old(Pages(tree)))
    {
      ghost var t0, pages := tree, Pages(tree);
      TakeRunIff(t0, start, npages);
      var i := 0;
      while i < npages
        invariant i <= npages && Linked() && Taking(tree, t0, start, npages, i)
        invariant SameOutside(old(mem.node), mem.node, pages)
      {
        ghost var m, t := mem.node, tree;
        TakingNext(t, t0, start, npages, i);
        var done := Delete(start + i);
        SameOutsideTrans(old(mem.node), m, mem.node, pages, Pages(t), pages);
        if !done {
          return false;
        }
        i := i + 1;
      }
      TakeRunRemoves(t0, start, npages);
      return true;
    }
  }

  /** The page at the bottom of a path makes no difference to the walk below it. */
  lemma {:induction false} LeftmostSame(p: Path, p': Path, t: Tree)
    ensures Leftmost(p, t).1 == Leftmost(p', t).1
    decreases t
  {
    if t.Node? && t.left.Node? {
      LeftmostSame(Step(p, Left, t.n, t.color, t.right), Step(p', Left, t.n, t.color, t.right), t.left);
    }
  }

  ghost predicate IsLast(t: Tree, k: nat) {
    k in Pages(t) && forall i :: i in Pages(t) ==> i <= k
  }

  /** The last page of a subtree on the right is the last one with its parent. */
  lemma WalkUp(p: Path, t: Tree, k: nat)
    requires PathOrdered(p) && Ordered(t, Lo(p), Hi(p)) && t.Node? && IsLast(t, k)
    ensures p.Step? && p.side == Left ==> Some(t.n) != Root(p.other)
    ensures p.Step? && p.side == Right ==> IsLast(Join(p.side, t, p.n, p.color, p.other), k)
  {
    if p.Step? {
      OrderedPages(t, Lo(p), Hi(p));
      if p.side == Left { OrderedPages(p.other, p.n, Hi(p.up)); } else { OrderedPages(p.other, Lo(p.up), p.n); }
    }
  }

  /** The parent of a subtree on the left comes next after its last page. */
  lemma StopBelow(p: Path, t: Tree, k: nat)
    requires PathOrdered(p) && Ordered(t, Lo(p), Hi(p)) && IsLast(t, k)
    ensures p == Top ==> IsLast(Plug(p, t), k)
    ensures p.Step? && p.side == Left ==>
      p.n in Pages(Plug(p, t)) && k < p.n && forall i :: i in Pages(Plug(p, t)) ==> i <= k || p.n <= i
  {
    OrderedPathPages(p);
    OrderedPages(t, Lo(p), Hi(p));
    PlugPages(p, t);
  }

  lemma MinBound(t: Tree)
    requires SearchOrdered(t)
    ensures t.Leaf? ==> Pages(t) == {}
    ensures t.Node? ==> Min(t) in Pages(t) && forall k :: k in Pages(t) ==> Min(t) <= k
  {
    if t.Node? { MinIsLeast(t, 0, PAGE_LIMIT); }
  }

  lemma SuccessorBounds(p: Path, t: Tree)
    requires t.Node? && t.right.Node? && Ordered(t, Lo(p), Hi(p))
    ensures t.n < Min(t.right) < Hi(p) && Min(t.right) in Pages(t.right)
    ensures Ordered(WithoutMin(t.right), Min(t.right), Hi(p))
    ensures Min(t.right) == t.right.n <==> t.right.left.Leaf?
  {
    MinIsLeast(t.right, t.n, Hi(p));
    WithoutMinSound(t.right, t.n, Hi(p));
    if t.right.left.Node? { MinIsLeast(t.right.left, t.n, t.right.n); }
  }

  lemma SuccessorApart(p: Path, t: Tree)
    requires t.Node? && t.right.Node? && PathOrdered(p) && Ordered(t, Lo(p), Hi(p))
    ensures Min(t.right) !in Pages(Plug(p, Node(t.left, t.n, t.color, WithoutMin(t.right))))
  {
    MinIsLeast(t.right, t.n, Hi(p));
    WithoutMinSound(t.right, t.n, Hi(p));
    OrderedPathPages(p);
    OrderedPages(t.left, Lo(p), t.n);
    PlugPages(p, Node(t.left, t.n, t.color, WithoutMin(t.right)));
  }

  /** Below a path, or with the same root, subtrees make no difference to the root. */
  lemma {:induction false} PlugRoot(p: Path, t: Tree, u: Tree)
    ensures p.Step? || Root(t) == Root(u) ==> Root(Plug(p, t)) == Root(Plug(p, u))
    decreases p
  {
    if p.Step? {
      PlugRoot(p.up, Join(p.side, t, p.n, p.color, p.other), Join(p.side, u, p.n, p.color, p.other));
    }
  }

  lemma RotationPages(p: Path, t: Tree, side: Side)
    requires t.Node? && Child(t, side.Other()).Node?
    ensures Pages(Plug(p, Rotate(t, side))) == Pages(Plug(p, t))
  {
    PlugPages(p, t);
    PlugPages(p, Rotate(t, side));
  }
}
