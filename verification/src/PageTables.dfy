/** How a red-black tree lies in memory: the node of page `n` is written into page `n` itself, and links are page
    numbers. The lemmas say what single stores into such nodes do to the tree that they represent. */
module PageTables {
  import opened Options
  import opened Trees

  type Link = Option<nat>

  datatype PageNode = PageNode(n: nat, parent: Link, left: Link, right: Link, color: Color)

  /** The pages that hold a node, with the node. */
  type Table = map<nat, PageNode>

  /** Physical memory, shared by all page trees. */
  class Memory {
    var node: Table

    constructor ()
      ensures node == map[]
    {
      node := map[];
    }
  }

  function Root(t: Tree): Link {
    if t.Leaf? then None else Some(t.n)
  }

  /** The page from which the subtree below `p` hangs. */
  function Above(p: Path): Link {
    if p == Top then None else Some(p.n)
  }

  ghost predicate Stored(m: Table, t: Tree, parent: Link) {
    t.Node? ==>
      && t.n in m && m[t.n] == PageNode(t.n, parent, Root(t.left), Root(t.right), t.color)
      && Stored(m, t.left, Some(t.n)) && Stored(m, t.right, Some(t.n))
  }

  /** The nodes of `p` are in memory, with `child` as the root of the subtree below. */
  ghost predicate StoredPath(m: Table, p: Path, child: Link) {
    p.Step? ==>
      && p.n in m
      && m[p.n] == PageNode(p.n, Above(p.up), if p.side == Left then child else Root(p.other),
                            if p.side == Left then Root(p.other) else child, p.color)
      && Stored(m, p.other, Some(p.n)) && StoredPath(m, p.up, Some(p.n))
  }

  /** The two tables agree on all pages outside `s`. */
  ghost predicate SameOutside(m: Table, m': Table, s: set<nat>) {
    forall k :: k !in s ==> (k in m <==> k in m') && (k in m ==> m'[k] == m[k])
  }

  /** The tables agree on all pages of `s`. */
  ghost predicate SameOn(m: Table, m': Table, s: set<nat>) {
    forall k :: k in s && k in m ==> k in m' && m'[k] == m[k]
  }

  lemma SameOutsideTrans(m: Table, m': Table, m'': Table, s: set<nat>, s': set<nat>, t: set<nat>)
    requires SameOutside(m, m', s) && SameOutside(m', m'', s') && s <= t && s' <= t
    ensures SameOutside(m, m'', t)
  {
  }

  lemma {:induction false} Open(m: Table, p: Path, t: Tree)
    ensures Stored(m, Plug(p, t), None) <==> StoredPath(m, p, Root(t)) && Stored(m, t, Above(p))
    decreases p
  {
    match p
    case Top =>
    case Step(up, side, n, c, o) => Open(m, up, Join(side, t, n, c, o));
  }

  // Frames

  lemma StoredFrame(m: Table, m': Table, t: Tree, parent: Link)
    requires Stored(m, t, parent) && SameOn(m, m', Pages(t))
    ensures Stored(m', t, parent)
  {
    if t.Node? {
      StoredFrame(m, m', t.left, Some(t.n));
      StoredFrame(m, m', t.right, Some(t.n));
    }
  }

  lemma {:induction false} StoredPathFrame(m: Table, m': Table, p: Path, child: Link)
    requires StoredPath(m, p, child) && SameOn(m, m', PathPages(p))
    ensures StoredPath(m', p, child)
  {
    if p.Step? {
      StoredPathFrame(m, m', p.up, Some(p.n));
      StoredFrame(m, m', p.other, Some(p.n));
    }
  }

  lemma StoredPages(m: Table, t: Tree, parent: Link)
    requires Stored(m, t, parent)
    ensures forall k :: k in Pages(t) ==> k in m && m[k].n == k
  {
    if t.Node? {
      StoredPages(m, t.left, Some(t.n));
      StoredPages(m, t.right, Some(t.n));
    }
  }

  /** Writing the parent link of a subtree's root hangs the subtree there. */
  lemma {:induction false} Reparent(m: Table, m': Table, t: Tree, parent: Link, parent': Link, lo: int, hi: int)
    requires Stored(m, t, parent) && Ordered(t, lo, hi)
    requires t.Node? ==> t.n in m' && m'[t.n] == m[t.n].(parent := parent')
    requires SameOn(m, m', Pages(t) - if t.Node? then {t.n} else {})
    ensures Stored(m', t, parent')
  {
    if t.Node? {
      OrderedPages(t.left, lo, t.n);
      OrderedPages(t.right, t.n, hi);
      StoredFrame(m, m', t.left, Some(t.n));
      StoredFrame(m, m', t.right, Some(t.n));
    }
  }

  /** Writing the child link of a path's last node hangs another subtree below the path. */
  lemma {:induction false} Relink(m: Table, m': Table, p: Path, child: Link, child': Link)
    requires StoredPath(m, p, child) && PathOrdered(p)
    requires p.Step? ==> (
        && p.n in m'
        && m'[p.n] == if p.side == Left then m[p.n].(left := child') else m[p.n].(right := child'))
    requires SameOn(m, m', PathPages(p) - if p.Step? then {p.n} else {})
    ensures StoredPath(m', p, child')
  {
    if p.Step? {
      OrderedPathPages(p.up);
      if p.side == Left { OrderedPages(p.other, p.n, Hi(p.up)); } else { OrderedPages(p.other, Lo(p.up), p.n); }
      StoredPathFrame(m, m', p.up, Some(p.n));
      StoredFrame(m, m', p.other, Some(p.n));
    }
  }

  // Single operations

  /** A stored, ordered tree seen at one of its subtrees. */
  ghost predicate Focus(m: Table, p: Path, t: Tree) {
    && StoredPath(m, p, Root(t)) && Stored(m, t, Above(p))
    && PathOrdered(p) && Ordered(t, Lo(p), Hi(p))
  }

  lemma FocusIffStored(m: Table, p: Path, t: Tree)
    ensures Focus(m, p, t) <==> Stored(m, Plug(p, t), None) && SearchOrdered(Plug(p, t))
  {
    Open(m, p, t);
    PlugOrdered(p, t);
  }

  /** No page is on the path and in the subtree at once. */
  lemma FocusApart(m: Table, p: Path, t: Tree)
    requires Focus(m, p, t)
    ensures PathPages(p) !! Pages(t)
  {
    OrderedPathPages(p);
    OrderedPages(t, Lo(p), Hi(p));
  }

  lemma PaintFocus(m: Table, p: Path, t: Tree, c: Color)
    requires Focus(m, p, t) && t.Node?
    ensures Focus(m[t.n := m[t.n].(color := c)], p, t.(color := c))
  {
    var m' := m[t.n := m[t.n].(color := c)];
    FocusApart(m, p, t);
    OrderedPages(t.left, Lo(p), t.n);
    OrderedPages(t.right, t.n, Hi(p));
    StoredPathFrame(m, m', p, Root(t));
    StoredFrame(m, m', t.left, Some(t.n));
    StoredFrame(m, m', t.right, Some(t.n));
  }

  /** The child on side `side.Other()` of `t` comes up, and `t` goes down on side `side`. */
  function Rotate(t: Tree, side: Side): Tree
    requires t.Node? && Child(t, side.Other()).Node?
  {
    var b := Child(t, side.Other());
    Join(side, Join(side, Child(t, side), t.n, t.color, Child(b, side)), b.n, b.color, Child(b, side.Other()))
  }

  function ChildLink(x: PageNode, side: Side): Link {
    if side == Left then x.left else x.right
  }

  function WithChild(x: PageNode, side: Side, l: Link): PageNode {
    if side == Left then x.(left := l) else x.(right := l)
  }

  /** The nodes that a rotation of page `a` towards `side` looks at exist. */
  predicate CanRotate(m: Table, a: nat, side: Side) {
    && a in m && (m[a].parent.Some? ==> m[a].parent.value in m)
    && ChildLink(m[a], side.Other()).Some? && ChildLink(m[a], side.Other()).value in m - {a}
    && var mid := ChildLink(m[ChildLink(m[a], side.Other()).value], side);
      mid != Some(a) && (mid.Some? ==> mid.value in m)
  }

  /** What a rotation of page `a` towards `side` writes, store by store. */
  function Rotated(m: Table, a: nat, side: Side): Table
    requires CanRotate(m, a, side)
  {
    var b := ChildLink(m[a], side.Other()).value;
    var mid := ChildLink(m[b], side);
    var m1 := m[a := WithChild(m[a], side.Other(), mid)];
    var m2 := if mid.Some? then m1[mid.value := m1[mid.value].(parent := Some(a))] else m1;
    var m3 := m2[b := m2[b].(parent := m2[a].parent)];
    var up := m3[a].parent;
    var m4 := if up.None? then m3
      else if Some(a) == m3[up.value].left then m3[up.value := m3[up.value].(left := Some(b))]
      else m3[up.value := m3[up.value].(right := Some(b))];
    var m5 := m4[b := WithChild(m4[b], side, Some(a))];
    m5[a := m5[a].(parent := Some(b))]
  }

  /** The pages that a rotation touches are different from each other. */
  lemma RotationApart(p: Path, t: Tree, side: Side)
    requires PathOrdered(p) && Ordered(t, Lo(p), Hi(p)) && t.Node? && Child(t, side.Other()).Node?
    ensures var b := Child(t, side.Other()); var mid := Child(b, side);
      && t.n != b.n && t.n in Pages(t) && b.n in Pages(t)
      && (mid.Node? ==> mid.n != t.n && mid.n != b.n && mid.n in Pages(t))
      && (p.Step? ==> p.n != t.n && p.n != b.n)
      && (p.Step? && mid.Node? ==> mid.n != p.n)
      && (p.Step? && p.side == Right && p.other.Node? ==> p.other.n != t.n)
  {
    var b := Child(t, side.Other());
    var mid := Child(b, side);
    assert Pages(mid) <= Pages(b) <= Pages(t);
    if side == Left {
      assert Ordered(b, t.n, Hi(p)) && Ordered(mid, t.n, b.n);
    } else {
      assert Ordered(b, Lo(p), t.n) && Ordered(mid, b.n, t.n);
    }
  }

  /** The table after a rotation, node by node. */
  lemma RotatedNodes(m: Table, a: nat, side: Side)
    requires CanRotate(m, a, side)
    requires var b := ChildLink(m[a], side.Other()).value; var mid := ChildLink(m[b], side); var up := m[a].parent;
      mid != Some(b) && up != Some(a) && up != Some(b) && (up.Some? ==> up != mid)
    ensures var b := ChildLink(m[a], side.Other()).value; var mid := ChildLink(m[b], side); var up := m[a].parent;
      var m' := Rotated(m, a, side);
      && m'.Keys == m.Keys
      && m'[a] == WithChild(m[a], side.Other(), mid).(parent := Some(b))
      && m'[b] == WithChild(m[b], side, Some(a)).(parent := up)
      && (mid.Some? ==> m'[mid.value] == m[mid.value].(parent := Some(a)))
      && (up.Some? ==> m'[up.value] == WithChild(m[up.value], if m[up.value].left == Some(a) then Left else Right, Some(b)))
      && forall k :: k in m && k != a && k != b && Some(k) != mid && Some(k) != up ==> m'[k] == m[k]
  {
  }

  /** A rotation of the root of `t` rotates the represented subtree and touches only pages of the tree. */
  lemma {:induction false} RotateFocus(m: Table, p: Path, t: Tree, side: Side)
    requires Focus(m, p, t) && t.Node? && Child(t, side.Other()).Node?
    ensures CanRotate(m, t.n, side) && ChildLink(m[t.n], side.Other()) == Root(Child(t, side.Other()))
    ensures m[t.n].parent == Above(p)
    ensures Focus(Rotated(m, t.n, side), p, Rotate(t, side))
    ensures SameOutside(m, Rotated(m, t.n, side), PathPages(p) + Pages(t))
  {
    var b := Child(t, side.Other());
    assert Stored(m, b, Some(t.n));
    var mid, far := Child(b, side), Child(b, side.Other());
    assert Stored(m, mid, Some(b.n));
    RotationApart(p, t, side);
    RotatedNodes(m, t.n, side);
    RotatedPieces(m, Rotated(m, t.n, side), p, t, side);
  }

  lemma {:induction false} RotatedPieces(m: Table, m': Table, p: Path, t: Tree, side: Side)
    requires Focus(m, p, t) && t.Node? && Child(t, side.Other()).Node?
    requires var b := Child(t, side.Other()); var mid := Child(b, side);
      && m'.Keys == m.Keys && t.n in m && b.n in m && (mid.Node? ==> mid.n in m) && (p.Step? ==> p.n in m)
      && m'[t.n] == WithChild(m[t.n], side.Other(), Root(mid)).(parent := Some(b.n))
      && m'[b.n] == WithChild(m[b.n], side, Some(t.n)).(parent := Above(p))
      && (mid.Node? ==> m'[mid.n] == m[mid.n].(parent := Some(t.n)))
      && (p.Step? ==> m'[p.n] == WithChild(m[p.n], p.side, Some(b.n)))
      && forall k :: k in m && k != t.n && k != b.n && Some(k) != Root(mid) && Some(k) != Above(p) ==> m'[k] == m[k]
    ensures Focus(m', p, Rotate(t, side))
  {
    var b := Child(t, side.Other());
    var mid, far := Child(b, side), Child(b, side.Other());
    FocusApart(m, p, t);
    assert Ordered(t.left, Lo(p), t.n) && Ordered(t.right, t.n, Hi(p));
    OrderedPages(t.left, Lo(p), t.n);
    OrderedPages(t.right, t.n, Hi(p));
    var lo, hi := if side == Left then t.n else b.n, if side == Left then b.n else t.n;
    OrderedPages(mid, lo, hi);
    OrderedPages(far, if side == Left then b.n else Lo(p), if side == Left then Hi(p) else b.n);
    assert Stored(m, b, Some(t.n));
    Relink(m, m', p, Some(t.n), Some(b.n));
    Reparent(m, m', mid, Some(b.n), Some(t.n), lo, hi);
    StoredFrame(m, m', Child(t, side), Some(t.n));
    StoredFrame(m, m', far, Some(b.n));
    RotatedOrder(p, t, side);
  }

  lemma RotatedOrder(p: Path, t: Tree, side: Side)
    requires Ordered(t, Lo(p), Hi(p)) && t.Node? && Child(t, side.Other()).Node?
    ensures Ordered(Rotate(t, side), Lo(p), Hi(p))
  {
  }

  /** What `transplant` does to the table: the page `a` gives its place to `b`. */
  function Transplanted(m: Table, a: nat, b: Link): Table
    requires a in m && (m[a].parent.Some? ==> m[a].parent.value in m) && (b.Some? ==> b.value in m)
  {
    var up := m[a].parent;
    var m1 := if up.None? then m
      else if m[up.value].left == Some(a) then m[up.value := m[up.value].(left := b)]
      else m[up.value := m[up.value].(right := b)];
    if b.None? then m1 else m1[b.value := m1[b.value].(parent := up)]
  }

  /** The nodes that a transplant writes. */
  lemma TransplantedNodes(m: Table, a: nat, b: Link)
    requires a in m && (m[a].parent.Some? ==> m[a].parent.value in m) && (b.Some? ==> b.value in m)
    requires m[a].parent.None? || m[a].parent != b
    ensures var (m', up) := (Transplanted(m, a, b), m[a].parent);
      && m'.Keys == m.Keys
      && (forall k :: k in m && Some(k) != up && Some(k) != b ==> m'[k] == m[k])
      && (up.Some? ==> (
            m'[up.value] == if m[up.value].left == Some(a) then m[up.value].(left := b) else m[up.value].(right := b)))
      && (b.Some? ==> m'[b.value] == m[b.value].(parent := up))
  {
  }

  /** A transplant hangs the stored tree `u` below the path, wherever `u` hung before. */
  lemma TransplantFocus(m: Table, p: Path, a: nat, u: Tree, parent: Link)
    requires StoredPath(m, p, Some(a)) && PathOrdered(p) && a in m && m[a].parent == Above(p)
    requires a !in PathPages(p) && Lo(p) < a < Hi(p)
    requires Stored(m, u, parent) && Ordered(u, Lo(p), Hi(p)) && a !in Pages(u)
    ensures p.Step? ==> p.n in m
    ensures Focus(Transplanted(m, a, Root(u)), p, u)
    ensures SameOutside(m, Transplanted(m, a, Root(u)),
                        (if p.Step? then {p.n} else {}) + (if u.Node? then {u.n} else {}))
  {
    var m' := Transplanted(m, a, Root(u));
    assert PathPages(p) !! Pages(u) by {
      OrderedPathPages(p);
      OrderedPages(u, Lo(p), Hi(p));
    }
    TransplantSide(m, p, a);
    TransplantedNodes(m, a, Root(u));
    Relink(m, m', p, Some(a), Root(u));
    Reparent(m, m', u, parent, Above(p), Lo(p), Hi(p));
  }

  /** The test of the code finds the side of the path. */
  lemma TransplantSide(m: Table, p: Path, a: nat)
    requires StoredPath(m, p, Some(a)) && PathOrdered(p) && a !in PathPages(p) && Lo(p) < a < Hi(p)
    ensures p.Step? ==> p.n in m && (m[p.n].left == Some(a) <==> p.side == Left)
  {
    if p.Step? && p.side == Right {
      OrderedPages(p.other, Lo(p.up), p.n);
    }
  }

  /** The page `b`, with `r` below its right, takes the place of page `n`, which had `l` below its left. */
  ghost predicate ReadyToReplace(m: Table, p: Path, n: nat, l: Tree, c: Color, b: nat, r: Tree) {
    && StoredPath(m, p, Some(n)) && PathOrdered(p)
    && n in m && m[n].parent == Above(p) && m[n].left == Root(l) && m[n].color == c
    && Stored(m, l, Some(n)) && Ordered(l, Lo(p), n)
    && Lo(p) < n < b < Hi(p)
    && b in m && Stored(m, Node(Leaf, b, m[b].color, r), m[b].parent) && Ordered(r, b, Hi(p))
  }

  function Replaced(m: Table, n: nat, b: nat): Table
    requires n in m && b in m && (m[n].parent.Some? ==> m[n].parent.value in m)
    requires m[n].left.Some? ==> m[n].left.value in m
  {
    var m1 := Transplanted(m, n, Some(b));
    var m2 := m1[b := m1[b].(left := m1[n].left, color := m1[n].color)];
    if m2[b].left.None? then m2 else m2[m2[b].left.value := m2[m2[b].left.value].(parent := Some(b))]
  }

  lemma ReplaceFocus(m: Table, p: Path, n: nat, l: Tree, c: Color, b: nat, r: Tree)
    requires ReadyToReplace(m, p, n, l, c, b, r)
    ensures (p.Step? ==> p.n in m) && (l.Node? ==> l.n in m)
    ensures Focus(Replaced(m, n, b), p, Node(l, b, c, r))
    ensures SameOutside(m, Replaced(m, n, b), PathPages(p) + Pages(l) + {b})
  {
    var u := Node(Leaf, b, m[b].color, r);
    OrderedPathPages(p);
    OrderedPages(l, Lo(p), n);
    OrderedPages(r, b, Hi(p));
    TransplantFocus(m, p, n, u, m[b].parent);
    var m1 := Transplanted(m, n, Some(b));
    StoredFrame(m, m1, l, Some(n));
    var m' := Replaced(m, n, b);
    StoredPathFrame(m1, m', p, Some(b));
    StoredFrame(m1, m', r, Some(b));
    Reparent(m1, m', l, Some(n), Some(b), Lo(p), n);
    OrderedWiden(l, Lo(p), n, Lo(p), b);
  }
}
