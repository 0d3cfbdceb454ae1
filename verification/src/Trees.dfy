/** Functional red-black trees over page numbers, with a zipper for the path from a subtree up to the root.
    The page tree of `PageTrees` stores such a tree in memory; the results about shape and colour live here
    and in `TreeInsert` and `TreeDelete`. */
module Trees {
  import opened Bits

  /** Page numbers are below 2^52: a page number times the page size is a 64-bit address. */
  const PAGE_LIMIT: nat := 0x10_0000_0000_0000

  datatype Color = Red | Black

  datatype Tree = Leaf | Node(left: Tree, n: nat, color: Color, right: Tree)

  datatype Side = Left | Right {
    function Other(): Side {
      if this == Left then Right else Left
    }
  }

  /** The way from a subtree to the root, innermost step first: the subtree hangs on side `side` of page `n`,
      whose other child is `other`. */
  datatype Path = Top | Step(up: Path, side: Side, n: nat, color: Color, other: Tree)

  /** The node `n` with `x` on side `side` and `y` on the other. */
  function Join(side: Side, x: Tree, n: nat, c: Color, y: Tree): Tree {
    if side == Left then Node(x, n, c, y) else Node(y, n, c, x)
  }

  function Child(t: Tree, side: Side): Tree
    requires t.Node?
  {
    if side == Left then t.left else t.right
  }

  function Plug(p: Path, t: Tree): Tree
    decreases p
  {
    match p
    case Top => t
    case Step(up, side, n, c, o) => Plug(up, Join(side, t, n, c, o))
  }

  function Depth(p: Path): nat {
    match p
    case Top => 0
    case Step(up, _, _, _, _) => 1 + Depth(up)
  }

  // Contents

  function Pages(t: Tree): set<nat> {
    match t
    case Leaf => {}
    case Node(l, n, _, r) => Pages(l) + {n} + Pages(r)
  }

  function PathPages(p: Path): set<nat> {
    match p
    case Top => {}
    case Step(up, _, n, _, o) => PathPages(up) + {n} + Pages(o)
  }

  function Inorder(t: Tree): seq<nat> {
    match t
    case Leaf => []
    case Node(l, n, _, r) => Inorder(l) + [n] + Inorder(r)
  }

  function Size(t: Tree): nat {
    match t
    case Leaf => 0
    case Node(l, _, _, r) => Size(l) + 1 + Size(r)
  }

  lemma {:induction false} PlugPages(p: Path, t: Tree)
    ensures Pages(Plug(p, t)) == PathPages(p) + Pages(t)
    decreases p
  {
    match p
    case Top =>
    case Step(up, side, n, c, o) => PlugPages(up, Join(side, t, n, c, o));
  }

  // Search order

  /** Every page of `t` lies strictly between `lo` and `hi`, in search order. */
  ghost predicate Ordered(t: Tree, lo: int, hi: int) {
    t.Node? ==> lo < t.n < hi && Ordered(t.left, lo, t.n) && Ordered(t.right, t.n, hi)
  }

  /** The open interval of pages that may stand below a path. */
  function Lo(p: Path): int {
    match p
    case Top => 0
    case Step(up, side, n, _, _) => if side == Left then Lo(up) else n
  }

  function Hi(p: Path): int {
    match p
    case Top => PAGE_LIMIT
    case Step(up, side, n, _, _) => if side == Left then n else Hi(up)
  }

  ghost predicate PathOrdered(p: Path) {
    match p
    case Top => true
    case Step(up, side, n, _, o) =>
      && Lo(up) < n < Hi(up)
      && (if side == Left then Ordered(o, n, Hi(up)) else Ordered(o, Lo(up), n))
      && PathOrdered(up)
  }

  ghost predicate SearchOrdered(t: Tree) {
    Ordered(t, 0, PAGE_LIMIT)
  }

  lemma {:induction false} PlugOrdered(p: Path, t: Tree)
    ensures SearchOrdered(Plug(p, t)) <==> PathOrdered(p) && Ordered(t, Lo(p), Hi(p))
    decreases p
  {
    match p
    case Top =>
    case Step(up, side, n, c, o) => PlugOrdered(up, Join(side, t, n, c, o));
  }

  lemma OrderedPages(t: Tree, lo: int, hi: int)
    requires Ordered(t, lo, hi)
    ensures forall k :: k in Pages(t) ==> lo < k < hi
  {
    if t.Node? {
      OrderedPages(t.left, lo, t.n);
      OrderedPages(t.right, t.n, hi);
    }
  }

  lemma {:induction false} OrderedPathPages(p: Path)
    requires PathOrdered(p)
    ensures 0 <= Lo(p) && Hi(p) <= PAGE_LIMIT
    ensures forall k :: k in PathPages(p) ==> 0 < k < PAGE_LIMIT && (k <= Lo(p) || Hi(p) <= k)
  {
    match p
    case Top =>
    case Step(up, side, n, _, o) =>
      OrderedPathPages(up);
      if side == Left { OrderedPages(o, n, Hi(up)); } else { OrderedPages(o, Lo(up), n); }
  }

  /** Wider bounds hold a fortiori. */
  lemma OrderedWiden(t: Tree, lo: int, hi: int, lo': int, hi': int)
    requires Ordered(t, lo, hi) && lo' <= lo && hi <= hi'
    ensures Ordered(t, lo', hi')
  {
    if t.Node? {
      OrderedWiden(t.left, lo, t.n, lo', t.n);
      OrderedWiden(t.right, t.n, hi, t.n, hi');
    }
  }

  ghost predicate Ascending(s: seq<nat>) {
    forall i, j :: 0 <= i < j < |s| ==> s[i] < s[j]
  }

  lemma {:induction false} InorderPages(t: Tree)
    ensures forall k :: k in Inorder(t) <==> k in Pages(t)
    ensures |Inorder(t)| == Size(t)
  {
    if t.Node? {
      InorderPages(t.left);
      InorderPages(t.right);
    }
  }

  lemma {:induction false} InorderAscending(t: Tree, lo: int, hi: int)
    requires Ordered(t, lo, hi)
    ensures Ascending(Inorder(t))
    ensures forall k :: k in Inorder(t) ==> lo < k < hi
  {
    if t.Node? {
      InorderAscending(t.left, lo, t.n);
      InorderAscending(t.right, t.n, hi);
      var a, b := Inorder(t.left), Inorder(t.right);
      forall i | 0 <= i < |a|
        ensures a[i] < t.n
      {
        assert a[i] in a;
      }
      forall i | 0 <= i < |b|
        ensures t.n < b[i]
      {
        assert b[i] in b;
      }
      assert Inorder(t) == a + [t.n] + b;
    }
  }

  lemma {:induction false} SizePages(t: Tree, lo: int, hi: int)
    requires Ordered(t, lo, hi)
    ensures |Pages(t)| == Size(t)
  {
    if t.Node? {
      SizePages(t.left, lo, t.n);
      SizePages(t.right, t.n, hi);
      OrderedPages(t.left, lo, t.n);
      OrderedPages(t.right, t.n, hi);
      assert Pages(t.left) !! {t.n};
      assert Pages(t.left) + {t.n} !! Pages(t.right);
    }
  }

  // Colours

  predicate IsRed(t: Tree) {
    t.Node? && t.color == Red
  }

  function Blacken(t: Tree): Tree {
    if t.Node? then t.(color := Black) else t
  }

  /** No red node has a red child. */
  predicate NoRedRed(t: Tree) {
    t.Node? ==>
      && (t.color == Red ==> !IsRed(t.left) && !IsRed(t.right))
      && NoRedRed(t.left) && NoRedRed(t.right)
  }

  /** The colour part of the tree's invariant that every operation keeps. */
  predicate Colored(t: Tree) {
    !IsRed(t) && NoRedRed(t)
  }

  predicate EndsRed(p: Path) {
    p.Step? && p.color == Red
  }

  predicate PathNoRedRed(p: Path) {
    match p
    case Top => true
    case Step(up, _, _, c, o) => (c == Red ==> !IsRed(o) && !EndsRed(up)) && NoRedRed(o) && PathNoRedRed(up)
  }

  /** The root of any tree plugged into `p` is black, unless `p` is empty. */
  predicate TopBlack(p: Path) {
    p.Step? ==> if p.up == Top then p.color == Black else TopBlack(p.up)
  }

  lemma {:induction false} PlugNoRedRed(p: Path, t: Tree)
    ensures NoRedRed(Plug(p, t)) <==> PathNoRedRed(p) && NoRedRed(t) && !(EndsRed(p) && IsRed(t))
    decreases p
  {
    match p
    case Top =>
    case Step(up, side, n, c, o) => PlugNoRedRed(up, Join(side, t, n, c, o));
  }

  lemma {:induction false} PlugTopBlack(p: Path, t: Tree)
    ensures p.Step? ==> (Plug(p, t).Node? && (!IsRed(Plug(p, t)) <==> TopBlack(p)))
    decreases p
  {
    if p.Step? {
      PlugTopBlack(p.up, Join(p.side, t, p.n, p.color, p.other));
    }
  }

  // Black height

  function BlackHeight(t: Tree): nat {
    if t.Leaf? then 0 else BlackHeight(t.left) + if t.color == Black then 1 else 0
  }

  /** Every way down passes the same number of black nodes. */
  predicate Balanced(t: Tree) {
    t.Node? ==> Balanced(t.left) && Balanced(t.right) && BlackHeight(t.left) == BlackHeight(t.right)
  }

  /** `p` is balanced around a subtree of black height `h`. */
  predicate PathBalanced(p: Path, h: nat) {
    match p
    case Top => true
    case Step(up, _, _, c, o) =>
      Balanced(o) && BlackHeight(o) == h && PathBalanced(up, h + if c == Black then 1 else 0)
  }

  lemma {:induction false} PlugBalanced(p: Path, t: Tree)
    ensures Balanced(Plug(p, t)) <==> Balanced(t) && PathBalanced(p, BlackHeight(t))
    decreases p
  {
    match p
    case Top =>
    case Step(up, side, n, c, o) => PlugBalanced(up, Join(side, t, n, c, o));
  }

  predicate RedBlack(t: Tree) {
    Colored(t) && Balanced(t)
  }

  lemma BlackenKeeps(t: Tree, lo: int, hi: int)
    ensures Pages(Blacken(t)) == Pages(t)
    ensures Ordered(Blacken(t), lo, hi) <==> Ordered(t, lo, hi)
    ensures Balanced(Blacken(t)) <==> Balanced(t)
    ensures NoRedRed(t) ==> NoRedRed(Blacken(t))
  {
  }

  function Height(t: Tree): nat {
    if t.Leaf? then 0 else 1 + if Height(t.left) > Height(t.right) then Height(t.left) else Height(t.right)
  }

  lemma {:induction false} HeightBelowBlackHeight(t: Tree)
    requires NoRedRed(t) && Balanced(t)
    ensures Height(t) <= 2 * BlackHeight(t) + if IsRed(t) then 1 else 0
    ensures Pow2(BlackHeight(t)) <= Size(t) + 1
  {
    if t.Node? {
      HeightBelowBlackHeight(t.left);
      HeightBelowBlackHeight(t.right);
    }
  }

  /** A red-black tree of `m` pages with longest path `h` has 2^ceil(h/2) <= m + 1. */
  lemma {:induction false} HeightBound(t: Tree)
    requires RedBlack(t)
    ensures Pow2((Height(t) + 1) / 2) <= Size(t) + 1
  {
    HeightBelowBlackHeight(t);
    Pow2Mono((Height(t) + 1) / 2, BlackHeight(t));
  }
}
