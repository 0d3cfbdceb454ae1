/** The debugging traversal of a page tree, with its fixed-size stack, output vector and map of visited nodes. */
module PageTraverse {
  import opened Options
  import opened Trees
  import opened PageTables
  import opened PageTrees

  const CAPACITY := 1024

  /** The stack, top first: a subtree, and whether its left child was pushed above it. */
  datatype Frames = Empty | Frame(t: Tree, leftPushed: bool, below: Frames)

  ghost function FrameRest(t: Tree, leftPushed: bool): seq<nat> {
    if t.Node? && leftPushed then [t.n] + Inorder(t.right) else Inorder(t)
  }

  /** The pages still to be put out. */
  ghost function Rest(f: Frames): seq<nat> {
    match f
    case Empty => []
    case Frame(t, leftPushed, below) => FrameRest(t, leftPushed) + Rest(below)
  }

  ghost function Links(f: Frames): seq<Link> {
    match f
    case Empty => []
    case Frame(t, _, below) => Links(below) + [Root(t)]
  }

  /** The work left in subtrees whose left child has not been pushed. */
  ghost function Unpushed(f: Frames): nat {
    match f
    case Empty => 0
    case Frame(t, leftPushed, below) => (if leftPushed then 0 else Size(t)) + Unpushed(below)
  }

  ghost function Elements(s: seq<nat>): set<nat> {
    set k | k in s
  }

  /** Every frame is a stored subtree, and a left child that was pushed is in `before`, put out already or to be put
      out by the frames above. */
  ghost predicate FramesOk(m: Table, f: Frames, before: set<nat>) {
    match f
    case Empty => true
    case Frame(t, leftPushed, below) =>
      && t.Node? && t.n in m && Stored(m, t, m[t.n].parent)
      && (leftPushed && t.left.Node? ==> t.left.n in before)
      && FramesOk(m, below, before + Elements(FrameRest(t, leftPushed)))
  }

  lemma FewerFrames(m: Table, f: Frames, before: set<nat>)
    requires FramesOk(m, f, before)
    ensures |Links(f)| <= |Rest(f)|
  {
    if f.Frame? {
      FewerFrames(m, f.below, before + Elements(FrameRest(f.t, f.leftPushed)));
    }
  }

  /** The frame `t` goes down one step, its left child above it; nothing changes in what is to be put out. */
  lemma PushLeft(m: Table, f: Frames, before: set<nat>)
    requires f.Frame? && !f.leftPushed && FramesOk(m, f, before) && f.t.left.Node?
    ensures var f' := Frame(f.t.left, false, Frame(f.t, true, f.below));
      FramesOk(m, f', before) && Rest(f') == Rest(f) && Unpushed(f') < Unpushed(f)
      && Links(f') == Links(f) + [Root(f.t.left)]
  {
    var t, l := f.t, f.t.left;
    var f' := Frame(l, false, Frame(t, true, f.below));
    assert l.n in Inorder(l);
    assert Stored(m, l, Some(t.n));
    assert before + Elements(Inorder(l)) + Elements([t.n] + Inorder(t.right)) == before + Elements(Inorder(t)) by {
      assert Inorder(t) == Inorder(l) + ([t.n] + Inorder(t.right));
    }
    assert Rest(f') == Inorder(l) + (([t.n] + Inorder(t.right)) + Rest(f.below));
    assert Rest(f) == (Inorder(l) + [t.n] + Inorder(t.right)) + Rest(f.below);
    assert Rest(f') == Rest(f);
  }

  function Next(f: Frames): Frames
    requires f.Frame? && f.t.Node?
  {
    if f.t.right.Node? then Frame(f.t.right, false, f.below) else f.below
  }

  /** The root of the top frame is put out and its right child takes its place. */
  lemma PutOut(m: Table, items: seq<nat>, f: Frames)
    requires f.Frame? && FramesOk(m, f, Elements(items)) && (f.leftPushed || f.t.left.Leaf?)
    ensures var items' := items + [f.t.n];
      FramesOk(m, Next(f), Elements(items')) && items' + Rest(Next(f)) == items + Rest(f) && Rest(f) != []
      && Elements(items') == Elements(items) + {f.t.n}
  {
    var t := f.t;
    FrameRestSplit(t, f.leftPushed);
    ElementsMove(items, t.n, Inorder(t.right));
    RestMove(items, t.n, Inorder(t.right), Rest(f.below));
    if t.right.Node? {
      assert Stored(m, t.right, Some(t.n));
    } else {
      assert Inorder(t.right) + Rest(f.below) == Rest(f.below);
    }
  }

  lemma ElementsMove(items: seq<nat>, n: nat, s: seq<nat>)
    ensures Elements(items + [n]) == Elements(items) + {n}
    ensures Elements(items + [n]) + Elements(s) == Elements(items) + Elements([n] + s)
    ensures s == [] ==> Elements(items + [n]) == Elements(items) + Elements([n] + s)
  {
    assert Elements([n] + s) == {n} + Elements(s);
  }

  lemma RestMove(items: seq<nat>, n: nat, s: seq<nat>, r: seq<nat>)
    ensures items + [n] + (s + r) == items + (([n] + s) + r)
  {
  }

  lemma FrameRestSplit(t: Tree, leftPushed: bool)
    requires t.Node? && (leftPushed || t.left.Leaf?)
    ensures FrameRest(t, leftPushed) == [t.n] + Inorder(t.right)
  {
    if !leftPushed {
      assert Inorder(t.left) == [];
      assert [] + [t.n] + Inorder(t.right) == [t.n] + Inorder(t.right);
    }
  }

  lemma AscendingParts(a: seq<nat>, b: seq<nat>)
    requires Ascending(a + b)
    ensures forall x, y :: x in a && y in b ==> x < y
  {
    forall x, y | x in a && y in b
      ensures x < y
    {
      var i :| 0 <= i < |a| && a[i] == x;
      var j :| 0 <= j < |b| && b[j] == y;
      assert (a + b)[i] == x && (a + b)[|a| + j] == y;
    }
  }

  /** The map of visited nodes tells which left children were pushed. */
  lemma VisitedIffPushed(m: Table, items: seq<nat>, f: Frames)
    requires f.Frame? && FramesOk(m, f, Elements(items)) && Ascending(items + Rest(f))
    ensures f.t.left.Node? ==> (f.t.left.n in items <==> f.leftPushed)
  {
    AscendingParts(items, Rest(f));
    if f.t.left.Node? {
      assert f.t.left.n in Inorder(f.t.left);
      assert !f.leftPushed ==> f.t.left.n in Inorder(f.t) && f.t.left.n in Rest(f);
    }
  }

  lemma ElementsSize(s: seq<nat>)
    ensures |Elements(s)| <= |s|
  {
    if s == [] {
      assert Elements(s) == {};
    } else {
      ElementsSize(s[1..]);
      assert Elements(s) == {s[0]} + Elements(s[1..]);
    }
  }

  method Traverse(pt: PageTree) returns (ok: bool, items: seq<nat>)
    requires pt.Linked()
    ensures ok <==> Size(pt.tree) <= CAPACITY
    ensures ok ==> items == Inorder(pt.tree) && Ascending(items) && forall k :: k in items <==> k in Pages(pt.tree)
  {
    ghost var m, all := pt.mem.node, Inorder(pt.tree);
    InorderAscending(pt.tree, 0, PAGE_LIMIT);
    InorderPages(pt.tree);
    StoredPages(m, pt.tree, None);
    var stack: seq<Link>, visited: set<nat> := [], {};
    items := [];
    ghost var f := Empty;
    if pt.root.Some? {
      stack := [pt.root];
      f := Frame(pt.tree, false, Empty);
    }
    while stack != []
      invariant stack == Links(f) && visited == Elements(items)
      invariant FramesOk(m, f, Elements(items)) && items + Rest(f) == all
      invariant |items| <= CAPACITY
      decreases |Rest(f)|, Unpushed(f)
    {
      var link := stack[|stack| - 1];
      stack := stack[..|stack| - 1];
      ghost var t := f.t;
      assert stack == Links(f.below) && link == Some(t.n);
      var left, right := pt.LeftOf(link), pt.RightOf(link);
      VisitedIffPushed(m, items, f);
      if left.Some? && left.value !in visited {
        PushLeft(m, f, Elements(items));
        f := Frame(t.left, false, Frame(t, true, f.below));
        FewerFrames(m, f, Elements(items));
        if |stack| + 2 > CAPACITY {
          return false, items;
        }
        stack := stack + [link] + [left];
      } else {
        PutOut(m, items, f);
        ElementsSize(items);
        if |items| == CAPACITY || |visited| == CAPACITY {
          return false, items;
        }
        f := Next(f);
        items := items + [link.value];
        visited := visited + {link.value};
        FewerFrames(m, f, Elements(items));
        if right.Some? {
          if |stack| == CAPACITY {
            return false, items;
          }
          stack := stack + [right];
        }
      }
    }
    return true, items;
  }
}
