/** Nodes by path, and whole images. */
module DeviceTreePaths {
  import opened Options
  import opened FdtPrint
  import opened DeviceTrees

  // All that the cursors give

  ghost predicate AllDenote(b: Bytes, nodes: seq<Node>, items: Body, depth: nat) {
    |nodes| == |items| && forall i :: 0 <= i < |nodes| ==> Denotes(b, nodes[i], items[i], depth)
  }

  ghost predicate AllDenoteProps(b: Bytes, strings: nat, props: seq<Prop>, items: Body) {
    |props| == |items| && forall i :: 0 <= i < |props| ==> DenotesProp(b, strings, props[i], items[i])
  }

  lemma DenoteMore(b: Bytes, nodes: seq<Node>, items: Body, depth: nat, n: Node, item: Item)
    requires AllDenote(b, nodes, items, depth) && Denotes(b, n, item, depth)
    ensures AllDenote(b, nodes + [n], items + [item], depth)
  {
  }

  lemma DenoteMoreProps(b: Bytes, strings: nat, props: seq<Prop>, items: Body, p: Prop, item: Item)
    requires AllDenoteProps(b, strings, props, items) && DenotesProp(b, strings, p, item)
    ensures AllDenoteProps(b, strings, props + [p], items + [item])
  {
  }

  lemma MoveFirst(done: Body, left: Body, all: Body)
    requires left != [] && done + left == all
    ensures (done + [left[0]]) + left[1..] == all
  {
  }

  /** The children of a printed node, in order. */
  method Children(b: Bytes, node: Node, ghost item: Item) returns (ok: bool, nodes: seq<Node>)
    requires Addressable(b)
    ensures Denotes(b, node, item, node.depth) ==> ok && AllDenote(b, nodes, ChildrenOf(item.body), node.depth + 1)
  {
    ghost var good := Denotes(b, node, item, node.depth);
    ghost var all: Body := if good then ChildrenOf(item.body) else [];
    ghost var done: Body, left: Body := [], all;
    ghost var stack: seq<Body> := if good then [item.body] else [[]];
    var it := new NodeIterator(b, node.base, node.depth);
    nodes := [];
    while true
      invariant it.b == b && it.depth == node.depth && fresh(it) && stack != []
      invariant good ==> it.Inside(stack, END_NODE) && Left(stack) == left
      invariant good ==> done + left == all && AllDenote(b, nodes, done, node.depth + 1)
      decreases |b| - it.base
    {
      ghost var rest;
      var r;
      ok, r, rest := it.Next(stack, END_NODE);
      if !ok || r.None? {
        return ok, nodes;
      }
      if good {
        DenoteMore(b, nodes, done, node.depth + 1, r.value, left[0]);
        MoveFirst(done, left, all);
        stack := [left[0].body, rest];
        done, left := done + [left[0]], left[1..];
      }
      nodes := nodes + [r.value];
    }
  }

  /** The properties of a printed node, in order. */
  method Props(b: Bytes, strings: nat, node: Node, ghost item: Item) returns (ok: bool, props: seq<Prop>)
    requires Addressable(b)
    ensures Denotes(b, node, item, node.depth) && NamesIn(b, strings, item.body) && PropsFirst(item.body) ==>
      ok && AllDenoteProps(b, strings, props, PropsOf(item.body))
  {
    ghost var good := Denotes(b, node, item, node.depth) && NamesIn(b, strings, item.body) && PropsFirst(item.body);
    ghost var body: Body := if good then item.body else [];
    if good {
      LeadingPropsAreAll(body);
    }
    ghost var done: Body, all := [], LeadingProps(body);
    var it := new PropIterator(b, strings, node.base);
    props := [];
    while true
      invariant it.b == b && it.strings == strings && fresh(it)
      invariant good ==> it.Inside(body) && done + LeadingProps(body) == all
      invariant good ==> AllDenoteProps(b, strings, props, done)
      decreases |b| - it.base
    {
      ghost var left := LeadingProps(body);
      var r;
      ok, r, body := it.Next(body);
      if !ok || r.None? {
        return ok, props;
      }
      if good {
        DenoteMoreProps(b, strings, props, done, r.value, left[0]);
        MoveFirst(done, left, all);
        done := done + [left[0]];
      }
      props := props + [r.value];
    }
  }

  // Paths

  const SLASH: Byte := 0x2f

  function Split(path: Bytes): (r: seq<Bytes>)
    ensures r != []
  {
    if path == [] then [[]]
    else if path[0] == SLASH then [[]] + Split(path[1..])
    else var more := Split(path[1..]); [[path[0]] + more[0]] + more[1..]
  }

  function Join(parts: seq<Bytes>): Bytes
    requires parts != []
  {
    if |parts| == 1 then parts[0] else parts[0] + [SLASH] + Join(parts[1..])
  }

  /** `Split` is the one way to cut a path at its slashes. */
  lemma {:induction false} SplitJoin(path: Bytes)
    ensures Join(Split(path)) == path && forall i :: 0 <= i < |Split(path)| ==> SLASH !in Split(path)[i]
  {
    if path != [] {
      var c, rest := path[0], path[1..];
      var more := Split(rest);
      SplitJoin(rest);
      assert path == [c] + rest;
      if c != SLASH {
        assert Split(path)[1..] == more[1..] && Split(path)[0] == [c] + more[0];
        if |more| > 1 {
          Assoc([c], more[0], [SLASH] + Join(more[1..]));
        }
      }
    }
  }

  lemma {:induction false} JoinSplit(parts: seq<Bytes>)
    requires parts != [] && forall i :: 0 <= i < |parts| ==> SLASH !in parts[i]
    ensures Split(Join(parts)) == parts
    decreases |parts|, |parts[0]|
  {
    var first, more := parts[0], parts[1..];
    if first == [] {
      if more != [] {
        JoinSplit(more);
        assert Join(parts)[1..] == Join(more);
      }
    } else {
      var shorter := [first[1..]] + more;
      assert Join(parts)[1..] == Join(shorter) by {
        assert shorter[1..] == more;
      }
      assert first[0] in first && Join(parts)[0] == first[0];
      JoinSplit(shorter);
      assert [first[0]] + first[1..] == first;
    }
  }

  /** What the path names from a node: a slash at the front counts for nothing. */
  function Components(path: Bytes): seq<Bytes> {
    if path != [] && path[0] == SLASH then Split(path)[1..] else Split(path)
  }

  /** `path` is these names with slashes between them; a slash in front makes no difference. */
  ghost predicate Names(path: Bytes, parts: seq<Bytes>) {
    && parts != [] && (forall i :: 0 <= i < |parts| ==> SLASH !in parts[i])
    && (path == [SLASH] + Join(parts) || (path == Join(parts) && !(path != [] && path[0] == SLASH)))
  }

  /** Every path names one row of components, and these are the ones. */
  lemma NamesIff(path: Bytes, parts: seq<Bytes>)
    ensures Names(path, parts) <==> Components(path) == parts
  {
    if path != [] && path[0] == SLASH {
      assert path == [SLASH] + path[1..] && Components(path) == Split(path[1..]);
      SplitJoin(path[1..]);
      if Names(path, parts) {
        assert ([SLASH] + Join(parts))[1..] == Join(parts);
        JoinSplit(parts);
      }
    } else {
      SplitJoin(path);
      if Names(path, parts) { JoinSplit(parts); }
    }
  }

  function FirstNamed(items: Body, name: Bytes): (r: Option<Item>)
    requires forall i :: 0 <= i < |items| ==> items[i].Child?
    ensures match r
      case None => forall i :: 0 <= i < |items| ==> items[i].name != name
      case Some(c) => c in items && c.Child? && c.name == name
  {
    if items == [] then None else if items[0].name == name then Some(items[0]) else FirstNamed(items[1..], name)
  }

  /** The first children with the given names, one below the other, as far as they exist. */
  function Follow(item: Item, names: seq<Bytes>): (r: Item)
    requires item.Child?
    ensures r.Child?
    decreases |names|
  {
    if names == [] then item
    else match FirstNamed(ChildrenOf(item.body), names[0])
      case None => item
      case Some(c) => Follow(c, names[1..])
  }

  /** How many names that took. */
  function Followed(item: Item, names: seq<Bytes>): (r: nat)
    requires item.Child?
    ensures r <= |names|
    decreases |names|
  {
    if names == [] then 0
    else match FirstNamed(ChildrenOf(item.body), names[0])
      case None => 0
      case Some(c) => 1 + Followed(c, names[1..])
  }

  /** Some chain of children, whichever among those of equal names, leads from `item` to `target`. */
  ghost predicate Leads(item: Item, names: seq<Bytes>, target: Item)
    decreases |names|
  {
    if names == [] then item == target
    else item.Child? && exists c :: c in ChildrenOf(item.body) && c.Child? && c.name == names[0] && Leads(c, names[1..], target)
  }

  /** No two children of a node have the same name, as section 2.2.1 of the Devicetree Specification demands. */
  ghost predicate Distinct(item: Item)
    decreases item
  {
    match item
    case Child(_, body) =>
      && (forall i, j :: 0 <= i < j < |ChildrenOf(body)| ==> ChildrenOf(body)[i].name != ChildrenOf(body)[j].name)
      && forall c :: c in body ==> Distinct(c)
    case _ => true
  }

  /** The node found is reached by a prefix of the path. */
  lemma {:induction false} FollowLeads(item: Item, names: seq<Bytes>)
    requires item.Child?
    ensures Leads(item, names[..Followed(item, names)], Follow(item, names))
    decreases |names|
  {
    if names != [] {
      match FirstNamed(ChildrenOf(item.body), names[0])
      case None =>
      case Some(c) =>
        FollowLeads(c, names[1..]);
        var part := names[..Followed(item, names)];
        assert part[1..] == names[1..][..Followed(c, names[1..])] && part[0] == names[0];
    }
  }

  lemma NamedOnce(items: Body, name: Bytes, c: Item)
    requires forall i :: 0 <= i < |items| ==> items[i].Child?
    requires forall i, j :: 0 <= i < j < |items| ==> items[i].name != items[j].name
    requires c in items && c.Child? && c.name == name
    ensures FirstNamed(items, name) == Some(c)
  {
  }

  /** When siblings differ in name, no longer prefix leads anywhere, and the longest one leads to this node alone. */
  lemma {:induction false} LongestPrefix(item: Item, names: seq<Bytes>, k: nat, target: Item)
    requires item.Child? && Distinct(item) && k <= |names| && Leads(item, names[..k], target)
    ensures k <= Followed(item, names)
    ensures k == Followed(item, names) ==> target == Follow(item, names)
    decreases |names|
  {
    if k > 0 {
      var c := OnlyChild(item, names, k, target);
      LongestPrefix(c, names[1..], k - 1, target);
    }
  }

  lemma OnlyChild(item: Item, names: seq<Bytes>, k: nat, target: Item) returns (c: Item)
    requires item.Child? && Distinct(item) && 0 < k <= |names| && Leads(item, names[..k], target)
    ensures FirstNamed(ChildrenOf(item.body), names[0]) == Some(c)
    ensures c.Child? && Distinct(c) && Leads(c, names[1..][..k - 1], target)
  {
    var part := names[..k];
    c :| c in ChildrenOf(item.body) && c.Child? && c.name == part[0] && Leads(c, part[1..], target);
    NamedOnce(ChildrenOf(item.body), names[0], c);
    assert part[1..] == names[1..][..k - 1];
  }

  // Exactly when first matches suffice

  lemma {:induction false} InChildren(body: Body, c: Item)
    ensures c in ChildrenOf(body) <==> c in body && c.Child?
  {
    if body != [] { InChildren(body[1..], c); }
  }

  /** What lies below `y` can be found below `x` by first matches: each child of `y` has its name in `x`, and the first
      child of that name covers it. */
  ghost predicate Covers(x: Item, y: Item)
    requires x.Child? && y.Child?
    decreases y
  {
    forall d :: d in y.body && d.Child? ==>
      FirstNamed(ChildrenOf(x.body), d.name).Some? && Covers(FirstNamed(ChildrenOf(x.body), d.name).value, d)
  }

  lemma {:induction false} CoveredFollows(x: Item, y: Item, names: seq<Bytes>, target: Item)
    requires x.Child? && y.Child? && Covers(x, y) && Leads(y, names, target)
    ensures Followed(x, names) == |names|
    decreases |names|
  {
    if names != [] {
      var d :| d in ChildrenOf(y.body) && d.Child? && d.name == names[0] && Leads(d, names[1..], target);
      InChildren(y.body, d);
      CoveredFollows(FirstNamed(ChildrenOf(x.body), d.name).value, d, names[1..], target);
    }
  }

  /** Otherwise some chain below `y` cannot be followed below `x`. */
  lemma {:induction false} UncoveredMissed(x: Item, y: Item) returns (names: seq<Bytes>, target: Item)
    requires x.Child? && y.Child? && !Covers(x, y)
    ensures Leads(y, names, target) && Followed(x, names) < |names|
    decreases y
  {
    var d :| d in y.body && d.Child? && !(FirstNamed(ChildrenOf(x.body), d.name).Some?
                                          && Covers(FirstNamed(ChildrenOf(x.body), d.name).value, d));
    InChildren(y.body, d);
    if FirstNamed(ChildrenOf(x.body), d.name).None? {
      names, target := [d.name], d;
      assert Leads(d, names[1..], d);
    } else {
      var more;
      more, target := UncoveredMissed(FirstNamed(ChildrenOf(x.body), d.name).value, d);
      names := [d.name] + more;
      assert names[1..] == more;
    }
  }

  lemma {:induction false} FollowedPrefix(item: Item, names: seq<Bytes>, k: nat)
    requires item.Child? && k <= |names|
    ensures Followed(item, names[..k]) == if Followed(item, names) < k then Followed(item, names) else k
    decreases k
  {
    if k > 0 {
      var part := names[..k];
      assert part[0] == names[0] && part[1..] == names[1..][..k - 1];
      match FirstNamed(ChildrenOf(item.body), names[0])
      case None =>
      case Some(c) => FollowedPrefix(c, names[1..], k - 1);
    }
  }

  /** No path is followed less far than some chain of children leads. */
  ghost predicate FindsLongest(item: Item)
    requires item.Child?
  {
    forall names, k, target :: 0 <= k <= |names| && Leads(item, names[..k], target) ==> k <= Followed(item, names)
  }

  /** The longest matching prefix is found for every path exactly if the node covers itself. */
  lemma LongestIff(item: Item)
    requires item.Child?
    ensures FindsLongest(item) <==> Covers(item, item)
  {
    if Covers(item, item) {
      forall names: seq<Bytes>, k, target | 0 <= k <= |names| && Leads(item, names[..k], target)
        ensures k <= Followed(item, names)
      {
        CoveredFollows(item, item, names[..k], target);
        FollowedPrefix(item, names, k);
      }
    } else {
      var names, target := UncoveredMissed(item, item);
      assert names[..|names|] == names;
    }
  }

  /** With two siblings of one name, a longer prefix below the second is missed. */
  lemma FirstMatchOnly(a: Name, z: Name) returns (item: Item)
    requires a != z
    ensures item.Child? && Follow(item, [a, z]).name == a && Follow(item, [a, z]).body == []
    ensures exists target :: Leads(item, [a, z], target)
  {
    var deep := Child(z, []);
    var twin := Child(a, [deep]);
    var body := [Child(a, []), twin];
    item := Child([], body);
    assert body[1..] == [twin] && twin in ChildrenOf(body) by {
      assert ChildrenOf(body[1..]) == [twin] + ChildrenOf([]);
      assert ChildrenOf(body) == [body[0]] + [twin];
    }
    assert ChildrenOf(body)[0] == body[0];
    assert [a, z][1..] == [z];
    assert ChildrenOf(twin.body) == [deep] && [z][1..] == [];
    assert deep in ChildrenOf(twin.body) && Leads(deep, [], deep);
    assert Leads(twin, [z], deep);
    assert Leads(item, [a, z], deep);
  }

  /** The first child of that name. */
  method ChildByName(b: Bytes, node: Node, name: Bytes, ghost item: Item) returns (ok: bool, r: Option<Node>)
    requires Addressable(b)
    ensures Denotes(b, node, item, node.depth) ==>
      && ok && match FirstNamed(ChildrenOf(item.body), name)
        case None => r == None
        case Some(c) => r.Some? && Denotes(b, r.value, c, node.depth + 1)
  {
    ghost var good := Denotes(b, node, item, node.depth);
    ghost var left: Body := if good then ChildrenOf(item.body) else [];
    ghost var stack: seq<Body> := if good then [item.body] else [[]];
    var it := new NodeIterator(b, node.base, node.depth);
    while true
      invariant it.b == b && it.depth == node.depth && fresh(it) && stack != []
      invariant forall i :: 0 <= i < |left| ==> left[i].Child?
      invariant good ==> it.Inside(stack, END_NODE) && Left(stack) == left
      invariant good ==> FirstNamed(left, name) == FirstNamed(ChildrenOf(item.body), name)
      decreases |b| - it.base
    {
      ghost var rest;
      ok, r, rest := it.Next(stack, END_NODE);
      if !ok || r.None? || r.value.name == name {
        return ok, r;
      }
      if good {
        stack := [left[0].body, rest];
        left := left[1..];
      }
    }
  }

  /** Recursive search; without a match the node itself. */
  method ChildByPathHelper(b: Bytes, node: Node, names: seq<Bytes>, ghost item: Item)
    returns (ok: bool, r: Option<Node>)
    requires Addressable(b)
    ensures ok ==> r.Some?
    ensures Denotes(b, node, item, node.depth) ==>
      ok && Denotes(b, r.value, Follow(item, names), node.depth + Followed(item, names))
    decreases |names|
  {
    if names == [] {
      return true, Some(node);
    }
    var found, next := ChildByName(b, node, names[0], item);
    if !found {
      return false, None;
    }
    if next.None? {
      return true, Some(node);
    }
    ghost var child := if Denotes(b, node, item, node.depth) then FirstNamed(ChildrenOf(item.body), names[0]).value else Nop;
    ok, r := ChildByPathHelper(b, next.value, names[1..], child);
  }

  method ChildByPath(b: Bytes, node: Node, path: Bytes, ghost item: Item) returns (ok: bool, r: Option<Node>)
    requires Addressable(b)
    ensures ok ==> r.Some?
    ensures Denotes(b, node, item, node.depth) ==>
      ok && Denotes(b, r.value, Follow(item, Components(path)), node.depth + Followed(item, Components(path)))
    ensures Denotes(b, node, item, node.depth) ==>
      forall parts :: Names(path, parts) ==> Denotes(b, r.value, Follow(item, parts), node.depth + Followed(item, parts))
  {
    forall parts | Names(path, parts)
      ensures parts == Components(path)
    {
      NamesIff(path, parts);
    }
    var names := Split(path);
    if path != [] && path[0] == SLASH {
      names := names[1..];
    }
    ok, r := ChildByPathHelper(b, node, names, item);
  }

  // Whole images: a header of ten words, an empty reservation map, the structure block and the strings block

  const HEADER: nat := 40
  const RESERVATIONS: nat := 16

  function Structure(top: Body): Bytes {
    PrintStack([top], END)
  }

  function PrintWords(ws: seq<Word>): (r: Bytes)
    ensures |r| == 4 * |ws|
  {
    if ws == [] then [] else BigEndian(ws[0]) + PrintWords(ws[1..])
  }

  function Header(struct: nat, strings: nat): (r: Bytes)
    requires HEADER + RESERVATIONS + struct + strings < U32_LIMIT
    ensures |r| == HEADER
  {
    var at := HEADER + RESERVATIONS;
    PrintWords([0xd00d_feed, at + struct + strings, at, at + struct, HEADER, 17, 16, 0, strings, struct])
  }

  function Image(top: Body, strings: Bytes): Bytes
    requires HEADER + RESERVATIONS + |Structure(top)| + |strings| < U32_LIMIT
  {
    Header(|Structure(top)|, |strings|) + seq(RESERVATIONS, _ => 0) + Structure(top) + strings
  }

  lemma FrameParts(b: Bytes, struct: Bytes, strings: Bytes)
    requires HEADER + RESERVATIONS + |struct| + |strings| < U32_LIMIT
    requires b == Header(|struct|, |strings|) + seq(RESERVATIONS, _ => 0) + struct + strings
    ensures |b| >= HEADER + RESERVATIONS
    ensures Native(b, 8) == HEADER + RESERVATIONS && Native(b, 12) == HEADER + RESERVATIONS + |struct|
    ensures At(b, HEADER + RESERVATIONS, struct) && At(b, HEADER + RESERVATIONS + |struct|, strings)
  {
    FourParts(Header(|struct|, |strings|), seq(RESERVATIONS, _ => 0), struct, strings);
    HeaderAt(b, |struct|, |strings|);
  }

  /** Every image made this way is one that the walker is promised to read. */
  lemma ImageDescribed(top: Body, strings: Bytes)
    requires HEADER + RESERVATIONS + |Structure(top)| + |strings| < U32_LIMIT
    ensures var b := Image(top, strings);
      var at := HEADER + RESERVATIONS;
      && |b| >= at && Native(b, 8) == at && Native(b, 12) == at + |Structure(top)|
      && StackAt(b, at, [top], END) && At(b, at + |Structure(top)|, strings)
  {
    FrameParts(Image(top, strings), Structure(top), strings);
    StructureStands(Image(top, strings), HEADER + RESERVATIONS, top, Structure(top));
  }

  lemma StructureStands(b: Bytes, pos: nat, top: Body, struct: Bytes)
    requires struct == Structure(top) && At(b, pos, struct) && pos % 4 == 0
    ensures StackAt(b, pos, [top], END)
  {
    WholeIff(pos);
  }

  lemma FourParts(s: Bytes, t: Bytes, u: Bytes, v: Bytes)
    ensures var b := s + t + u + v;
      At(b, 0, s) && At(b, |s| + |t|, u) && At(b, |s| + |t| + |u|, v)
  {
    var b := s + t + u + v;
    assert At(b, 0, b);
    AtSplit(b, 0, s + t + u, v);
    AtSplit(b, 0, s + t, u);
    AtSplit(b, 0, s, t);
  }

  lemma {:induction false} WordsAt(b: Bytes, pos: nat, ws: seq<Word>, k: nat)
    requires k < |ws| && At(b, pos, PrintWords(ws))
    ensures pos + 4 * k + 4 <= |b| && Native(b, pos + 4 * k) == ws[k]
    decreases k
  {
    AtSplit(b, pos, BigEndian(ws[0]), PrintWords(ws[1..]));
    if k == 0 {
      AtWord(b, pos, ws[0]);
    } else {
      WordsAt(b, pos + 4, ws[1..], k - 1);
    }
  }

  lemma HeaderAt(b: Bytes, struct: nat, strings: nat)
    requires HEADER + RESERVATIONS + struct + strings < U32_LIMIT && At(b, 0, Header(struct, strings))
    ensures var at := HEADER + RESERVATIONS;
      |b| >= HEADER && Native(b, 8) == at && Native(b, 12) == at + struct
  {
    var at := HEADER + RESERVATIONS;
    var ws: seq<Word> := [0xd00d_feed, at + struct + strings, at, at + struct, HEADER, 17, 16, 0, strings, struct];
    WordsAt(b, 0, ws, 2);
    WordsAt(b, 0, ws, 3);
  }

  /** A string of the strings block stands at the same offset in the image. */
  lemma StringMoved(b: Bytes, pos: nat, block: Bytes, offset: nat, s: Bytes)
    requires At(b, pos, block) && StringAt(block, offset, s)
    ensures StringAt(b, pos + offset, s)
  {
    var t := s + [0];
    forall i | 0 <= i < |t|
      ensures b[pos + offset + i] == t[i]
    {
      AtIndex(block, offset, t, i);
      AtIndex(b, pos, block, offset + i);
    }
    assert b[pos + offset..pos + offset + |t|] == t;
  }

  /** The first node of the image that starts at address 0 of `b`. */
  method Root(b: Bytes, ghost top: Body) returns (ok: bool, r: Option<Node>)
    requires Addressable(b)
    ensures |b| >= 12 && StackAt(b, Native(b, 8), [top], END) ==>
      && ok && match r
        case None => ChildrenOf(top) == []
        case Some(n) => ChildrenOf(top) != [] && Denotes(b, n, ChildrenOf(top)[0], 1)
  {
    if |b| < 12 {
      return false, None;
    }
    var it := new NodeIterator(b, Native(b, 8), 0);
    ghost var rest;
    ok, r, rest := it.Next([top], END);
  }

  // From an image to the properties of a node

  /** At every node properties come before children, and their names stand in the strings block. */
  ghost predicate WellNamed(strings: Bytes, item: Item)
    decreases item
  {
    item.Child? ==>
      NamesIn(strings, 0, item.body) && PropsFirst(item.body) && forall c :: c in item.body ==> WellNamed(strings, c)
  }

  lemma {:induction false} FollowWellNamed(strings: Bytes, item: Item, names: seq<Bytes>)
    requires item.Child? && WellNamed(strings, item)
    ensures WellNamed(strings, Follow(item, names))
    decreases |names|
  {
    if names != [] {
      match FirstNamed(ChildrenOf(item.body), names[0])
      case None =>
      case Some(c) =>
        InChildren(item.body, c);
        FollowWellNamed(strings, c, names[1..]);
    }
  }

  lemma NamesMoved(b: Bytes, pos: nat, strings: Bytes, body: Body)
    requires At(b, pos, strings) && NamesIn(strings, 0, body)
    ensures NamesIn(b, pos, body)
  {
    forall i | 0 <= i < |body| && body[i].Prop?
      ensures HasString(b, pos + body[i].nameOffset)
    {
      assert HasString(strings, 0 + body[i].nameOffset);
      var s :| StringAt(strings, body[i].nameOffset, s);
      StringMoved(b, pos, strings, body[i].nameOffset, s);
    }
  }

  lemma StringUnique(b: Bytes, pos: nat, s: Bytes, t: Bytes)
    requires StringAt(b, pos, s) && StringAt(b, pos, t)
    ensures s == t
  {
    StringEnd(b, pos, s, |s|);
    StringEnd(b, pos, t, |t|);
    if |s| < |t| { StringEnd(b, pos, t, |s|); }
    if |t| < |s| { StringEnd(b, pos, s, |t|); }
  }

  /** The properties as they were printed, with the names that the strings block gives them. */
  ghost predicate PrintedProps(strings: Bytes, props: seq<Prop>, items: Body) {
    |props| == |items| && forall i :: 0 <= i < |props| ==> DenotesProp(strings, 0, props[i], items[i])
  }

  lemma PropsMoved(b: Bytes, pos: nat, strings: Bytes, props: seq<Prop>, body: Body)
    requires At(b, pos, strings) && NamesIn(strings, 0, body) && AllDenoteProps(b, pos, props, PropsOf(body))
    ensures PrintedProps(strings, props, PropsOf(body))
  {
    forall i | 0 <= i < |props|
      ensures DenotesProp(strings, 0, props[i], PropsOf(body)[i])
    {
      var j :| 0 <= j < |body| && body[j] == PropsOf(body)[i];
      PropMoved(b, pos, strings, props[i], body[j]);
    }
  }

  lemma PropMoved(b: Bytes, pos: nat, strings: Bytes, p: Prop, item: Item)
    requires At(b, pos, strings) && DenotesProp(b, pos, p, item) && HasString(strings, item.nameOffset)
    ensures DenotesProp(strings, 0, p, item)
  {
    var s :| StringAt(strings, item.nameOffset, s);
    StringMoved(b, pos, strings, item.nameOffset, s);
    StringUnique(b, pos + item.nameOffset, s, p.name);
  }

  /** An image of a tree whose first node is `root`. */
  ghost predicate IsImage(b: Bytes, top: Body, strings: Bytes, root: Item) {
    && HEADER + RESERVATIONS + |Structure(top)| + |strings| < U32_LIMIT && b == Image(top, strings)
    && ChildrenOf(top) != [] && ChildrenOf(top)[0] == root && root.Child? && WellNamed(strings, root)
  }

  /** Parsing undoes printing: from the header of a printed image, a path leads to the node that it names, with its
      depth, and that node has exactly the properties printed, in order, with their names and values. */
  method PropsAtPath(b: Bytes, path: Bytes, ghost top: Body, ghost strings: Bytes, ghost root: Item)
    returns (ok: bool, node: Option<Node>, props: seq<Prop>)
    requires Addressable(b)
    ensures IsImage(b, top, strings, root) ==>
      var target := Follow(root, Components(path));
      && ok && node.Some? && Denotes(b, node.value, target, 1 + Followed(root, Components(path)))
      && PrintedProps(strings, props, PropsOf(target.body))
  {
    ghost var good := IsImage(b, top, strings, root);
    ghost var target := if good then Follow(root, Components(path)) else root;
    if good {
      ImageDescribed(top, strings);
      FollowWellNamed(strings, root, Components(path));
    }
    if |b| < 16 {
      return false, None, [];
    }
    var stringsBase := Native(b, 12);
    ok, node := Root(b, top);
    if !ok || node.None? {
      return ok, node, [];
    }
    ok, node := ChildByPath(b, node.value, path, root);
    if !ok {
      return false, None, [];
    }
    if good {
      NamesMoved(b, stringsBase, strings, target.body);
    }
    ok, props := Props(b, stringsBase, node.value, target);
    if good {
      PropsMoved(b, stringsBase, strings, props, target.body);
    }
  }
}
