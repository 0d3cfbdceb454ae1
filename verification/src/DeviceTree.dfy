/** The cursors over a flattened device tree. What is not a printed tree, or runs out of the image, ends with
    `ok == false`; on a printed tree no method does. */
module DeviceTrees {
  import opened Options
  import opened FdtPrint
  import Bits

  datatype Node = Node(base: nat, name: Bytes, depth: nat)

  datatype Prop = Property(name: Bytes, value: Bytes)

  /** Positions stand for addresses, so the image must end where slices of the program's memory end. */
  predicate Addressable(b: Bytes) {
    |b| + U32_LIMIT + 16 < Bits.USIZE_LIMIT
  }

  // Strings that end with a zero byte

  ghost predicate StringAt(b: Bytes, pos: nat, s: Bytes) {
    0 !in s && At(b, pos, s + [0])
  }

  lemma StringEnd(b: Bytes, pos: nat, s: Bytes, i: nat)
    requires StringAt(b, pos, s) && i <= |s|
    ensures pos + i < |b| && (b[pos + i] == 0 <==> i == |s|)
    ensures i == |s| ==> b[pos..pos + i] == s
  {
    AtIndex(b, pos, s + [0], i);
    if i < |s| {
      assert s[i] in s;
    } else {
      AtSplit(b, pos, s, [0]);
    }
  }

  ghost predicate HasString(b: Bytes, pos: nat) {
    exists s :: StringAt(b, pos, s)
  }

  /** Finds the end of a string: `ok` fails when there is none. */
  method ReadString(b: Bytes, pos: nat) returns (ok: bool, s: Bytes)
    ensures ok <==> HasString(b, pos)
    ensures ok ==> StringAt(b, pos, s) && pos + |s| < |b|
    ensures forall t :: StringAt(b, pos, t) ==> s == t
  {
    var len := 0;
    while pos + len < |b| && b[pos + len] != 0
      invariant pos < |b| ==> pos + len <= |b|
      invariant pos < |b| ==> forall i :: pos <= i < pos + len ==> b[i] != 0
      invariant pos >= |b| ==> len == 0
    {
      len := len + 1;
    }
    ok := pos + len < |b|;
    s := if ok then b[pos..pos + len] else [];
    if ok {
      assert s + [0] == b[pos..pos + len + 1];
      assert StringAt(b, pos, s);
    }
    forall t | StringAt(b, pos, t)
      ensures ok && s == t
    {
      StringEnd(b, pos, t, |t|);
      if len < |t| { StringEnd(b, pos, t, len); }
      assert len == |t|;
    }
  }

  // What the cursors should give

  /** `n` is the node that `item` was printed as. */
  ghost predicate Denotes(b: Bytes, n: Node, item: Item, depth: nat) {
    item.Child? && n.name == item.name && n.depth == depth && BodyAt(b, n.base, item.body)
  }

  ghost predicate DenotesProp(b: Bytes, strings: nat, p: Prop, item: Item) {
    item.Prop? && p.value == item.value && StringAt(b, strings + item.nameOffset, p.name)
  }

  /** Every property of `body` has its name in the strings block. */
  ghost predicate NamesIn(b: Bytes, strings: nat, body: Body) {
    forall i :: 0 <= i < |body| && body[i].Prop? ==> HasString(b, strings + body[i].nameOffset)
  }

  /** The properties before the first child. */
  function LeadingProps(body: Body): (r: Body) {
    if body == [] || body[0].Child? then []
    else (if body[0].Prop? then [body[0]] else []) + LeadingProps(body[1..])
  }

  /** These are all properties when a node is laid out as the standard demands. */
  lemma {:induction false} LeadingPropsAreAll(body: Body)
    requires PropsFirst(body)
    ensures LeadingProps(body) == PropsOf(body)
  {
    if body != [] {
      var more := body[1..];
      assert forall i :: 0 <= i < |more| ==> more[i] == body[i + 1];
      if body[0].Child? {
        NoProps(more);
      } else {
        LeadingPropsAreAll(more);
      }
    }
  }

  lemma {:induction false} NoProps(body: Body)
    requires forall i :: 0 <= i < |body| ==> !body[i].Prop?
    ensures PropsOf(body) == []
  {
    if body != [] { NoProps(body[1..]); }
  }

  /** The node on top of the stack can be read on its own. */
  lemma TopAlone(b: Bytes, pos: nat, body: Body, rest: Body, last: Word)
    requires StackAt(b, pos, [body, rest], last)
    ensures BodyAt(b, pos, body)
  {
    var stack := [body, rest];
    assert stack[0] == body && stack[1..] == [rest];
    var text := Print(body) + BigEndian(END_NODE);
    AtSplit(b, pos, text, PrintStack([rest], last));
    assert [body][1..] == [];
    assert PrintStack([body], END_NODE) == text + [] == text;
  }

  // Where the cursor goes after an item

  lemma NopAt(b: Bytes, pos: nat)
    requires At(b, pos, PrintItem(Nop))
    ensures pos + 4 <= |b| && Native(b, pos) == NOP && |PrintItem(Nop)| == 4
  {
    AtWord(b, pos, NOP);
  }

  lemma AtParts(b: Bytes, pos: nat, x: Bytes, y: Bytes, z: Bytes, v: Bytes, w: Bytes)
    requires At(b, pos, x + y + z + v + w)
    ensures At(b, pos, x) && At(b, pos + |x|, y) && At(b, pos + |x| + |y|, z) && At(b, pos + |x| + |y| + |z|, v)
  {
    AtSplit(b, pos, x + y + z + v, w);
    AtSplit(b, pos, x + y + z, v);
    AtSplit(b, pos, x + y, z);
    AtSplit(b, pos, x, y);
  }

  /** Only one whole number of words lies so close behind `x`. */
  lemma WholeNext(x: nat, r: nat, p: nat)
    requires x <= r < x + 4 && x <= p < x + 4 && Whole(r) && Whole(p)
    ensures r == p
  {
    WholeIff(r);
    WholeIff(p);
    var i, j := r / 4, p / 4;
    assert r == 4 * i && p == 4 * j;
  }

  /** Moves on to the next word, as `(x + 4 - 1) & !3` does. */
  method AlignWord(x: nat) returns (r: nat)
    requires x + 3 < Bits.USIZE_LIMIT
    ensures x <= r < x + 4 && Whole(r)
  {
    r := Bits.Align4(x);
    WholeIff(r);
  }

  lemma PropAt(b: Bytes, pos: nat, nameOffset: Word, value: Value)
    requires At(b, pos, PrintItem(Prop(nameOffset, value)))
    ensures pos + 12 + |value| <= |b| && Native(b, pos) == PROP
    ensures Native(b, pos + 4) == |value| && Native(b, pos + 8) == nameOffset
    ensures b[pos + 12..pos + 12 + |value|] == value
    ensures |PrintItem(Prop(nameOffset, value))| == 12 + |value| + |Padding(|value|)|
  {
    AtParts(b, pos, BigEndian(PROP), BigEndian(|value|), BigEndian(nameOffset), value, Padding(|value|));
    AtWord(b, pos, PROP);
    AtWord(b, pos + 4, |value|);
    AtWord(b, pos + 8, nameOffset);
  }

  lemma OpeningAt(b: Bytes, pos: nat, name: Name)
    requires At(b, pos, Opening(name))
    ensures pos + 4 <= |b| && Native(b, pos) == BEGIN_NODE && StringAt(b, pos + 4, name)
    ensures pos + 4 + |name| < |b|
  {
    AtParts(b, pos, BigEndian(BEGIN_NODE), name, [0], Padding(|name| + 1), []);
    AtSplit(b, pos + 4, name, [0]);
    AtWord(b, pos, BEGIN_NODE);
  }

  /** The children that the outermost body still holds. */
  function Left(stack: seq<Body>): (r: Body)
    requires stack != []
  {
    ChildrenOf(stack[|stack| - 1])
  }

  /** The token that a cursor inside `stack` meets. */
  function Token(stack: seq<Body>, last: Word): (r: nat)
    requires stack != []
  {
    if stack[0] == [] then Closing(stack, last)
    else match stack[0][0] case Nop => NOP case Prop(_, _) => PROP case Child(_, _) => BEGIN_NODE
  }

  lemma ReadToken(b: Bytes, pos: nat, stack: seq<Body>, last: Word)
    requires StackAt(b, pos, stack, last) && stack != []
    ensures pos + 4 <= |b| && Native(b, pos) == Token(stack, last)
  {
    if stack[0] == [] {
      StackClosing(b, pos, stack, last);
      AtWord(b, pos, Closing(stack, last));
    } else if stack[0][0].Child? {
      StackChild(b, pos, stack, last);
      OpeningAt(b, pos, stack[0][0].name);
    } else {
      StackItem(b, pos, stack, last);
      var item := stack[0][0];
      if item.Nop? {
        NopAt(b, pos);
      } else {
        PropAt(b, pos, item.nameOffset, item.value);
      }
    }
  }

  lemma ReadProp(b: Bytes, pos: nat, stack: seq<Body>, last: Word)
    requires StackAt(b, pos, stack, last) && stack != [] && stack[0] != [] && stack[0][0].Prop?
    ensures var Prop(nameOffset, value) := stack[0][0];
      && pos + 12 + |value| <= |b| && Native(b, pos + 4) == |value| && Native(b, pos + 8) == nameOffset
      && b[pos + 12..pos + 12 + |value|] == value
  {
    StackItem(b, pos, stack, last);
    PropAt(b, pos, stack[0][0].nameOffset, stack[0][0].value);
  }

  lemma AfterItem(b: Bytes, pos: nat, stack: seq<Body>, last: Word, pos': nat)
    requires StackAt(b, pos, stack, last) && stack != [] && stack[0] != []
    requires pos' == pos + |PrintItem(stack[0][0])|
    ensures StackAt(b, pos', Below(stack), last)
  {
    StackItem(b, pos, stack, last);
  }

  lemma AlignProp(pos: nat, nameOffset: Word, value: Value, pos': nat)
    requires Whole(pos) && Whole(pos') && pos + 12 + |value| <= pos' < pos + 12 + |value| + 4
    ensures pos' == pos + |PrintItem(Prop(nameOffset, value))|
  {
    PropLength(nameOffset, value);
    WholeSum(pos, |PrintItem(Prop(nameOffset, value))|);
    WholeNext(pos + 12 + |value|, pos', pos + |PrintItem(Prop(nameOffset, value))|);
  }

  lemma PropLength(nameOffset: Word, value: Value)
    ensures |PrintItem(Prop(nameOffset, value))| == 12 + |value| + |Padding(|value|)|
  {
  }

  lemma ReadChild(b: Bytes, pos: nat, stack: seq<Body>, last: Word)
    requires StackAt(b, pos, stack, last) && stack != [] && stack[0] != [] && stack[0][0].Child?
    ensures StringAt(b, pos + 4, stack[0][0].name) && pos + 4 + |stack[0][0].name| < |b|
  {
    StackChild(b, pos, stack, last);
    OpeningAt(b, pos, stack[0][0].name);
  }

  lemma AfterOpening(b: Bytes, pos: nat, stack: seq<Body>, last: Word, pos': nat)
    requires StackAt(b, pos, stack, last) && stack != [] && stack[0] != [] && stack[0][0].Child?
    requires pos' == pos + |Opening(stack[0][0].name)|
    ensures StackAt(b, pos', [stack[0][0].body] + Below(stack), last)
  {
    StackChild(b, pos, stack, last);
  }

  lemma AlignOpening(pos: nat, name: Name, pos': nat)
    requires Whole(pos) && Whole(pos') && pos + 4 + |name| + 1 <= pos' < pos + 4 + |name| + 1 + 4
    ensures pos' == pos + |Opening(name)|
  {
    WholeSum(pos, |Opening(name)|);
    WholeNext(pos + 4 + |name| + 1, pos', pos + |Opening(name)|);
  }

  lemma AfterClosing(b: Bytes, pos: nat, stack: seq<Body>, last: Word)
    requires StackAt(b, pos, stack, last) && stack != [] && stack[0] == []
    ensures StackAt(b, pos + 4, stack[1..], last)
  {
    StackClosing(b, pos, stack, last);
  }

  lemma LeftBelow(stack: seq<Body>)
    requires stack != [] && stack[0] != []
    ensures Left(Below(stack)) == Left(stack) || (|stack| == 1 && stack[0][0].Child?)
    ensures |stack| == 1 && stack[0][0].Child? ==>
      Left(stack) != [] && Left(stack)[0] == stack[0][0] && ChildrenOf(stack[0][1..]) == Left(stack)[1..]
  {
  }

  /** What the token at the cursor tells. */
  lemma ByToken(b: Bytes, pos: nat, stack: seq<Body>, last: Word)
    requires StackAt(b, pos, stack, last) && stack != []
    ensures pos + 4 <= |b|
    ensures var val := Native(b, pos);
      && (val == END ==> |stack| == 1 && stack[0] == [])
      && (val == END_NODE ==> stack[0] == [] && StackAt(b, pos + 4, stack[1..], last))
      && (val == END_NODE && |stack| > 1 ==> Left(stack[1..]) == Left(stack))
      && (val == BEGIN_NODE ==> Token(stack, last) == BEGIN_NODE && stack[0] != [])
      && (val == PROP ==> Token(stack, last) == PROP && stack[0] != [] && Left(Below(stack)) == Left(stack))
      && (val == NOP ==> stack[0] != [] && StackAt(b, pos + 4, Below(stack), last) && Left(Below(stack)) == Left(stack))
      && val in {END, END_NODE, BEGIN_NODE, PROP, NOP}
  {
    ReadToken(b, pos, stack, last);
    if stack[0] == [] {
      AfterClosing(b, pos, stack, last);
    } else {
      LeftBelow(stack);
      if stack[0][0].Nop? {
        AfterItem(b, pos, stack, last, pos + 4);
      }
    }
  }

  /** The cursor at `pos` stands inside `stack`, before the token `token`. */
  ghost predicate Before(b: Bytes, pos: nat, stack: seq<Body>, last: Word, token: nat) {
    StackAt(b, pos, stack, last) && stack != [] && Token(stack, last) == token
  }

  ghost predicate PropIs(b: Bytes, pos: nat, stack: seq<Body>, len: nat, nameOffset: nat) {
    && stack != [] && stack[0] != [] && stack[0][0].Prop?
    && nameOffset == stack[0][0].nameOffset && len == |stack[0][0].value|
    && pos + 12 + len <= |b| && b[pos + 12..pos + 12 + len] == stack[0][0].value
  }

  lemma AfterProp(b: Bytes, pos: nat, stack: seq<Body>, last: Word, len: nat, pos': nat)
    requires Before(b, pos, stack, last, PROP)
    requires len == |stack[0][0].value| && pos + 12 + len <= pos' < pos + 12 + len + 4 && Whole(pos')
    ensures StackAt(b, pos', Below(stack), last)
  {
    AlignProp(pos, stack[0][0].nameOffset, stack[0][0].value, pos');
    AfterItem(b, pos, stack, last, pos');
  }

  /** Reads the name of a node that opens at `pos` and moves on to its body. */
  method ReadNode(b: Bytes, pos: nat, ghost stack: seq<Body>, ghost last: Word)
    returns (ok: bool, name: Bytes, pos': nat)
    requires Addressable(b) && pos + 4 <= |b|
    ensures pos' > pos
    ensures Before(b, pos, stack, last, BEGIN_NODE) ==>
      ok && name == stack[0][0].name && StackAt(b, pos', [stack[0][0].body] + Below(stack), last)
  {
    ghost var good := Before(b, pos, stack, last, BEGIN_NODE);
    if good {
      ReadChild(b, pos, stack, last);
    }
    ok, name := ReadString(b, pos + 4);
    if !ok {
      return false, [], pos + 4;
    }
    pos' := AlignWord(pos + 4 + |name| + 1);
    if good {
      AlignOpening(pos, name, pos');
      AfterOpening(b, pos, stack, last, pos');
    }
  }

  /** Moves over the property at `pos`. */
  method SkipProp(b: Bytes, pos: nat, ghost stack: seq<Body>, ghost last: Word)
    returns (ok: bool, len: nat, nameOffset: nat, pos': nat)
    requires Addressable(b) && pos + 4 <= |b|
    ensures pos' > pos && (ok ==> pos + 12 <= |b|)
    ensures Before(b, pos, stack, last, PROP) ==> ok && PropIs(b, pos, stack, len, nameOffset)
    ensures Before(b, pos, stack, last, PROP) ==> StackAt(b, pos', Below(stack), last)
  {
    ghost var good := Before(b, pos, stack, last, PROP);
    if good {
      ReadProp(b, pos, stack, last);
    }
    if pos + 12 > |b| {
      return false, 0, 0, pos + 4;
    }
    ok, len, nameOffset := true, Native(b, pos + 4), Native(b, pos + 8);
    pos' := AlignWord(pos + 12 + len);
    if good {
      AfterProp(b, pos, stack, last, len, pos');
    }
  }

  /** Walks over the nodes directly below the place it starts at. */
  class NodeIterator {
    const b: Bytes
    const depth: nat
    var base: nat
    var searchDepth: nat

    constructor (b: Bytes, base: nat, depth: nat)
      ensures this.b == b && this.base == base && this.depth == depth && searchDepth == 0
    {
      this.b, this.base, this.depth, searchDepth := b, base, depth, 0;
    }

    /** The cursor stands inside `stack`, as deep as it has counted. */
    ghost predicate Inside(stack: seq<Body>, last: Word)
      reads this
    {
      StackAt(b, base, stack, last) && |stack| == searchDepth + 1
    }

    /** What a search may end with when the children `left` lie ahead. */
    ghost predicate Found(left: Body, last: Word, r: Option<Node>, rest: Body)
      reads this
    {
      match r
      case None => left == []
      case Some(n) =>
        && left != [] && Denotes(b, n, left[0], depth + 1)
        && Inside([left[0].body, rest], last) && ChildrenOf(rest) == left[1..]
    }

    /** At the opening of a node: yields it when it lies directly below the start. */
    method Enter(ghost stack: seq<Body>, ghost last: Word) returns (ok: bool, r: Option<Node>, ghost rest: Body)
      requires Addressable(b) && base + 4 <= |b|
      modifies this
      ensures base > old(base)
      ensures old(Inside(stack, last)) && Token(stack, last) == BEGIN_NODE ==>
        ok && if r.Some? then Found(Left(stack), last, r, rest)
        else Inside([stack[0][0].body] + Below(stack), last) && |stack| > 1
    {
      ghost var good := Inside(stack, last) && Token(stack, last) == BEGIN_NODE;
      rest := [];
      var found, name, next := ReadNode(b, base, stack, last);
      base := next;
      if !found {
        return false, None, rest;
      }
      searchDepth := searchDepth + 1;
      if searchDepth == 1 {
        if good {
          rest := stack[0][1..];
          assert [stack[0][0].body] + Below(stack) == [stack[0][0].body, rest];
          TopAlone(b, base, stack[0][0].body, rest, last);
          LeftBelow(stack);
        }
        return true, Some(Node(base, name, depth + 1)), rest;
      }
      return true, None, rest;
    }

    /** Moves over a property, a NOP or the end of a node deeper down. */
    method Pass(val: nat, ghost stack: seq<Body>, ghost last: Word) returns (ok: bool, ghost rest: seq<Body>)
      requires Addressable(b) && base + 4 <= |b| && val == Native(b, base)
      requires val != BEGIN_NODE && val != END && (val == END_NODE ==> searchDepth > 0)
      modifies this
      ensures ok ==> base > old(base)
      ensures old(Inside(stack, last)) ==> ok && Inside(rest, last) && Left(rest) == Left(stack)
    {
      ghost var good := Inside(stack, last);
      rest := stack;
      if good {
        ByToken(b, base, stack, last);
      }
      if val == END_NODE {
        rest := if good then stack[1..] else stack;
        base := base + 4;
        searchDepth := searchDepth - 1;
        return true, rest;
      }
      rest := if good && stack[0] != [] then Below(stack) else stack;
      if val == PROP {
        var len, nameOffset, next;
        ok, len, nameOffset, next := SkipProp(b, base, stack, last);
        base := if ok then next else base;
        return ok, rest;
      }
      base := base + 4;
      return val == NOP, rest;
    }

    /** Inside any printed stack, the first child that the outermost body still holds, with the cursor at its body. */
    method Next(ghost stack: seq<Body>, ghost last: Word) returns (ok: bool, r: Option<Node>, ghost rest: Body)
      requires Addressable(b)
      modifies this
      ensures ok && r.Some? ==> old(base) < base && old(base) < |b|
      ensures old(Inside(stack, last)) ==> ok && Found(Left(stack), last, r, rest)
    {
      ghost var good, cur := Inside(stack, last), stack;
      ghost var left: Body := if good then Left(stack) else [];
      rest := [];
      while true
        invariant good == old(Inside(stack, last))
        invariant old(base) <= base
        invariant good ==> Inside(cur, last) && Left(cur) == left
        decreases |b| - base
      {
        if good {
          ByToken(b, base, cur, last);
        }
        if base + 4 > |b| {
          return false, None, rest;
        }
        var val := Native(b, base);
        if val == END {
          return true, None, rest;
        }
        if val == END_NODE && searchDepth == 0 {
          base := base + 4;
          return true, None, rest;
        }
        if val == BEGIN_NODE {
          ok, r, rest := Enter(cur, last);
          if !ok || r.Some? {
            return;
          }
          cur := if good then [cur[0][0].body] + Below(cur) else cur;
        } else {
          ok, cur := Pass(val, cur, last);
          if !ok {
            return false, None, rest;
          }
        }
      }
    }
  }

  lemma AfterFirst(b: Bytes, strings: nat, body: Body)
    requires body != [] && NamesIn(b, strings, body)
    ensures NamesIn(b, strings, body[1..]) && Below([body]) == [body[1..]]
    ensures body[0].Prop? ==>
      HasString(b, strings + body[0].nameOffset) && LeadingProps(body) == [body[0]] + LeadingProps(body[1..])
    ensures body[0].Nop? ==> LeadingProps(body) == LeadingProps(body[1..])
  {
    assert forall i :: 0 <= i < |body[1..]| ==> body[1..][i] == body[i + 1];
  }

  lemma BodyToken(b: Bytes, pos: nat, body: Body)
    requires BodyAt(b, pos, body)
    ensures pos + 4 <= |b|
    ensures Native(b, pos) == END_NODE ==> body == []
    ensures Native(b, pos) == BEGIN_NODE ==> body != [] && body[0].Child?
    ensures Native(b, pos) == PROP ==> body != [] && body[0].Prop?
    ensures Native(b, pos) == NOP ==> body != [] && body[0].Nop? && BodyAt(b, pos + 4, body[1..])
    ensures Native(b, pos) in {END_NODE, BEGIN_NODE, PROP, NOP}
  {
    ReadToken(b, pos, [body], END_NODE);
    if body != [] && body[0].Nop? {
      AfterItem(b, pos, [body], END_NODE, pos + 4);
      assert Below([body]) == [body[1..]];
    }
  }

  /** Walks over the properties of a node, up to the first token that is not one. */
  class PropIterator {
    const b: Bytes
    const strings: nat
    var base: nat

    constructor (b: Bytes, strings: nat, base: nat)
      ensures this.b == b && this.strings == strings && this.base == base
    {
      this.b, this.strings, this.base := b, strings, base;
    }

    /** The cursor has `body` before it, and the names of its properties can be found. */
    ghost predicate Inside(body: Body)
      reads this
    {
      BodyAt(b, base, body) && NamesIn(b, strings, body)
    }

    /** Reads the property at the cursor. */
    method Take(ghost body: Body) returns (ok: bool, p: Prop)
      requires Addressable(b) && base + 4 <= |b|
      modifies this
      ensures ok ==> base > old(base)
      ensures old(Inside(body)) && body != [] && body[0].Prop? ==>
        ok && DenotesProp(b, strings, p, body[0]) && Inside(body[1..])
    {
      ghost var good := Inside(body) && body != [] && body[0].Prop?;
      if good {
        AfterFirst(b, strings, body);
      }
      var read, len, nameOffset, next := SkipProp(b, base, [body], END_NODE);
      if !read {
        return false, Property([], []);
      }
      var found, name := ReadString(b, strings + nameOffset);
      var valBase := base + 12;
      base := next;
      if !found || valBase + len > |b| {
        return false, Property([], []);
      }
      return true, Property(name, b[valBase..valBase + len]);
    }

    method Next(ghost body: Body) returns (ok: bool, r: Option<Prop>, ghost rest: Body)
      requires Addressable(b)
      modifies this
      ensures ok && r.Some? ==> old(base) < base && old(base) < |b|
      ensures old(Inside(body)) ==> (
        ok && match r
        case None => LeadingProps(body) == []
        case Some(p) =>
          && LeadingProps(body) != [] && DenotesProp(b, strings, p, LeadingProps(body)[0])
          && Inside(rest) && LeadingProps(rest) == LeadingProps(body)[1..])
    {
      ghost var good := Inside(body);
      rest := body;
      while true
        invariant old(base) <= base
        invariant good == old(Inside(body))
        invariant good ==> Inside(rest) && LeadingProps(rest) == LeadingProps(body)
        decreases |b| - base
      {
        if good {
          BodyToken(b, base, rest);
          if rest != [] {
            AfterFirst(b, strings, rest);
          }
        }
        if base + 4 > |b| {
          return false, None, rest;
        }
        var val := Native(b, base);
        if val == BEGIN_NODE || val == END_NODE || val == END {
          base := base + 4;
          return true, None, rest;
        } else if val == PROP {
          var read, p := Take(rest);
          rest := if good then rest[1..] else rest;
          return read, if read then Some(p) else None, rest;
        } else if val == NOP {
          if good {
            rest := rest[1..];
          }
          base := base + 4;
        } else {
          return false, None, rest;
        }
      }
    }
  }
}
