/** The structure block of a flattened device tree, printed as section 5.4 of the Devicetree Specification describes
    it: tokens are 32-bit big-endian words, names end with a zero byte, everything is padded to four bytes, and NOP
    tokens may stand anywhere between items. */
module FdtPrint {
  type Byte = x: nat | x < 256

  type Bytes = seq<Byte>

  const BEGIN_NODE: nat := 0x1
  const END_NODE: nat := 0x2
  const PROP: nat := 0x3
  const NOP: nat := 0x4
  const END: nat := 0x9

  const U32_LIMIT: nat := 0x1_0000_0000

  type Word = n: nat | n < U32_LIMIT

  type Value = s: Bytes | |s| < U32_LIMIT

  type Name = s: Bytes | 0 !in s

  /** What stands between the tokens that open and close a node. */
  datatype Item = Nop | Prop(nameOffset: Word, value: Value) | Child(name: Name, body: seq<Item>)

  type Body = seq<Item>

  function BigEndian(n: Word): (r: Bytes)
    ensures |r| == 4
  {
    var (hi, lo) := (n / 0x100, n % 0x100);
    var (hi', lo') := (hi / 0x100, hi % 0x100);
    [hi' / 0x100, hi' % 0x100, lo', lo]
  }

  lemma MostSignificantFirst(n: Word)
    ensures var r := BigEndian(n); n == 0x100_0000 * (r[0] as nat) + 0x1_0000 * (r[1] as nat) + 0x100 * (r[2] as nat) + (r[3] as nat)
  {
  }

  function Native(b: Bytes, pos: nat): (n: nat)
    requires pos + 4 <= |b|
    ensures n < U32_LIMIT
  {
    (((b[pos] as nat) * 0x100 + (b[pos + 1] as nat)) * 0x100 + (b[pos + 2] as nat)) * 0x100 + (b[pos + 3] as nat)
  }

  /** A whole number of words. */
  predicate Whole(n: nat) {
    n == 0 || (n >= 4 && Whole(n - 4))
  }

  lemma {:induction false} WholeIff(n: nat)
    ensures Whole(n) <==> n % 4 == 0
  {
    if n >= 4 { WholeIff(n - 4); }
  }

  lemma {:induction false} WholeSum(a: nat, b: nat)
    requires Whole(a) && Whole(b)
    ensures Whole(a + b)
  {
    if a > 0 { WholeSum(a - 4, b); }
  }

  function Padding(n: nat): (r: Bytes)
    ensures Whole(n + |r|) && |r| < 4
  {
    WholeIff(n);
    WholeIff(n + 4 - n % 4);
    if n % 4 == 0 then [] else seq(4 - n % 4, _ => 0)
  }

  /** Every printed item is a whole number of words. */
  function PrintItem(item: Item): (r: Bytes)
    ensures |r| >= 4 && Whole(|r|)
    decreases item, 0
  {
    assert Whole(4) && Whole(12);
    match item
    case Nop => BigEndian(NOP)
    case Prop(nameOffset, value) =>
      WholeSum(12, |value| + |Padding(|value|)|);
      BigEndian(PROP) + BigEndian(|value|) + BigEndian(nameOffset) + value + Padding(|value|)
    case Child(name, body) =>
      WholeSum(|name| + 1 + |Padding(|name| + 1)|, |Print(body)|);
      BigEndian(BEGIN_NODE) + name + [0] + Padding(|name| + 1) + Print(body) + BigEndian(END_NODE)
  }

  function Print(body: Body): (r: Bytes)
    ensures Whole(|r|)
    decreases body, 1
  {
    if body == [] then [] else
      WholeSum(|PrintItem(body[0])|, |Print(body[1..])|);
      PrintItem(body[0]) + Print(body[1..])
  }

  /** The direct children, in order. */
  function ChildrenOf(body: Body): (r: Body)
    ensures forall i :: 0 <= i < |r| ==> r[i].Child? && r[i] in body
  {
    if body == [] then []
    else (if body[0].Child? then [body[0]] else []) + ChildrenOf(body[1..])
  }

  /** The properties, in order. */
  function PropsOf(body: Body): (r: Body)
    ensures forall i :: 0 <= i < |r| ==> r[i].Prop? && r[i] in body
  {
    if body == [] then []
    else (if body[0].Prop? then [body[0]] else []) + PropsOf(body[1..])
  }

  /** Children and properties are picked out one by one, in order, and nothing else is. */
  lemma {:induction false} ChildrenPicked(a: Body, item: Item)
    ensures ChildrenOf(a + [item]) == ChildrenOf(a) + if item.Child? then [item] else []
    decreases a
  {
    if a != [] {
      var rest := a[1..];
      ChildrenPicked(rest, item);
      assert (a + [item])[1..] == rest + [item];
    }
  }

  lemma {:induction false} PropsPicked(a: Body, item: Item)
    ensures PropsOf(a + [item]) == PropsOf(a) + if item.Prop? then [item] else []
    decreases a
  {
    if a != [] {
      var rest := a[1..];
      PropsPicked(rest, item);
      assert (a + [item])[1..] == rest + [item];
    }
  }

  /** Properties come before children. */
  predicate PropsFirst(body: Body) {
    forall i, j :: 0 <= i < j < |body| && body[i].Child? ==> !body[j].Prop?
  }

  // Finding printed text in a larger block

  ghost predicate At(b: Bytes, pos: nat, s: Bytes) {
    pos + |s| <= |b| && b[pos..pos + |s|] == s
  }

  lemma AtSplit(b: Bytes, pos: nat, s: Bytes, t: Bytes)
    ensures At(b, pos, s + t) <==> At(b, pos, s) && At(b, pos + |s|, t)
  {
    if At(b, pos, s) && At(b, pos + |s|, t) {
      assert b[pos..pos + |s + t|] == b[pos..pos + |s|] + b[pos + |s|..pos + |s| + |t|];
    }
    if At(b, pos, s + t) {
      assert b[pos..pos + |s|] == b[pos..pos + |s + t|][..|s|];
      assert b[pos + |s|..pos + |s| + |t|] == b[pos..pos + |s + t|][|s|..];
    }
  }

  lemma AtIndex(b: Bytes, pos: nat, s: Bytes, i: nat)
    requires At(b, pos, s) && i < |s|
    ensures b[pos + i] == s[i]
  {
    assert b[pos..pos + |s|][i] == b[pos + i];
  }

  lemma AfterText(b: Bytes, pos: nat, s: Bytes, t: Bytes)
    requires Whole(pos) && Whole(|s|) && At(b, pos, s + t)
    ensures At(b, pos, s) && At(b, pos + |s|, t) && Whole(pos + |s|)
  {
    AtSplit(b, pos, s, t);
    WholeSum(pos, |s|);
  }

  /** Reading back a printed word. */
  lemma AtWord(b: Bytes, pos: nat, n: nat)
    requires n < U32_LIMIT && At(b, pos, BigEndian(n))
    ensures pos + 4 <= |b| && Native(b, pos) == n
  {
    var s := BigEndian(n);
    AtIndex(b, pos, s, 0);
    AtIndex(b, pos, s, 1);
    AtIndex(b, pos, s, 2);
    AtIndex(b, pos, s, 3);
  }

  // Bodies one inside the other, as they remain to be read

  /** `stack[0]` is what remains of the innermost body; the outermost one is closed by the token `last`. */
  function PrintStack(stack: seq<Body>, last: Word): (r: Bytes)
    ensures Whole(|r|)
  {
    if stack == [] then []
    else
      WholeSum(|Print(stack[0])|, |PrintStack(stack[1..], last)|);
      Print(stack[0]) + BigEndian(Closing(stack, last)) + PrintStack(stack[1..], last)
  }

  function Closing(stack: seq<Body>, last: Word): Word {
    if |stack| == 1 then last else END_NODE
  }

  ghost predicate StackAt(b: Bytes, pos: nat, stack: seq<Body>, last: Word) {
    Whole(pos) && (last == END_NODE || last == END) && At(b, pos, PrintStack(stack, last))
  }

  /** The text of the body of a node, with the token that closes it. */
  ghost predicate BodyAt(b: Bytes, pos: nat, body: Body) {
    StackAt(b, pos, [body], END_NODE)
  }

  lemma Assoc(a: Bytes, b: Bytes, c: Bytes)
    ensures (a + b) + c == a + (b + c)
  {
  }

  function Below(stack: seq<Body>): (r: seq<Body>)
    requires stack != [] && stack[0] != []
    ensures |r| == |stack| && r[0] == stack[0][1..] && r[1..] == stack[1..]
  {
    [stack[0][1..]] + stack[1..]
  }

  lemma PrintMore(stack: seq<Body>, last: Word)
    requires stack != [] && stack[0] != []
    ensures PrintStack(stack, last) == PrintItem(stack[0][0]) + PrintStack(Below(stack), last)
  {
    var item, more, close := stack[0][0], stack[0][1..], BigEndian(Closing(stack, last));
    Assoc(PrintItem(item), Print(more), close);
    Assoc(PrintItem(item), Print(more) + close, PrintStack(stack[1..], last));
  }

  lemma StackAfter(b: Bytes, pos: nat, s: Bytes, stack: seq<Body>, last: Word)
    requires Whole(pos) && Whole(|s|) && (last == END_NODE || last == END)
    requires At(b, pos, s + PrintStack(stack, last))
    ensures At(b, pos, s) && StackAt(b, pos + |s|, stack, last)
  {
    AfterText(b, pos, s, PrintStack(stack, last));
  }

  /** At the end of a body stands the token that closes it. */
  lemma StackClosing(b: Bytes, pos: nat, stack: seq<Body>, last: Word)
    requires StackAt(b, pos, stack, last) && stack != [] && stack[0] == []
    ensures At(b, pos, BigEndian(Closing(stack, last))) && StackAt(b, pos + 4, stack[1..], last)
  {
    var close := BigEndian(Closing(stack, last));
    assert Print(stack[0]) + close == close;
    StackAfter(b, pos, close, stack[1..], last);
  }

  /** Otherwise its first item. */
  lemma StackItem(b: Bytes, pos: nat, stack: seq<Body>, last: Word)
    requires StackAt(b, pos, stack, last) && stack != [] && stack[0] != []
    ensures At(b, pos, PrintItem(stack[0][0]))
    ensures StackAt(b, pos + |PrintItem(stack[0][0])|, Below(stack), last)
  {
    PrintMore(stack, last);
    StackAfter(b, pos, PrintItem(stack[0][0]), Below(stack), last);
  }

  /** The opening of a child, up to its body. */
  function Opening(name: Name): (r: Bytes)
    ensures Whole(|r|) && |r| == 4 + |name| + 1 + |Padding(|name| + 1)|
  {
    BigEndian(BEGIN_NODE) + name + [0] + Padding(|name| + 1)
  }

  lemma PrintPush(body: Body, inner: seq<Body>, last: Word)
    requires inner != []
    ensures PrintStack([body] + inner, last) == (Print(body) + BigEndian(END_NODE)) + PrintStack(inner, last)
  {
    var stack := [body] + inner;
    assert stack[0] == body && stack[1..] == inner;
  }

  lemma PrintChild(name: Name, body: Body)
    ensures PrintItem(Child(name, body)) == Opening(name) + (Print(body) + BigEndian(END_NODE))
  {
    Assoc(Opening(name), Print(body), BigEndian(END_NODE));
  }

  /** Opening a child puts its body on top of the stack. */
  lemma StackChild(b: Bytes, pos: nat, stack: seq<Body>, last: Word)
    requires StackAt(b, pos, stack, last) && stack != [] && stack[0] != [] && stack[0][0].Child?
    ensures At(b, pos, Opening(stack[0][0].name))
    ensures StackAt(b, pos + |Opening(stack[0][0].name)|, [stack[0][0].body] + Below(stack), last)
  {
    var Child(name, body) := stack[0][0];
    PrintMore(stack, last);
    PrintChild(name, body);
    PrintPush(body, Below(stack), last);
    Assoc(Opening(name), Print(body) + BigEndian(END_NODE), PrintStack(Below(stack), last));
    StackAfter(b, pos, Opening(name), [body] + Below(stack), last);
  }
}
