/** The same list used by one thread at a time: its operations are those of a sequence. */
module CasListAlone {
  import opened Options
  import opened CasList

  /** The position of the first element that is wanted, or the length. */
  function FirstWanted(s: seq<Elem>, wanted: Elem -> bool): (i: nat)
    ensures i <= |s| && (i < |s| ==> wanted(s[i])) && forall j :: 0 <= j < i ==> !wanted(s[j])
  {
    if s == [] || wanted(s[0]) then 0 else 1 + FirstWanted(s[1..], wanted)
  }

  class List {
    var heap: map<Ptr, Node>
    var first: Option<Ptr>
    ghost var chain: seq<Ptr>

    ghost predicate Valid()
      reads this
    {
      ChainOk(heap, first, chain)
    }

    ghost function Contents(): seq<Elem>
      reads this
    {
      Elems(heap, chain)
    }

    constructor ()
      ensures Valid() && Contents() == []
    {
      heap, first, chain := map[], None, [];
    }

    /** The cell after `i` steps from the head. */
    ghost function CellAt(i: nat): Cell
      requires i <= |chain|
      reads this
    {
      if i == 0 then Head else At(chain[i - 1])
    }

    method LoadNext(c: Cell, ghost i: nat) returns (next: Option<Ptr>)
      requires Valid() && i <= |chain| && c == CellAt(i)
      ensures next == LinkAt(chain, i)
      ensures next.Some? ==> next.value in heap && NodeOk(heap, chain, i)
    {
      assert i > 0 ==> NodeOk(heap, chain, i - 1);
      assert i < |chain| ==> NodeOk(heap, chain, i);
      next := if c.Head? then first else heap[c.ptr].next;
    }

    /** Compare-exchange of the link of cell `c`. */
    method Exchange(c: Cell, expected: Option<Ptr>, next: Option<Ptr>) returns (ok: bool)
      requires c.At? ==> c.ptr in heap
      modifies this`heap, this`first
      ensures ok <==> old(if c.Head? then first else heap[c.ptr].next) == expected
      ensures !ok ==> heap == old(heap) && first == old(first)
      ensures ok && c.Head? ==> heap == old(heap) && first == next
      ensures ok && c.At? ==> first == old(first) && heap == old(heap)[c.ptr := old(heap)[c.ptr].(next := next)]
    {
      ok := (if c.Head? then first else heap[c.ptr].next) == expected;
      if ok {
        if c.Head? {
          first := next;
        } else {
          heap := heap[c.ptr := heap[c.ptr].(next := next)];
        }
      }
    }

    method TryPush(node: Ptr) returns (ok: bool)
      requires Valid() && node in heap && node !in chain
      modifies this`heap, this`first, this`chain
      ensures ok && Valid() && Contents() == [old(heap)[node].elem] + old(Contents())
    {
      var before := first;
      ghost var m := heap;
      AllInHeap();
      heap := heap[node := heap[node].(next := before)];
      ChainFrame(m, heap, first, chain);
      ElemsFrame(m, heap, chain);
      ok := Exchange(Head, before, Some(node));
      ChainCons(heap, before, chain, node);
      ElemsCons(heap, node, chain);
      chain := [node] + chain;
    }

    lemma AllInHeap()
      requires Valid()
      ensures forall p :: p in chain ==> p in heap
    {
      forall i | 0 <= i < |chain|
        ensures chain[i] in heap
      {
        assert NodeOk(heap, chain, i);
      }
    }

    /** `ptr` is the address that the allocator returned. */
    method Push(elem: Elem, ptr: Ptr)
      requires Valid() && ptr !in heap
      modifies this
      ensures Valid() && Contents() == [elem] + old(Contents())
    {
      AllInHeap();
      ghost var m := heap;
      heap := heap[ptr := Node(elem, None)];
      ChainFrame(m, heap, first, chain);
      ElemsFrame(m, heap, chain);
      // alone, the first attempt succeeds
      var ok := TryPush(ptr);
      assert ok;
    }

    /** Unlinks and frees the node `cur` behind the cell `prev`. */
    method Unlink(prev: Cell, cur: Ptr, ghost i: nat) returns (r: Option<Elem>)
      requires Valid() && i < |chain| && prev == CellAt(i) && cur == chain[i]
      modifies this
      ensures Valid() && r == Some(old(Contents())[i]) && Contents() == RemoveAt(old(Contents()), i)
    {
      AllInHeap();
      assert NodeOk(heap, chain, i) && (i > 0 ==> NodeOk(heap, chain, i - 1));
      ghost var m, first0, chain' := heap, first, RemoveAt(chain, i);
      var next := heap[cur].next;
      var elem := heap[cur].elem;
      var ok := Exchange(prev, Some(cur), next);
      assert ok;
      UnlinkChain(m, heap, first0, first, chain, i);
      ElemsRemoveAt(m, chain, i);
      ghost var m1 := heap;
      heap := heap - {cur};
      ChainFrame(m1, heap, first, chain');
      ElemsFrame(m, heap, chain');
      chain := chain';
      return Some(elem);
    }

    /** Takes out the `nth` element, counted from 1; position 0 is the dummy head, which stays. */
    method RemoveNth(nth: nat) returns (r: Option<Elem>)
      requires Valid()
      modifies this
      ensures Valid()
      ensures var c := old(Contents());
        if 1 <= nth <= |c| then r == Some(c[nth - 1]) && Contents() == RemoveAt(c, nth - 1)
        else r == None && Contents() == c
    {
      var cur, prev: Option<Cell> := Head, None;
      var i := 0;
      while i < nth
        invariant Valid() && heap == old(heap) && chain == old(chain) && first == old(first)
        invariant i <= nth && i <= |chain| && cur == CellAt(i)
        invariant prev == if i == 0 then None else Some(CellAt(i - 1))
      {
        var next := LoadNext(cur, i);
        if next.None? {
          return None;
        }
        prev := Some(cur);
        cur := At(next.value);
        i := i + 1;
      }
      if prev.None? {
        return None;
      }
      r := Unlink(prev.value, cur.ptr, nth - 1);
    }

    method Pop() returns (r: Option<Elem>)
      requires Valid()
      modifies this
      ensures Valid()
      ensures var c := old(Contents());
        if c == [] then r == None && Contents() == c else r == Some(c[0]) && Contents() == c[1..]
    {
      ghost var c := Contents();
      r := RemoveNth(1);
      if c != [] { assert RemoveAt(c, 0) == c[1..]; }
    }

    /** Takes out the first element that is wanted. */
    method Remove(wanted: Elem -> bool) returns (r: Option<Elem>)
      requires Valid()
      modifies this
      ensures Valid()
      ensures var c := old(Contents()); var i := FirstWanted(c, wanted);
        if i < |c| then r == Some(c[i]) && Contents() == RemoveAt(c, i) else r == None && Contents() == c
    {
      var cur := Head;
      ghost var i := 0;
      while true
        invariant Valid() && heap == old(heap) && chain == old(chain) && first == old(first)
        invariant i <= |chain| && cur == CellAt(i) && forall j :: 0 <= j < i ==> !wanted(Contents()[j])
        decreases |chain| - i
      {
        var next := LoadNext(cur, i);
        if next.None? {
          assert i == |chain| && FirstWanted(Contents(), wanted) == i;
          return None;
        }
        var prev := cur;
        cur := At(next.value);
        if wanted(heap[next.value].elem) {
          assert FirstWanted(Contents(), wanted) == i;
          r := Unlink(prev, next.value, i);
          return r;
        }
        i := i + 1;
      }
    }

    /** What the iterator yields. */
    method Iterate() returns (items: seq<Elem>)
      requires Valid()
      ensures items == Contents()
    {
      items := [];
      var cur := LoadNext(Head, 0);
      ghost var i := 0;
      while cur.Some?
        invariant i <= |chain| && cur == LinkAt(chain, i) && items == Contents()[..i]
        decreases |chain| - i
      {
        assert NodeOk(heap, chain, i);
        items := items + [heap[cur.value].elem];
        cur := heap[cur.value].next;
        i := i + 1;
      }
    }
  }
}
