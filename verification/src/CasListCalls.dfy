/** What the list's pushes and removals come to: over every run no push is lost, and a call that runs without
    interference from any reachable state does what it does to a sequence. */
module CasListCalls {
  import opened Options
  import opened CasList

  // No push is lost

  /** The elements whose pushing began. */
  function Begun(steps: seq<Step>): multiset<Elem> {
    if steps == [] then multiset{}
    else
      var step := steps[|steps| - 1];
      Begun(steps[..|steps| - 1]) + if step.Push? then multiset{step.elem} else multiset{}
  }

  /** The pushers that still hold a node with the element `e`. */
  function Holding(s: State, e: Elem): set<nat> {
    set id | id in s.pushers && ElemOf(s.heap, s.pushers[id].node) == e
  }

  lemma HoldingStep(s: State, step: Step, e: Elem)
    requires Inv(s) && Enabled(s, step)
    ensures Holding(Apply(s, step), e) ==
      match step
      case Push(id, elem, _) => Holding(s, e) + if elem == e then {id} else {}
      case PushExchange(id) => if Succeeds(s, step) then Holding(s, e) - {id} else Holding(s, e)
      case _ => Holding(s, e)
  {
    var s' := Apply(s, step);
    forall id | id in s.pushers
      ensures s.pushers[id].node in s.heap
      ensures id in s'.pushers ==>
        s'.pushers[id].node == s.pushers[id].node
        && ElemOf(s'.heap, s.pushers[id].node) == ElemOf(s.heap, s.pushers[id].node)
    {
      assert PusherOk(s, s.pushers[id]);
    }
  }

  lemma CountStep(s: State, step: Step, e: Elem)
    requires Inv(s) && Enabled(s, step)
    ensures var s' := Apply(s, step);
      s'.pushed[e] + |Holding(s', e)| == s.pushed[e] + |Holding(s, e)| + if step.Push? && step.elem == e then 1 else 0
  {
    HoldingStep(s, step, e);
    if step.PushExchange? && Succeeds(s, step) {
      assert PusherOk(s, s.pushers[step.id]);
      assert step.id in Holding(s, e) <==> s.heap[s.pushers[step.id].node].elem == e;
    }
  }

  /** Over every run, each element is pushed as often as its pushing began, but for the pushes that are on their way. */
  lemma {:induction false} NoPushLost(steps: seq<Step>, e: Elem)
    requires After(steps).Some?
    ensures var s := After(steps).value; Begun(steps)[e] == s.pushed[e] + |Holding(s, e)|
  {
    if steps != [] {
      var before := steps[..|steps| - 1];
      NoPushLost(before, e);
      RunKeeps(before);
      CountStep(After(before).value, steps[|steps| - 1], e);
    }
  }

  /** A push that gets through puts its node at the front, and only then lets go of it. */
  lemma PushedInFront(steps: seq<Step>, id: nat)
    requires After(steps).Some? && Enabled(After(steps).value, PushExchange(id))
    ensures var s := After(steps).value; var s', node := Apply(s, PushExchange(id)), s.pushers[id].node;
      && (id !in s'.pushers <==> Succeeds(s, PushExchange(id)))
      && (Succeeds(s, PushExchange(id)) ==>
            && s'.first == Some(node) && s'.chain == [node] + s.chain
            && Elems(s'.heap, s'.chain) == [s.heap[node].elem] + Elems(s.heap, s.chain))
      && (!Succeeds(s, PushExchange(id)) ==> s'.chain == s.chain && s'.heap == s.heap && s'.pushers[id] == Allocated(node))
  {
    RunKeeps(steps);
    var s := After(steps).value;
    assert PusherOk(s, s.pushers[id]);
  }

  // Calls alone

  /** The state after the steps; `None` if one of them was not possible. */
  function RunFrom(s: State, steps: seq<Step>): Option<State>
    decreases |steps|
  {
    if steps == [] then Some(s)
    else if Enabled(s, steps[0]) then RunFrom(Apply(s, steps[0]), steps[1..])
    else None
  }

  lemma OneStep(s: State, step: Step, steps: seq<Step>)
    requires Enabled(s, step)
    ensures RunFrom(s, [step] + steps) == RunFrom(Apply(s, step), steps)
  {
    assert ([step] + steps)[1..] == steps;
  }

  lemma ThreeSteps(s: State, a: Step, b: Step, c: Step)
    requires Enabled(s, a) && Enabled(Apply(s, a), b) && Enabled(Apply(Apply(s, a), b), c)
    ensures RunFrom(s, [a, b, c]) == Some(Apply(Apply(Apply(s, a), b), c))
  {
    OneStep(s, a, [b, c]);
    OneStep(Apply(s, a), b, [c]);
    OneStep(Apply(Apply(s, a), b), c, []);
  }

  lemma {:induction false} RunFromSplit(s: State, a: seq<Step>, b: seq<Step>)
    requires RunFrom(s, a).Some?
    ensures RunFrom(s, a + b) == RunFrom(RunFrom(s, a).value, b)
    decreases |a|
  {
    if a == [] {
      assert a + b == b;
    } else {
      RunFromSplit(Apply(s, a[0]), a[1..], b);
      assert (a + b)[1..] == a[1..] + b;
    }
  }

  lemma {:induction false} RunFromKeeps(s: State, steps: seq<Step>)
    requires Inv(s)
    ensures RunFrom(s, steps).Some? ==> Inv(RunFrom(s, steps).value)
    decreases |steps|
  {
    if steps != [] && Enabled(s, steps[0]) {
      InvStep(s, steps[0]);
      RunFromKeeps(Apply(s, steps[0]), steps[1..]);
    }
  }

  function PushSteps(id: nat, elem: Elem, ptr: Ptr): seq<Step> {
    [Push(id, elem, ptr)] + [LoadFirst(id), StoreNext(id), PushExchange(id)]
  }

  /** A push puts its element in front of the others, at the first try. */
  lemma PushAlone(steps: seq<Step>, id: nat, elem: Elem, ptr: Ptr)
    requires After(steps).Some? && Enabled(After(steps).value, Push(id, elem, ptr))
    ensures var s := After(steps).value; var end := RunFrom(s, PushSteps(id, elem, ptr));
      && end.Some? && end.value.chain == [ptr] + s.chain
      && Elems(end.value.heap, end.value.chain) == [elem] + Elems(s.heap, s.chain)
      && end.value.pushers == s.pushers && end.value.remover == s.remover
      && end.value.pushed == s.pushed + multiset{elem} && end.value.removed == s.removed
  {
    RunKeeps(steps);
    var s := After(steps).value;
    var s1 := Apply(s, Push(id, elem, ptr));
    InvStep(s, Push(id, elem, ptr));
    OneStep(s, Push(id, elem, ptr), [LoadFirst(id), StoreNext(id), PushExchange(id)]);
    ThreeSteps(s1, LoadFirst(id), StoreNext(id), PushExchange(id));
    ChainInHeap(s);
    var s4 := Apply(Apply(Apply(s1, LoadFirst(id)), StoreNext(id)), PushExchange(id));
    assert s4.pushers == s.pushers;
    ElemsCons(s4.heap, ptr, s.chain);
    ElemsFrame(s.heap, s4.heap, s.chain);
  }

  /** Where a removal finds its element: the index, or the length if there is no such element. */
  function Target(req: Request, elems: seq<Elem>): (i: nat)
    ensures i <= |elems|
    ensures req.Nth? ==> if 1 <= req.left <= |elems| then i == req.left - 1 else i == |elems|
    ensures req.Where? ==> (i < |elems| ==> elems[i] in req.wanted) && forall j :: 0 <= j < i ==> elems[j] !in req.wanted
    decreases |elems|
  {
    match req
    case Nth(n) => if 1 <= n <= |elems| then n - 1 else |elems|
    case Where(wanted) => if elems == [] || elems[0] in wanted then 0 else 1 + Target(req, elems[1..])
  }

  function Walks(k: nat): seq<Step> {
    if k == 0 then [] else [Walk] + Walks(k - 1)
  }

  /** The steps of a removal that finds its element at index `i` of `n`, or not at all if that is `n`. */
  function RemoveSteps(req: Request, i: nat, n: nat): seq<Step> {
    [Remove(req)] + if req == Nth(0) then [] else WalkSteps(i, n)
  }

  function WalkSteps(i: nat, n: nat): seq<Step> {
    Walks(i + 1) + if i < n then [ReadNext, RemoveExchange, Free] else []
  }

  function CellAt(chain: seq<Ptr>, k: nat): Cell
    requires k <= |chain|
  {
    if k == 0 then Head else At(chain[k - 1])
  }

  /** What is left of the request after `k` nodes. */
  function Rest(req: Request, k: nat): Request {
    match req
    case Nth(n) => Nth(if n > k then n - k else 0)
    case _ => req
  }

  /** `t` is `s` but for what the remover is doing. */
  predicate SameList(s: State, t: State) {
    t == s.(remover := t.remover, asked := t.asked, start := t.start, seen := t.seen)
  }

  lemma WalkOne(s: State, t: State, k: nat, req: Request)
    requires Inv(s) && SameList(s, t) && k <= |s.chain| && t.remover == Walking(CellAt(s.chain, k), req)
    ensures Enabled(t, Walk) && SameList(s, Apply(t, Walk))
    ensures Apply(t, Walk).remover ==
      if k == |s.chain| then Idle
      else Visit(Elems(s.heap, s.chain)[k], CellAt(s.chain, k), s.chain[k], req)
  {
    ChainInHeap(s);
    if k > 0 { assert NodeOk(s.heap, s.chain, k - 1); }
  }

  lemma WalkNext(s: State, t: State, k: nat, req: Request, i: nat)
    requires Inv(s) && SameList(s, t) && i == Target(req, Elems(s.heap, s.chain)) && k <= i && (req.Nth? ==> k < req.left)
    requires t.remover == Walking(CellAt(s.chain, k), Rest(req, k))
    ensures Enabled(t, Walk) && SameList(s, Apply(t, Walk))
    ensures k < i ==>
      Apply(t, Walk).remover == Walking(CellAt(s.chain, k + 1), Rest(req, k + 1)) && (req.Nth? ==> k + 1 < req.left)
    ensures k == i ==> WalkedTo(s, Apply(t, Walk), i)
  {
    WalkOne(s, t, k, Rest(req, k));
  }

  /** The walk from index `k` on, with the request as it is then. */
  lemma {:induction false} WalkOn(s: State, t: State, k: nat, req: Request, i: nat) returns (t': State)
    requires Inv(s) && SameList(s, t) && i == Target(req, Elems(s.heap, s.chain)) && k <= i && (req.Nth? ==> k < req.left)
    requires t.remover == Walking(CellAt(s.chain, k), Rest(req, k))
    ensures RunFrom(t, Walks(i + 1 - k)) == Some(t') && WalkedTo(s, t', i)
    decreases i - k
  {
    WalkNext(s, t, k, req, i);
    OneStep(t, Walk, Walks(i - k));
    t' := Apply(t, Walk);
    if k < i {
      t' := WalkOn(s, t', k + 1, req, i);
    }
  }

  /** The walk has come to node `i` of the chain, or to its end. */
  predicate WalkedTo(s: State, t: State, i: nat)
    requires i <= |s.chain|
  {
    && SameList(s, t)
    && if i == |s.chain| then t.remover == Idle
       else t.remover.Chosen? && t.remover.prev == CellAt(s.chain, i) && t.remover.node == s.chain[i]
  }

  /** `t` is `s` without node `i` of the chain. */
  ghost predicate TakenOut(s: State, t: State, i: nat)
    requires i < |s.chain|
  {
    && t.remover == Idle && t.chain == RemoveAt(s.chain, i) && s.chain[i] !in t.heap
    && Elems(t.heap, t.chain) == RemoveAt(Elems(s.heap, s.chain), i)
    && t.removed == s.removed + multiset{Elems(s.heap, s.chain)[i]} && t.pushed == s.pushed && t.pushers == s.pushers
  }

  lemma IndexAt(chain: seq<Ptr>, i: nat)
    requires i < |chain| && forall j, k :: 0 <= j < k < |chain| ==> chain[j] != chain[k]
    ensures IndexOf(chain, chain[i]) == i
  {
  }

  /** The exchange of a removal that nobody disturbed. */
  lemma Unlinks(s: State, i: nat)
    requires Inv(s) && i < |s.chain| && s.remover.Read? && s.remover.prev == CellAt(s.chain, i) && s.remover.node == s.chain[i]
    ensures Enabled(s, RemoveExchange)
    ensures var t := Apply(s, RemoveExchange);
      && t.remover == Unlinked(s.chain[i]) && t.chain == RemoveAt(s.chain, i) && t.pushers == s.pushers
      && s.chain[i] in t.heap && s.chain[i] !in t.chain && Elems(t.heap, t.chain) == RemoveAt(Elems(s.heap, s.chain), i)
      && t.removed == s.removed + multiset{Elems(s.heap, s.chain)[i]} && t.pushed == s.pushed
  {
    ChainInHeap(s);
    if i > 0 { assert NodeOk(s.heap, s.chain, i - 1); }
    assert Next(s, s.remover.prev) == Some(s.chain[i]);
    IndexAt(s.chain, i);
    var t := Apply(s, RemoveExchange);
    UnlinkKeepsChain(s, t, s.remover.prev, s.remover.node, s.remover.req, s.remover.next);
    UnlinkShape(s, t, s.remover.prev, s.remover.node, s.remover.req, s.remover.next);
    ElemsRemoveAt(s.heap, s.chain, i);
    ElemsFrame(s.heap, t.heap, t.chain);
  }

  /** The node found is taken out and freed. */
  lemma CutOut(s: State, t: State, i: nat)
    requires Inv(s) && SameList(s, t) && Inv(t) && i < |s.chain|
    requires WalkedTo(s, t, i)
    ensures var end := RunFrom(t, [ReadNext, RemoveExchange, Free]);
      end.Some? && TakenOut(s, end.value, i)
  {
    ChainInHeap(s);
    var t1 := Apply(t, ReadNext);
    InvStep(t, ReadNext);
    Unlinks(t1, i);
    var t2 := Apply(t1, RemoveExchange);
    InvStep(t1, RemoveExchange);
    ChainInHeap(t2);
    ThreeSteps(t, ReadNext, RemoveExchange, Free);
    ElemsFrame(t2.heap, Apply(t2, Free).heap, t2.chain);
  }

  /** A removal from any reachable state takes out the element asked for, which is the n-th or the first wanted one, and
      frees its node; where there is none it changes nothing. */
  lemma RemoveAlone(steps: seq<Step>, req: Request)
    requires After(steps).Some? && After(steps).value.remover.Idle?
    ensures var s := After(steps).value; var i, n := Target(req, Elems(s.heap, s.chain)), |s.chain|;
      var end := RunFrom(s, RemoveSteps(req, i, n));
      && end.Some?
      && (i < n ==> TakenOut(s, end.value, i))
      && (i == n ==> SameList(s, end.value) && end.value.remover == Idle)
  {
    RunKeeps(steps);
    var s := After(steps).value;
    var i, n := Target(req, Elems(s.heap, s.chain)), |s.chain|;
    OneStep(s, Remove(req), if req == Nth(0) then [] else WalkSteps(i, n));
    InvStep(s, Remove(req));
    if req != Nth(0) {
      WalkAlone(s, Apply(s, Remove(req)), req, i);
    }
  }

  lemma WalkAlone(s: State, t: State, req: Request, i: nat)
    requires Inv(s) && Inv(t) && SameList(s, t) && req != Nth(0) && t.remover == Walking(Head, req)
    requires i == Target(req, Elems(s.heap, s.chain))
    ensures var end := RunFrom(t, WalkSteps(i, |s.chain|));
      && end.Some?
      && (i < |s.chain| ==> TakenOut(s, end.value, i))
      && (i == |s.chain| ==> SameList(s, end.value) && end.value.remover == Idle)
  {
    var t' := WalkOn(s, t, 0, req, i);
    RunFromSplit(t, Walks(i + 1), if i < |s.chain| then [ReadNext, RemoveExchange, Free] else []);
    RunFromKeeps(t, Walks(i + 1));
    if i < |s.chain| {
      CutOut(s, t', i);
    }
  }
}
