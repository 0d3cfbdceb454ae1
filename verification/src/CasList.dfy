/** The compare-exchange list with many pushers and one remover, as interleaved atomic steps over sequentially
    consistent memory. Freed addresses may be allocated again at once. */
module CasList {
  import opened Options

  type Ptr = nat

  type Elem = nat

  datatype Node = Node(elem: Elem, next: Option<Ptr>)

  /** A cell whose link is read: the dummy head or a node. */
  datatype Cell = Head | At(ptr: Ptr)

  datatype Pusher = Allocated(node: Ptr) | Loaded(node: Ptr, before: Option<Ptr>) | Stored(node: Ptr, before: Option<Ptr>)

  /** The element wanted: the `left`-th from here, or the first that is in `wanted`. */
  datatype Request = Nth(left: nat) | Where(wanted: set<Elem>)

  datatype Remover =
    | Idle
    | Walking(cur: Cell, req: Request)
    | Chosen(prev: Cell, node: Ptr, req: Request)
    | Read(prev: Cell, node: Ptr, req: Request, next: Option<Ptr>)
    | Unlinked(node: Ptr)

  /** `chain` lists the nodes after the dummy head, `pushed` and `removed` all elements that entered and left. For the
      removal in progress `asked` is what was asked for, `start` the chain when the walk read the head's link, and
      `seen` how many nodes of it were visited since. */
  datatype State = State(
    heap: map<Ptr, Node>,
    first: Option<Ptr>,
    pushers: map<nat, Pusher>,
    remover: Remover,
    chain: seq<Ptr>,
    pushed: multiset<Elem>,
    removed: multiset<Elem>,
    asked: Request,
    start: seq<Ptr>,
    seen: nat)

  datatype Step =
    | Push(id: nat, elem: Elem, ptr: Ptr)
    | LoadFirst(id: nat)
    | StoreNext(id: nat)
    | PushExchange(id: nat)
    | Remove(req: Request)
    | Walk
    | ReadNext
    | RemoveExchange
    | Free

  const EMPTY := State(map[], None, map[], Idle, [], multiset{}, multiset{}, Nth(0), [], 0)

  predicate Valid(s: State, c: Cell) {
    c.At? ==> c.ptr in s.heap
  }

  function Next(s: State, c: Cell): Option<Ptr>
    requires Valid(s, c)
  {
    if c.Head? then s.first else s.heap[c.ptr].next
  }

  predicate Enabled(s: State, step: Step) {
    match step
    case Push(id, _, ptr) => id !in s.pushers && ptr !in s.heap
    case LoadFirst(id) => id in s.pushers && s.pushers[id].Allocated?
    case StoreNext(id) => id in s.pushers && s.pushers[id].Loaded? && s.pushers[id].node in s.heap
    case PushExchange(id) => id in s.pushers && s.pushers[id].Stored? && s.pushers[id].node in s.heap
    case Remove(_) => s.remover.Idle?
    case Walk =>
      s.remover.Walking? && Valid(s, s.remover.cur)
      && (Next(s, s.remover.cur).Some? ==> Next(s, s.remover.cur).value in s.heap)
    case ReadNext => s.remover.Chosen? && s.remover.node in s.heap
    case RemoveExchange => s.remover.Read? && Valid(s, s.remover.prev) && s.remover.node in s.heap
    case Free => s.remover.Unlinked? && s.remover.node in s.heap
  }

  function Apply(s: State, step: Step): State
    requires Enabled(s, step)
  {
    match step
    case Push(id, elem, ptr) =>
      s.(heap := s.heap[ptr := Node(elem, None)], pushers := s.pushers[id := Allocated(ptr)])
    case LoadFirst(id) => s.(pushers := s.pushers[id := Loaded(s.pushers[id].node, s.first)])
    case StoreNext(id) =>
      var Loaded(node, before) := s.pushers[id];
      s.(heap := s.heap[node := s.heap[node].(next := before)], pushers := s.pushers[id := Stored(node, before)])
    case PushExchange(id) =>
      var Stored(node, before) := s.pushers[id];
      if s.first == before then
        s.(first := Some(node), pushers := s.pushers - {id}, chain := [node] + s.chain,
           pushed := s.pushed + multiset{s.heap[node].elem})
      else s.(pushers := s.pushers[id := Allocated(node)])
    case Remove(req) =>
      s.(remover := if req == Nth(0) then Idle else Walking(Head, req), asked := req, start := [], seen := 0)
    case Walk =>
      var Walking(cur, req) := s.remover;
      var next := Next(s, cur);
      if next.None? then s.(remover := Idle)
      else
        s.(remover := Visit(s.heap[next.value].elem, cur, next.value, req),
           start := if cur.Head? then s.chain else s.start, seen := if cur.Head? then 1 else s.seen + 1)
    case ReadNext => s.(remover := Read(s.remover.prev, s.remover.node, s.remover.req, s.heap[s.remover.node].next))
    case RemoveExchange =>
      var Read(prev, node, req, next) := s.remover;
      if Next(s, prev) == Some(node) then
        Relinked(s, prev, next).(remover := Unlinked(node), chain := Without(s.chain, node),
                                 removed := s.removed + multiset{s.heap[node].elem})
      else s.(remover := Idle)
    case Free => s.(heap := s.heap - {s.remover.node}, remover := Idle)
  }

  function Visit(elem: Elem, cur: Cell, node: Ptr, req: Request): Remover {
    match req
    case Nth(left) => if left <= 1 then Chosen(cur, node, req) else Walking(At(node), Nth(left - 1))
    case Where(wanted) => if elem in wanted then Chosen(cur, node, req) else Walking(At(node), req)
  }

  function Relinked(s: State, c: Cell, next: Option<Ptr>): State
    requires Valid(s, c)
  {
    if c.Head? then s.(first := next) else s.(heap := s.heap[c.ptr := s.heap[c.ptr].(next := next)])
  }

  function IndexOf(chain: seq<Ptr>, node: Ptr): (i: nat)
    ensures i <= |chain| && (i < |chain| ==> chain[i] == node) && forall j :: 0 <= j < i ==> chain[j] != node
  {
    if chain == [] || chain[0] == node then 0 else 1 + IndexOf(chain[1..], node)
  }

  function RemoveAt<T>(s: seq<T>, i: nat): seq<T> {
    if i < |s| then s[..i] + s[i + 1..] else s
  }

  function Without(chain: seq<Ptr>, node: Ptr): seq<Ptr> {
    RemoveAt(chain, IndexOf(chain, node))
  }

  // The invariant

  function LinkAt(chain: seq<Ptr>, i: nat): Option<Ptr> {
    if i < |chain| then Some(chain[i]) else None
  }

  predicate NodeOk(heap: map<Ptr, Node>, chain: seq<Ptr>, i: nat)
    requires i < |chain|
  {
    chain[i] in heap && heap[chain[i]].next == LinkAt(chain, i + 1)
  }

  ghost predicate ChainOk(heap: map<Ptr, Node>, first: Option<Ptr>, chain: seq<Ptr>) {
    && first == LinkAt(chain, 0)
    && (forall i :: 0 <= i < |chain| ==> NodeOk(heap, chain, i))
    && (forall i, j :: 0 <= i < j < |chain| ==> chain[i] != chain[j])
  }

  predicate PusherOk(s: State, p: Pusher) {
    p.node in s.heap && p.node !in s.chain && (s.remover.Unlinked? ==> p.node != s.remover.node)
    && (p.Stored? ==> s.heap[p.node].next == p.before)
  }

  ghost predicate PushersOk(s: State) {
    && (forall id :: id in s.pushers ==> PusherOk(s, s.pushers[id]))
    && (forall a, b :: a in s.pushers && b in s.pushers && a != b ==> s.pushers[a].node != s.pushers[b].node)
  }

  predicate InChain(s: State, c: Cell) {
    c.At? ==> c.ptr in s.chain
  }

  /** A node chosen for removal stays in the chain, behind its predecessor unless that is the head. */
  predicate RemoverOk(s: State) {
    match s.remover
    case Idle => true
    case Walking(cur, _) => InChain(s, cur)
    case Chosen(prev, node, req) => Follows(s, prev, node) && Asked(req, ElemOf(s.heap, node))
    case Read(prev, node, req, next) =>
      Follows(s, prev, node) && Asked(req, ElemOf(s.heap, node)) && node in s.heap && s.heap[node].next == next
    case Unlinked(node) => node in s.heap && node !in s.chain
  }

  predicate Asked(req: Request, elem: Elem) {
    req.Where? ==> elem in req.wanted
  }

  predicate Follows(s: State, prev: Cell, node: Ptr) {
    node in s.chain && (prev.At? ==> prev.ptr in s.chain && prev.ptr in s.heap && s.heap[prev.ptr].next == Some(node))
  }

  function ElemOf(heap: map<Ptr, Node>, p: Ptr): Elem {
    if p in heap then heap[p].elem else 0
  }

  /** The elements in the chain, front first. */
  function Elems(heap: map<Ptr, Node>, chain: seq<Ptr>): (r: seq<Elem>)
    ensures |r| == |chain| && forall i :: 0 <= i < |chain| ==> r[i] == ElemOf(heap, chain[i])
  {
    seq(|chain|, i requires 0 <= i < |chain| => ElemOf(heap, chain[i]))
  }

  /** What was pushed is in the chain or was removed. */
  ghost predicate Counted(s: State) {
    s.pushed == multiset(Elems(s.heap, s.chain)) + s.removed
  }

  ghost predicate Inv(s: State) {
    ChainOk(s.heap, s.first, s.chain) && PushersOk(s) && RemoverOk(s) && Counted(s)
  }

  // Elements

  lemma ElemsFrame(heap: map<Ptr, Node>, heap': map<Ptr, Node>, chain: seq<Ptr>)
    requires forall p :: p in chain ==> p in heap && p in heap' && heap[p].elem == heap'[p].elem
    ensures Elems(heap, chain) == Elems(heap', chain)
  {
    assert forall i :: 0 <= i < |chain| ==> chain[i] in chain;
  }

  lemma ElemsCons(heap: map<Ptr, Node>, node: Ptr, chain: seq<Ptr>)
    ensures Elems(heap, [node] + chain) == [ElemOf(heap, node)] + Elems(heap, chain)
  {
  }

  lemma RemoveAtMultiset<T>(s: seq<T>, i: nat)
    requires i < |s|
    ensures multiset(s) == multiset{s[i]} + multiset(RemoveAt(s, i))
  {
    assert s == s[..i] + [s[i]] + s[i + 1..];
  }

  lemma ElemsRemoveAt(heap: map<Ptr, Node>, chain: seq<Ptr>, i: nat)
    ensures Elems(heap, RemoveAt(chain, i)) == RemoveAt(Elems(heap, chain), i)
  {
  }

  lemma ElemsWithout(heap: map<Ptr, Node>, chain: seq<Ptr>, node: Ptr)
    requires node in chain
    ensures multiset(Elems(heap, chain)) == multiset{ElemOf(heap, node)} + multiset(Elems(heap, Without(chain, node)))
  {
    var i := IndexOf(chain, node);
    ElemsRemoveAt(heap, chain, i);
    RemoveAtMultiset(Elems(heap, chain), i);
  }

  // Chains

  lemma ChainFrame(heap: map<Ptr, Node>, heap': map<Ptr, Node>, first: Option<Ptr>, chain: seq<Ptr>)
    requires ChainOk(heap, first, chain) && forall p :: p in chain ==> p in heap' && (p in heap ==> heap'[p] == heap[p])
    ensures ChainOk(heap', first, chain)
  {
    forall i | 0 <= i < |chain|
      ensures NodeOk(heap', chain, i)
    {
      assert NodeOk(heap, chain, i) && chain[i] in chain;
    }
  }

  lemma ChainCons(heap: map<Ptr, Node>, first: Option<Ptr>, chain: seq<Ptr>, node: Ptr)
    requires ChainOk(heap, first, chain) && node in heap && node !in chain && heap[node].next == first
    ensures ChainOk(heap, Some(node), [node] + chain)
  {
    var c := [node] + chain;
    forall i | 0 <= i < |c|
      ensures NodeOk(heap, c, i)
    {
      if i > 0 {
        assert NodeOk(heap, chain, i - 1) && LinkAt(c, i + 1) == LinkAt(chain, i);
      }
    }
  }

  /** Taking node `i` out: its predecessor, or the head, gets its link. */
  lemma ChainCut(heap: map<Ptr, Node>, heap': map<Ptr, Node>, first: Option<Ptr>, first': Option<Ptr>,
                 chain: seq<Ptr>, i: nat)
    requires ChainOk(heap, first, chain) && i < |chain|
    requires if i == 0 then heap' == heap && first' == LinkAt(chain, 1)
             else first' == first && chain[i - 1] in heap
                  && heap' == heap[chain[i - 1] := heap[chain[i - 1]].(next := LinkAt(chain, i + 1))]
    ensures ChainOk(heap', first', RemoveAt(chain, i))
  {
    var c := RemoveAt(chain, i);
    forall j | 0 <= j < |c|
      ensures NodeOk(heap', c, j)
    {
      if j < i {
        assert NodeOk(heap, chain, j) && c[j] == chain[j];
      } else {
        assert NodeOk(heap, chain, j + 1) && c[j] == chain[j + 1];
        assert i > 0 ==> chain[i - 1] != chain[j + 1];
      }
    }
  }

  // Every step keeps it

  lemma ChainInHeap(s: State)
    requires ChainOk(s.heap, s.first, s.chain)
    ensures forall p :: p in s.chain ==> p in s.heap
  {
    forall i | 0 <= i < |s.chain|
      ensures s.chain[i] in s.heap
    {
      assert NodeOk(s.heap, s.chain, i);
    }
  }

  /** Steps on nodes outside the chain leave it alone. */
  lemma ChainSame(s: State, s': State)
    requires ChainOk(s.heap, s.first, s.chain) && Counted(s)
    requires s'.first == s.first && s'.chain == s.chain && s'.pushed == s.pushed && s'.removed == s.removed
    requires forall p :: p in s.chain && p in s.heap ==> p in s'.heap && s'.heap[p] == s.heap[p]
    ensures ChainOk(s'.heap, s'.first, s'.chain) && Counted(s')
  {
    ChainInHeap(s);
    ChainFrame(s.heap, s'.heap, s.first, s.chain);
    ElemsFrame(s.heap, s'.heap, s.chain);
  }

  lemma PushNewKeeps(s: State, id: nat, elem: Elem, ptr: Ptr)
    requires Inv(s) && Enabled(s, Push(id, elem, ptr))
    ensures Inv(Apply(s, Push(id, elem, ptr)))
  {
    var s' := Apply(s, Push(id, elem, ptr));
    ChainInHeap(s);
    assert Counted(s);
    ChainSame(s, s');
    assert PushersOk(s') by {
      forall a | a in s'.pushers
        ensures PusherOk(s', s'.pushers[a]) && (a != id ==> s'.pushers[a].node != ptr)
      {
        if a != id { assert PusherOk(s, s.pushers[a]); }
      }
    }
    assert RemoverOk(s');
  }

  /** A pusher's own step, on its own node. */
  lemma PushOwnKeeps(s: State, id: nat, step: Step)
    requires Inv(s) && Enabled(s, step) && (step == LoadFirst(id) || step == StoreNext(id))
    ensures Inv(Apply(s, step))
  {
    var s' := Apply(s, step);
    assert PusherOk(s, s.pushers[id]);
    assert Counted(s);
    ChainSame(s, s');
    assert PushersOk(s') by {
      forall a | a in s'.pushers
        ensures PusherOk(s', s'.pushers[a]) && s'.pushers[a].node == s.pushers[a].node
      {
        assert PusherOk(s, s.pushers[a]);
      }
    }
    assert RemoverOk(s');
  }

  lemma PushExchangeKeeps(s: State, id: nat)
    requires Inv(s) && Enabled(s, PushExchange(id))
    ensures Inv(Apply(s, PushExchange(id)))
  {
    var s' := Apply(s, PushExchange(id));
    var p := s.pushers[id];
    assert PusherOk(s, p);
    if s.first == p.before {
      ChainCons(s.heap, s.first, s.chain, p.node);
      ElemsCons(s.heap, p.node, s.chain);
      assert forall q :: q in s.chain ==> q in s'.chain;
      assert PushersOk(s') by {
        forall a | a in s'.pushers
          ensures PusherOk(s', s'.pushers[a])
        {
          assert PusherOk(s, s.pushers[a]);
        }
      }
    }
  }

  lemma WalkKeeps(s: State)
    requires Inv(s) && Enabled(s, Walk)
    ensures Inv(Apply(s, Walk))
  {
    var s' := Apply(s, Walk);
    NextInChain(s, s.remover.cur);
    RemoverOnly(s, s');
    assert RemoverOk(s');
  }

  lemma ReadKeeps(s: State, step: Step)
    requires Inv(s) && Enabled(s, step) && (step.Remove? || step.ReadNext?)
    ensures Inv(Apply(s, step))
  {
    var s' := Apply(s, step);
    RemoverOnly(s, s');
    assert RemoverOk(s');
  }

  lemma RemoverOnly(s: State, s': State)
    requires Inv(s) && !s'.remover.Unlinked?
    requires s' == s.(remover := s'.remover, asked := s'.asked, start := s'.start, seen := s'.seen)
    ensures PushersOk(s') && ChainOk(s'.heap, s'.first, s'.chain) && Counted(s')
  {
    forall a | a in s'.pushers
      ensures PusherOk(s', s'.pushers[a])
    {
      assert PusherOk(s, s.pushers[a]);
    }
  }

  /** The link of the head or of a chained node leads to a chained node. */
  lemma NextInChain(s: State, c: Cell)
    requires Inv(s) && InChain(s, c)
    ensures Valid(s, c) && (Next(s, c).Some? ==> Next(s, c).value in s.chain && Next(s, c).value in s.heap)
  {
    if c.At? {
      var i := IndexOf(s.chain, c.ptr);
      assert NodeOk(s.heap, s.chain, i);
      if i + 1 < |s.chain| { assert NodeOk(s.heap, s.chain, i + 1); }
    } else if |s.chain| > 0 {
      assert NodeOk(s.heap, s.chain, 0);
    }
  }

  lemma RemoveExchangeKeeps(s: State)
    requires Inv(s) && Enabled(s, RemoveExchange)
    ensures Inv(Apply(s, RemoveExchange))
  {
    var s' := Apply(s, RemoveExchange);
    var Read(prev, node, req, next) := s.remover;
    if Next(s, prev) != Some(node) {
      RemoverOnly(s, s');
    } else {
      UnlinkKeepsChain(s, s', prev, node, req, next);
      UnlinkKeepsPushers(s, s', prev, node);
    }
  }

  lemma UnlinkKeepsChain(s: State, s': State, prev: Cell, node: Ptr, req: Request, next: Option<Ptr>)
    requires Inv(s) && Enabled(s, RemoveExchange) && s.remover == Read(prev, node, req, next) && Next(s, prev) == Some(node)
    requires s' == Apply(s, RemoveExchange)
    ensures ChainOk(s'.heap, s'.first, s'.chain) && Counted(s') && node in s'.heap && node !in s'.chain
    ensures forall q :: q in s'.chain ==> q in s.chain
  {
    ChainInHeap(s);
    UnlinkShape(s, s', prev, node, req, next);
    UnlinkChain(s.heap, s'.heap, s.first, s'.first, s.chain, IndexOf(s.chain, node));
    UnlinkKeepsCount(s, s', prev, node, req, next);
  }

  lemma UnlinkKeepsCount(s: State, s': State, prev: Cell, node: Ptr, req: Request, next: Option<Ptr>)
    requires Inv(s) && Enabled(s, RemoveExchange) && s.remover == Read(prev, node, req, next) && Next(s, prev) == Some(node)
    requires s' == Apply(s, RemoveExchange)
    ensures Counted(s')
  {
    ChainInHeap(s);
    UnlinkShape(s, s', prev, node, req, next);
    UnlinkCounts(s.heap, s'.heap, s.chain, node, s.pushed, s.removed);
  }

  /** Which link the exchange writes. */
  lemma UnlinkShape(s: State, s': State, prev: Cell, node: Ptr, req: Request, next: Option<Ptr>)
    requires Inv(s) && Enabled(s, RemoveExchange) && s.remover == Read(prev, node, req, next) && Next(s, prev) == Some(node)
    requires s' == Apply(s, RemoveExchange)
    ensures var i := IndexOf(s.chain, node);
      && node in s.chain && i < |s.chain|
      && if i == 0 then s'.heap == s.heap && s'.first == LinkAt(s.chain, 1)
         else
           && s'.first == s.first && s.chain[i - 1] in s.heap
           && s'.heap == s.heap[s.chain[i - 1] := s.heap[s.chain[i - 1]].(next := LinkAt(s.chain, i + 1))]
    ensures s'.chain == RemoveAt(s.chain, IndexOf(s.chain, node))
    ensures forall p :: p in s.heap ==> p in s'.heap && s'.heap[p].elem == s.heap[p].elem
  {
    var i := IndexOf(s.chain, node);
    UniquePredecessor(s, prev, node);
    assert NodeOk(s.heap, s.chain, i);
  }

  lemma UnlinkChain(heap: map<Ptr, Node>, heap': map<Ptr, Node>, first: Option<Ptr>, first': Option<Ptr>,
                    chain: seq<Ptr>, i: nat)
    requires ChainOk(heap, first, chain) && i < |chain| && forall p :: p in chain ==> p in heap
    requires if i == 0 then heap' == heap && first' == LinkAt(chain, 1)
             else first' == first && heap' == heap[chain[i - 1] := heap[chain[i - 1]].(next := LinkAt(chain, i + 1))]
    ensures ChainOk(heap', first', RemoveAt(chain, i))
    ensures chain[i] !in RemoveAt(chain, i) && forall q :: q in RemoveAt(chain, i) ==> q in chain
  {
    ChainCut(heap, heap', first, first', chain, i);
  }

  lemma UnlinkCounts(heap: map<Ptr, Node>, heap': map<Ptr, Node>, chain: seq<Ptr>, node: Ptr, pushed: multiset<Elem>,
                     removed: multiset<Elem>)
    requires node in chain && forall p :: p in chain ==> p in heap && p in heap' && heap'[p].elem == heap[p].elem
    requires pushed == multiset(Elems(heap, chain)) + removed
    ensures pushed == multiset(Elems(heap', Without(chain, node))) + (removed + multiset{heap[node].elem})
  {
    ElemsWithout(heap, chain, node);
    assert forall q :: q in Without(chain, node) ==> q in chain;
    ElemsFrame(heap, heap', Without(chain, node));
  }

  lemma UnlinkKeepsPushers(s: State, s': State, prev: Cell, node: Ptr)
    requires PushersOk(s) && Valid(s, prev) && InChain(s, prev) && node in s.chain
    requires s'.pushers == s.pushers && s'.remover == Unlinked(node)
    requires s'.heap == s.heap || (prev.At? && prev.ptr in s'.heap && s'.heap == s.heap[prev.ptr := s'.heap[prev.ptr]])
    requires forall q :: q in s'.chain ==> q in s.chain
    ensures PushersOk(s')
  {
    forall a | a in s'.pushers
      ensures PusherOk(s', s'.pushers[a])
    {
      assert PusherOk(s, s.pushers[a]);
    }
  }

  /** The cell that links to a chained node is the one before it in the chain. */
  lemma UniquePredecessor(s: State, prev: Cell, node: Ptr)
    requires Inv(s) && node in s.chain && InChain(s, prev) && Valid(s, prev) && Next(s, prev) == Some(node)
    ensures var i := IndexOf(s.chain, node);
      i < |s.chain| && prev == if i == 0 then Head else At(s.chain[i - 1])
  {
    var i := IndexOf(s.chain, node);
    if prev.At? {
      var j := IndexOf(s.chain, prev.ptr);
      assert NodeOk(s.heap, s.chain, j);
      assert s.chain[j + 1] == node;
    }
  }

  lemma FreeKeeps(s: State)
    requires Inv(s) && Enabled(s, Free)
    ensures Inv(Apply(s, Free))
  {
    var s' := Apply(s, Free);
    assert Counted(s);
    ChainSame(s, s');
    assert PushersOk(s') by {
      forall a | a in s'.pushers
        ensures PusherOk(s', s'.pushers[a])
      {
        assert PusherOk(s, s.pushers[a]);
      }
    }
  }

  lemma InvStep(s: State, step: Step)
    requires Inv(s) && Enabled(s, step)
    ensures Inv(Apply(s, step))
  {
    match step {
      case Push(id, elem, ptr) => PushNewKeeps(s, id, elem, ptr);
      case LoadFirst(id) => PushOwnKeeps(s, id, step);
      case StoreNext(id) => PushOwnKeeps(s, id, step);
      case PushExchange(id) => PushExchangeKeeps(s, id);
      case Remove(_) => ReadKeeps(s, step);
      case Walk => WalkKeeps(s);
      case ReadNext => ReadKeeps(s, step);
      case RemoveExchange => RemoveExchangeKeeps(s);
      case Free => FreeKeeps(s);
    }
  }

  // Runs

  /** The state after a run of steps; `None` if a step was not possible. */
  function After(steps: seq<Step>): Option<State> {
    if steps == [] then Some(EMPTY)
    else
      var s := After(steps[..|steps| - 1]);
      if s.Some? && Enabled(s.value, steps[|steps| - 1]) then Some(Apply(s.value, steps[|steps| - 1])) else None
  }

  lemma {:induction false} RunKeeps(steps: seq<Step>)
    ensures After(steps).Some? ==> Inv(After(steps).value)
  {
    if steps != [] {
      RunKeeps(steps[..|steps| - 1]);
      var s := After(steps[..|steps| - 1]);
      if s.Some? && Enabled(s.value, steps[|steps| - 1]) { InvStep(s.value, steps[|steps| - 1]); }
    }
  }

  /** Under every interleaving, and with addresses used again after being freed, the nodes reached from the head hold
      exactly the elements pushed and not removed; so nothing is returned twice, or without having been pushed. */
  lemma NothingLostOrDoubled(steps: seq<Step>)
    requires After(steps).Some?
    ensures var s := After(steps).value;
      && ChainOk(s.heap, s.first, s.chain)
      && s.pushed == multiset(Elems(s.heap, s.chain)) + s.removed && s.removed <= s.pushed
  {
    RunKeeps(steps);
  }

  /** Nobody follows a link to a freed node. */
  lemma NodesAreThere(steps: seq<Step>, id: nat)
    requires After(steps).Some?
    ensures var s := After(steps).value;
      && (id in s.pushers && s.pushers[id].Loaded? ==> Enabled(s, StoreNext(id)))
      && (id in s.pushers && s.pushers[id].Stored? ==> Enabled(s, PushExchange(id)))
      && (s.remover.Walking? ==> Enabled(s, Walk))
      && (s.remover.Chosen? ==> Enabled(s, ReadNext))
      && (s.remover.Read? ==> Enabled(s, RemoveExchange))
      && (s.remover.Unlinked? ==> Enabled(s, Free))
  {
    RunKeeps(steps);
    var s := After(steps).value;
    ChainInHeap(s);
    if id in s.pushers { assert PusherOk(s, s.pushers[id]); }
    if s.remover.Walking? { NextInChain(s, s.remover.cur); }
  }

  // Which node a removal takes out

  /** What was the chain when the walk began is its rear end now: pushes put nodes in front only. */
  predicate StartBehind(s: State) {
    |s.start| <= |s.chain| && s.chain[|s.chain| - |s.start|..] == s.start
  }

  /** The request as the walk carries it on after `seen` nodes, none of which was wanted. */
  predicate Carried(s: State, req: Request) {
    match s.asked
    case Nth(n) => n > s.seen && req == Nth(n - s.seen)
    case Where(wanted) => req == s.asked && forall j :: 0 <= j < s.seen <= |s.start| ==> ElemOf(s.heap, s.start[j]) !in wanted
  }

  /** The node visited last is the one asked for: the n-th of `start`, or the first of it that is wanted. */
  predicate Wanted(s: State) {
    match s.asked
    case Nth(n) => n == s.seen
    case Where(wanted) =>
      && 0 < s.seen <= |s.start| && ElemOf(s.heap, s.start[s.seen - 1]) in wanted
      && forall j :: 0 <= j < s.seen - 1 ==> ElemOf(s.heap, s.start[j]) !in wanted
  }

  predicate Visited(s: State, node: Ptr) {
    StartBehind(s) && 0 < s.seen <= |s.start| && s.start[s.seen - 1] == node
  }

  predicate WalkOk(s: State) {
    match s.remover
    case Idle => true
    case Walking(Head, req) => s.seen == 0 && req == s.asked && req != Nth(0)
    case Walking(At(node), req) => Visited(s, node) && Carried(s, req)
    case Chosen(_, node, _) => Visited(s, node) && Wanted(s)
    case Read(_, node, _, _) => Visited(s, node) && Wanted(s)
    case Unlinked(_) => true
  }

  lemma {:induction false} WalkOkStep(s: State, step: Step)
    requires Inv(s) && WalkOk(s) && Enabled(s, step)
    ensures WalkOk(Apply(s, step))
  {
    match step {
      case Push(id, elem, ptr) =>
        ChainInHeap(s);
        WalkOkKept(s, Apply(s, step));
      case LoadFirst(id) => WalkOkKept(s, Apply(s, step));
      case StoreNext(id) =>
        assert PusherOk(s, s.pushers[id]);
        WalkOkKept(s, Apply(s, step));
      case PushExchange(id) =>
        assert PusherOk(s, s.pushers[id]);
        WalkOkKept(s, Apply(s, step));
      case Remove(_) =>
      case Walk => WalkOkWalk(s);
      case ReadNext =>
      case RemoveExchange =>
      case Free =>
    }
  }

  /** Steps of pushers leave the elements of the chain alone and the chain's rear end in place. */
  lemma WalkOkKept(s: State, s': State)
    requires WalkOk(s) && ChainOk(s.heap, s.first, s.chain)
    requires s'.remover == s.remover && s'.asked == s.asked && s'.start == s.start && s'.seen == s.seen
    requires forall p :: p in s.chain ==> ElemOf(s'.heap, p) == ElemOf(s.heap, p)
    requires s'.chain == s.chain || (s'.chain != [] && s'.chain[1..] == s.chain)
    ensures WalkOk(s')
  {
    if StartBehind(s) {
      forall j | 0 <= j < |s.start|
        ensures ElemOf(s'.heap, s.start[j]) == ElemOf(s.heap, s.start[j])
      {
        assert s.start[j] == s.chain[|s.chain| - |s.start| + j];
      }
      assert StartBehind(s');
    }
  }

  lemma WalkOkWalk(s: State)
    requires Inv(s) && WalkOk(s) && Enabled(s, Walk)
    ensures WalkOk(Apply(s, Walk))
  {
    var Walking(cur, req) := s.remover;
    if Next(s, cur).Some? {
      var node := Next(s, cur).value;
      if cur.Head? {
        assert s.first == LinkAt(s.chain, 0) && s.chain[0..] == s.chain;
        VisitOk(s.(start := s.chain), node, cur, req);
      } else {
        NextVisited(s, cur.ptr);
        VisitOk(s, node, cur, req);
      }
    }
  }

  /** Behind the node visited last comes the next one of `start`. */
  lemma NextVisited(s: State, node: Ptr)
    requires ChainOk(s.heap, s.first, s.chain) && Visited(s, node)
    ensures node in s.heap && s.heap[node].next == LinkAt(s.start, s.seen)
  {
    var i := |s.chain| - |s.start| + (s.seen - 1);
    assert s.chain[i] == node && NodeOk(s.heap, s.chain, i);
    if s.seen < |s.start| { assert s.chain[i + 1] == s.start[s.seen]; }
  }

  lemma VisitOk(s: State, node: Ptr, cur: Cell, req: Request)
    requires StartBehind(s) && Carried(s, req) && node in s.heap
    requires s.seen < |s.start| && s.start[s.seen] == node
    ensures WalkOk(s.(remover := Visit(s.heap[node].elem, cur, node, req), seen := s.seen + 1))
  {
  }

  lemma {:induction false} RunWalks(steps: seq<Step>)
    ensures After(steps).Some? ==> WalkOk(After(steps).value)
  {
    if steps != [] {
      var before := steps[..|steps| - 1];
      RunWalks(before);
      RunKeeps(before);
      if After(before).Some? && Enabled(After(before).value, steps[|steps| - 1]) {
        WalkOkStep(After(before).value, steps[|steps| - 1]);
      }
    }
  }

  /** A removal loses its compare-exchange exactly if it wanted the first node and the head links elsewhere by now; it
      then changes nothing. Otherwise it takes out the node asked for, counted in the chain as it was when the walk
      began, in front of which there may be newer nodes by now. */
  lemma RemovalOutcome(steps: seq<Step>)
    requires After(steps).Some? && Enabled(After(steps).value, RemoveExchange)
    ensures var s := After(steps).value; var s' := Apply(s, RemoveExchange);
      var lost := s.remover.prev == Head && s.first != Some(s.remover.node);
      && s.remover.node in s.heap && Visited(s, s.remover.node) && Wanted(s)
      && (lost ==> s' == s.(remover := Idle))
      && (!lost ==> s'.remover == Unlinked(s.remover.node) && s.remover.node in s.chain
                    && s'.chain == Without(s.chain, s.remover.node)
                    && s'.removed == s.removed + multiset{s.heap[s.remover.node].elem} && s'.pushed == s.pushed)
  {
    RunKeeps(steps);
    RunWalks(steps);
  }

  /** A removal that comes to the end without finding its node was right: the chain that it set out with has fewer
      nodes than asked for, or none that is wanted. */
  lemma RemovalMisses(steps: seq<Step>)
    requires After(steps).Some? && Enabled(After(steps).value, Walk)
    requires Next(After(steps).value, After(steps).value.remover.cur) == None
    ensures var s := After(steps).value;
      var start := if s.remover.cur.Head? then s.chain else s.start;
      match s.asked
      case Nth(n) => n > |start|
      case Where(wanted) => forall j :: 0 <= j < |start| ==> ElemOf(s.heap, start[j]) !in wanted
  {
    RunKeeps(steps);
    RunWalks(steps);
    var s := After(steps).value;
    if s.remover.cur.At? { NextVisited(s, s.remover.cur.ptr); }
  }

  // Why a push tries again

  /** A push or a removal gets through at the head. */
  predicate Succeeds(s: State, step: Step) {
    match step
    case PushExchange(id) => id in s.pushers && s.pushers[id].Stored? && s.first == s.pushers[id].before
    case RemoveExchange => s.remover.Read? && s.remover.prev == Head && s.first == Some(s.remover.node)
    case _ => false
  }

  /** Only such a step changes what the head links to. */
  lemma FirstChanges(s: State, step: Step)
    requires Enabled(s, step) && Apply(s, step).first != s.first
    ensures Succeeds(s, step)
  {
  }

  lemma {:induction false} PrefixRuns(steps: seq<Step>, i: nat)
    requires After(steps).Some? && i <= |steps|
    ensures After(steps[..i]).Some?
    ensures i < |steps| ==>
      Enabled(After(steps[..i]).value, steps[i]) && After(steps[..i + 1]) == Some(Apply(After(steps[..i]).value, steps[i]))
    decreases |steps|
  {
    if i < |steps| {
      var before := steps[..|steps| - 1];
      assert steps[..i + 1][..i] == steps[..i] == before[..i];
      if i < |before| {
        PrefixRuns(before, i);
        assert before[..i + 1] == steps[..i + 1] && before[i] == steps[i];
      } else {
        assert before[..i] == before && steps[..i + 1] == steps;
      }
    } else {
      assert steps[..i] == steps;
    }
  }

  /** Pusher `id` has not read the head again, nor tried its exchange, from step `m` up to step `n`. */
  ghost predicate Pending(steps: seq<Step>, id: nat, m: nat, n: nat) {
    m < n <= |steps| && steps[m] == LoadFirst(id)
    && forall j :: m < j < n ==> steps[j] != LoadFirst(id) && steps[j] != PushExchange(id)
  }

  /** What pusher `id` read is what the head links to, unless somebody got through since. */
  lemma {:induction false} ReadHolds(steps: seq<Step>, id: nat, m: nat, n: nat)
    requires After(steps).Some? && Pending(steps, id, m, n)
    requires forall j :: m < j < n ==> After(steps[..j]).Some? && !Succeeds(After(steps[..j]).value, steps[j])
    ensures After(steps[..n]).Some?
    ensures var s := After(steps[..n]).value;
      id in s.pushers && !s.pushers[id].Allocated? && s.pushers[id].before == s.first
    decreases n
  {
    PrefixRuns(steps, n - 1);
    if n - 1 > m {
      ReadHolds(steps, id, m, n - 1);
      PendingStep(After(steps[..n - 1]).value, steps[n - 1], id);
    }
  }

  lemma PendingStep(s: State, step: Step, id: nat)
    requires Enabled(s, step) && step != LoadFirst(id) && step != PushExchange(id) && !Succeeds(s, step)
    requires id in s.pushers && !s.pushers[id].Allocated? && s.pushers[id].before == s.first
    ensures var s' := Apply(s, step);
      id in s'.pushers && !s'.pushers[id].Allocated? && s'.pushers[id].before == s'.first
  {
    if Apply(s, step).first != s.first { FirstChanges(s, step); }
  }

  /** The list is lock-free: a push that loses its exchange at step `n`, having read the head at step `m`, was overtaken
      by a push or a removal that got through in between. */
  lemma LostPushOvertaken(steps: seq<Step>, id: nat, m: nat, n: nat)
    requires After(steps).Some? && Pending(steps, id, m, n) && n < |steps| && steps[n] == PushExchange(id)
    ensures After(steps[..n]).Some? && Enabled(After(steps[..n]).value, PushExchange(id))
    ensures !Succeeds(After(steps[..n]).value, steps[n]) ==>
      exists j :: m < j < n && After(steps[..j]).Some? && Succeeds(After(steps[..j]).value, steps[j])
  {
    PrefixRuns(steps, n);
    forall j | m < j < n
      ensures After(steps[..j]).Some?
    {
      PrefixRuns(steps, j);
    }
    if forall j :: m < j < n ==> !Succeeds(After(steps[..j]).value, steps[j]) {
      ReadHolds(steps, id, m, n);
    }
  }
}
