/** The one-sender channel, as atomic steps of the sender and any number of receivers over sequentially consistent
    memory. Version numbers do not wrap here. */
module LfChannel {
  import opened Options

  type Ptr = nat

  type Msg = nat

  datatype Entry = Entry(msg: Msg, version: nat)

  datatype Node = Node(elem: Entry, next: Option<Ptr>)

  datatype Sender =
    | SIdle
    | Numbered(entry: Entry)
    | Allocated(node: Ptr)
    | Loaded(node: Ptr, next: Option<Ptr>)
    | Linked(node: Ptr, next: Option<Ptr>)
    | Panicked

  /** `since` is the number of messages published when the call began, kept for the statement of freshness. In
      `Reading`, `at` is the node read last, `None` for the dummy head. */
  datatype Call =
    | RIdle
    | Checked(since: nat)
    | GotFirst(node: Ptr, since: nat)
    | Reading(at: Option<Ptr>, vec: seq<Entry>, since: nat)
    | Crashed

  /** `batches` are the vectors returned so far, oldest first. */
  datatype Receiver = Receiver(call: Call, lastSeen: nat, batches: seq<seq<Msg>>)

  /** `first` is the dummy head's link. `sent` and `nodes` record what was published, oldest first. */
  datatype State = State(
    heap: map<Ptr, Node>,
    first: Option<Ptr>,
    version: nat,
    destroyed: bool,
    sender: Sender,
    receivers: map<nat, Receiver>,
    sent: seq<Msg>,
    nodes: seq<Ptr>)

  datatype Step =
    | Number(msg: Msg)
    | Allocate(ptr: Ptr)
    | LoadNext
    | StoreNext
    | CompareExchange
    | Destroy
    | Join(r: nat)
    | Check(r: nat)
    | First(r: nat)
    | Compare(r: nat)
    | ReadNext(r: nat)

  const EMPTY := State(map[], None, 0, false, SIdle, map[], [], [])

  /** The messages of the entries that are newer than `seen`, in the order read. */
  function Newer(vec: seq<Entry>, seen: nat): seq<Msg> {
    if vec == [] then []
    else (if vec[0].version > seen then [vec[0].msg] else []) + Newer(vec[1..], seen)
  }

  predicate Enabled(s: State, step: Step) {
    match step
    case Number(_) => s.sender.SIdle?
    case Allocate(ptr) => s.sender.Numbered? && ptr !in s.heap
    case LoadNext => s.sender.Allocated?
    case StoreNext => s.sender.Loaded? && s.sender.node in s.heap
    case CompareExchange => s.sender.Linked?
    case Destroy => true
    case Join(r) => r !in s.receivers
    case Check(r) => r in s.receivers && s.receivers[r].call.RIdle?
    case First(r) => r in s.receivers && s.receivers[r].call.Checked?
    case Compare(r) =>
      r in s.receivers && s.receivers[r].call.GotFirst? && s.receivers[r].call.node in s.heap
    case ReadNext(r) =>
      r in s.receivers && s.receivers[r].call.Reading?
      && (s.receivers[r].call.at.Some? ==> s.receivers[r].call.at.value in s.heap)
      && (var next := NextOf(s, s.receivers[r].call.at); next.Some? ==> next.value in s.heap)
  }

  function NextOf(s: State, at: Option<Ptr>): Option<Ptr>
    requires at.Some? ==> at.value in s.heap
  {
    if at.None? then s.first else s.heap[at.value].next
  }

  function Apply(s: State, step: Step): State
    requires Enabled(s, step)
  {
    match step
    case Number(msg) => s.(version := s.version + 1, sender := Numbered(Entry(msg, s.version + 1)))
    case Allocate(ptr) => s.(heap := s.heap[ptr := Node(s.sender.entry, None)], sender := Allocated(ptr))
    case LoadNext => s.(sender := Loaded(s.sender.node, s.first))
    case StoreNext =>
      var Loaded(node, next) := s.sender;
      s.(heap := s.heap[node := s.heap[node].(next := next)], sender := Linked(node, next))
    case CompareExchange =>
      var Linked(node, next) := s.sender;
      if s.first == next && node in s.heap then
        s.(first := Some(node), sender := SIdle, sent := s.sent + [s.heap[node].elem.msg], nodes := s.nodes + [node])
      else s.(sender := Panicked)
    case Destroy => s.(destroyed := true)
    case Join(r) => s.(receivers := s.receivers[r := Receiver(RIdle, 0, [])])
    case _ => s.(receivers := s.receivers[step.r := Receive(s, s.receivers[step.r], step)])
  }

  predicate IsReceive(step: Step) {
    step.Check? || step.First? || step.Compare? || step.ReadNext?
  }

  /** A receiver's step. */
  function Receive(s: State, x: Receiver, step: Step): Receiver
    requires Enabled(s, step) && IsReceive(step)
    requires step.r in s.receivers && x == s.receivers[step.r]
  {
    match step
    case Check(_) => if s.destroyed then x else x.(call := Checked(|s.sent|))
    case First(_) => x.(call := if s.first.None? then Crashed else GotFirst(s.first.value, x.call.since))
    case Compare(_) =>
      if s.heap[x.call.node].elem.version <= x.lastSeen then x.(call := RIdle)
      else x.(call := Reading(None, [], x.call.since))
    case ReadNext(_) =>
      var Reading(at, vec, since) := x.call;
      var next := NextOf(s, at);
      if next.Some? then x.(call := Reading(next, vec + [s.heap[next.value].elem], since))
      else if vec == [] then x.(call := Crashed)
      else Receiver(RIdle, vec[0].version, x.batches + [Newer(vec, x.lastSeen)])
  }

  // The invariant

  function PtrOf(nodes: seq<Ptr>, v: nat): Option<Ptr>
    requires v <= |nodes|
  {
    if v == 0 then None else Some(nodes[v - 1])
  }

  /** The node published as version `v` holds that message and links to version `v - 1`. */
  predicate NodeOk(s: State, v: nat)
    requires 0 < v <= |s.sent| == |s.nodes|
  {
    s.nodes[v - 1] in s.heap
    && s.heap[s.nodes[v - 1]] == Node(Entry(s.sent[v - 1], v), PtrOf(s.nodes, v - 1))
  }

  ghost predicate PublishedOk(s: State) {
    && |s.sent| == |s.nodes| && s.first == PtrOf(s.nodes, |s.nodes|)
    && forall v :: 0 < v <= |s.sent| ==> NodeOk(s, v)
  }

  /** The sender's new node is not published yet. */
  predicate Private(s: State, node: Ptr, next: Option<Ptr>) {
    node in s.heap && node !in s.nodes && s.heap[node].elem.version == |s.sent| + 1 && s.heap[node].next == next
  }

  predicate SenderOk(s: State) {
    match s.sender
    case SIdle => s.version == |s.sent|
    case Numbered(e) => s.version == |s.sent| + 1 && e.version == s.version
    case Allocated(node) => s.version == |s.sent| + 1 && Private(s, node, None)
    case Loaded(node, next) => s.version == |s.sent| + 1 && Private(s, node, None) && next == s.first
    case Linked(node, next) => s.version == |s.sent| + 1 && Private(s, node, next) && next == s.first
    case Panicked => false
  }

  /** The entries `top`, `top - 1`, ... as they are read from the front. */
  predicate ReadDown(sent: seq<Msg>, vec: seq<Entry>, top: nat) {
    |vec| <= top <= |sent| && forall i :: 0 <= i < |vec| ==> vec[i] == Entry(sent[top - 1 - i], top - i)
  }

  predicate CallOk(s: State, x: Receiver)
    requires |s.sent| == |s.nodes|
  {
    match x.call
    case RIdle => true
    case Checked(since) => since <= |s.sent|
    case GotFirst(node, since) => since <= |s.sent| && exists v :: since <= v <= |s.sent| && IsVersion(s, node, v)
    case Reading(at, vec, since) =>
      && since <= |s.sent| && x.lastSeen < |s.sent|
      && (vec == [] <==> at.None?)
      && (vec != [] ==> x.lastSeen < vec[0].version && since <= vec[0].version
                        && ReadDown(s.sent, vec, vec[0].version)
                        && at == PtrOf(s.nodes, vec[0].version - |vec| + 1))
    case Crashed => true
  }

  predicate IsVersion(s: State, node: Ptr, v: nat)
    requires |s.sent| == |s.nodes|
  {
    0 < v <= |s.sent| && s.nodes[v - 1] == node
  }

  function Reverse(m: seq<Msg>): (r: seq<Msg>)
    ensures |r| == |m|
  {
    if m == [] then [] else Reverse(m[1..]) + [m[0]]
  }

  /** Everything delivered, in the order of sending: every batch is newest first. */
  function Delivered(batches: seq<seq<Msg>>): seq<Msg> {
    if batches == [] then []
    else Delivered(batches[..|batches| - 1]) + Reverse(batches[|batches| - 1])
  }

  predicate ReceiverOk(s: State, x: Receiver)
    requires |s.sent| == |s.nodes|
  {
    x.lastSeen <= |s.sent| && Delivered(x.batches) == s.sent[..x.lastSeen] && CallOk(s, x)
  }

  ghost predicate Inv(s: State) {
    PublishedOk(s) && SenderOk(s) && forall r :: r in s.receivers ==> ReceiverOk(s, s.receivers[r])
  }

  // Every step keeps it

  lemma NewerAll(sent: seq<Msg>, vec: seq<Entry>, top: nat, seen: nat)
    requires ReadDown(sent, vec, top) && |vec| == top
    ensures seen <= top ==> Reverse(Newer(vec, seen)) == sent[seen..top]
    ensures top <= seen ==> Newer(vec, seen) == []
  {
    if top > 0 {
      NewerAll(sent, vec[1..], top - 1, seen);
      if seen < top {
        var rest := Newer(vec[1..], seen);
        assert Newer(vec, seen) == [vec[0].msg] + rest;
        assert ([vec[0].msg] + rest)[1..] == rest;
        assert sent[seen..top] == sent[seen..top - 1] + [sent[top - 1]];
      }
    }
  }

  lemma SenderKeepsReceiver(s: State, s': State, x: Receiver)
    requires |s.sent| == |s.nodes| && |s'.sent| == |s'.nodes| && s.sent <= s'.sent && s.nodes <= s'.nodes
    requires ReceiverOk(s, x)
    ensures ReceiverOk(s', x)
  {
    assert s'.sent[..x.lastSeen] == s.sent[..x.lastSeen];
    match x.call {
      case GotFirst(node, since) =>
        var v: nat :| since <= v <= |s.sent| && IsVersion(s, node, v);
        assert IsVersion(s', node, v);
      case Reading(at, vec, since) =>
        if vec != [] {
          assert PtrOf(s'.nodes, vec[0].version - |vec| + 1) == PtrOf(s.nodes, vec[0].version - |vec| + 1);
        }
      case _ =>
    }
  }

  lemma ReceiveKeeps(s: State, x: Receiver, step: Step)
    requires PublishedOk(s) && Enabled(s, step) && IsReceive(step)
    requires step.r in s.receivers && x == s.receivers[step.r] && ReceiverOk(s, x)
    ensures ReceiverOk(s, Receive(s, x, step))
  {
    match step {
      case Check(_) =>
      case First(_) =>
        if s.first.Some? { assert IsVersion(s, s.first.value, |s.sent|); }
      case Compare(_) =>
        var v: nat :| x.call.since <= v <= |s.sent| && IsVersion(s, x.call.node, v);
        assert NodeOk(s, v);
      case ReadNext(_) =>
        var Reading(at, vec, since) := x.call;
        if vec == [] {
          assert NodeOk(s, |s.sent|);
        } else {
          var top := vec[0].version;
          assert NodeOk(s, top - |vec| + 1);
          if top - |vec| > 0 {
            assert NodeOk(s, top - |vec|);
          } else {
            NewerAll(s.sent, vec, top, x.lastSeen);
            var x' := Receive(s, x, step);
            assert x'.batches[..|x'.batches| - 1] == x.batches;
            assert s.sent[..top] == s.sent[..x.lastSeen] + s.sent[x.lastSeen..top];
          }
        }
    }
  }

  lemma InvStep(s: State, step: Step)
    requires Inv(s) && Enabled(s, step)
    ensures Inv(Apply(s, step))
  {
    var s' := Apply(s, step);
    PublishedKept(s, step);
    forall r | r in s'.receivers
      ensures ReceiverOk(s', s'.receivers[r])
    {
      if step.Join? && r == step.r {
        assert s'.receivers[r] == Receiver(RIdle, 0, []);
      } else {
        if IsReceive(step) && r == step.r { ReceiveKeeps(s, s.receivers[r], step); }
        SenderKeepsReceiver(s, s', s'.receivers[r]);
      }
    }
  }

  lemma PublishedKept(s: State, step: Step)
    requires Inv(s) && Enabled(s, step)
    ensures var s' := Apply(s, step); PublishedOk(s') && SenderOk(s') && s.sent <= s'.sent && s.nodes <= s'.nodes
  {
    var s' := Apply(s, step);
    forall i | 0 <= i < |s.nodes|
      ensures s.nodes[i] in s.heap
    {
      assert NodeOk(s, i + 1);
    }
    forall v: nat | 0 < v <= |s'.sent|
      ensures NodeOk(s', v)
    {
      if v <= |s.sent| { assert NodeOk(s, v); }
    }
  }

  // Runs

  /** The state after a run of steps; `None` if a step was not possible. */
  function After(steps: seq<Step>): Option<State> {
    if steps == [] then Some(EMPTY)
    else
      var s := After(steps[..|steps| - 1]);
      if s.Some? && Enabled(s.value, steps[|steps| - 1]) then Some(Apply(s.value, steps[|steps| - 1])) else None
  }

  lemma {:induction false} RunKeeps(steps: seq<Step>)
    ensures After(steps).Some? ==> Inv(After(steps).value)
  {
    if steps != [] {
      RunKeeps(steps[..|steps| - 1]);
      var s := After(steps[..|steps| - 1]);
      if s.Some? && Enabled(s.value, steps[|steps| - 1]) { InvStep(s.value, steps[|steps| - 1]); }
    }
  }

  /** Under every interleaving: each receiver got exactly the first `lastSeen` messages, each once and in order, and
      the sender's compare-exchange never fails. */
  lemma ExactlyOnceInOrder(steps: seq<Step>, r: nat)
    requires After(steps).Some?
    ensures !After(steps).value.sender.Panicked?
    ensures r in After(steps).value.receivers ==>
      var x := After(steps).value.receivers[r];
      x.lastSeen <= |After(steps).value.sent| && Delivered(x.batches) == After(steps).value.sent[..x.lastSeen]
  {
    RunKeeps(steps);
  }

  /** The versions met on the way from `at` down the links, at most `fuel` of them. */
  function VersionsFrom(heap: map<Ptr, Node>, at: Option<Ptr>, fuel: nat): seq<nat>
    decreases fuel
  {
    if fuel == 0 || at.None? || at.value !in heap then []
    else [heap[at.value].elem.version] + VersionsFrom(heap, heap[at.value].next, fuel - 1)
  }

  function CountDown(k: nat): seq<nat> {
    if k == 0 then [] else [k] + CountDown(k - 1)
  }

  lemma {:induction false} VersionsBelow(s: State, v: nat, fuel: nat)
    requires PublishedOk(s) && v <= |s.sent| && v <= fuel
    ensures VersionsFrom(s.heap, PtrOf(s.nodes, v), fuel) == CountDown(v)
    decreases v
  {
    if v > 0 {
      assert NodeOk(s, v);
      VersionsBelow(s, v - 1, fuel - 1);
    }
  }

  /** At every moment the published versions read k, k - 1, ..., 1 from the front, and then the list ends. */
  lemma PublishedCountDown(steps: seq<Step>, fuel: nat)
    requires After(steps).Some? && fuel >= |After(steps).value.sent|
    ensures VersionsFrom(After(steps).value.heap, After(steps).value.first, fuel)
         == CountDown(|After(steps).value.sent|)
  {
    RunKeeps(steps);
    VersionsBelow(After(steps).value, |After(steps).value.sent|, fuel);
  }

  /** A receiver dereferences null exactly when it asks for the first element before anything was published. */
  lemma CrashIff(steps: seq<Step>, step: Step, r: nat)
    requires After(steps).Some? && Enabled(After(steps).value, step)
    requires r in After(steps).value.receivers && !After(steps).value.receivers[r].call.Crashed?
    ensures var s := After(steps).value;
      Apply(s, step).receivers[r].call.Crashed? <==> step == First(r) && s.sent == []
  {
    RunKeeps(steps);
    var s := After(steps).value;
    assert ReceiverOk(s, s.receivers[r]);
    if step == ReadNext(r) && s.receivers[r].call.vec == [] { assert NodeOk(s, |s.sent|); }
  }

  /** A call that returns has seen every message published before it began: with a batch it catches up at least to
      there, without one there was nothing newer. */
  lemma ReturnsFresh(steps: seq<Step>, step: Step, r: nat)
    requires After(steps).Some? && Enabled(After(steps).value, step) && IsReceive(step) && step.r == r
    requires r in After(steps).value.receivers
    requires var s := After(steps).value;
      (s.receivers[r].call.GotFirst? || s.receivers[r].call.Reading?) && Apply(s, step).receivers[r].call.RIdle?
    ensures var s := After(steps).value; var x, x' := s.receivers[r], Apply(s, step).receivers[r];
      && x.call.since <= x'.lastSeen
      && (step.Compare? ==> x'.batches == x.batches && x'.lastSeen == x.lastSeen)
      && (step.ReadNext? ==> |x'.batches| == |x.batches| + 1 && x.lastSeen < x'.lastSeen)
  {
    RunKeeps(steps);
    var s := After(steps).value;
    var x := s.receivers[r];
    assert ReceiverOk(s, x);
    if step.Compare? {
      var v: nat :| x.call.since <= v <= |s.sent| && IsVersion(s, x.call.node, v);
      assert NodeOk(s, v);
    }
  }

  /** No step reads or writes through a stale link: where a call or the sender stands, the node is there. */
  lemma NodesAreThere(steps: seq<Step>, r: nat)
    requires After(steps).Some?
    ensures var s := After(steps).value;
      && (s.sender.Loaded? ==> Enabled(s, StoreNext))
      && (r in s.receivers && s.receivers[r].call.GotFirst? ==> Enabled(s, Compare(r)))
      && (r in s.receivers && s.receivers[r].call.Reading? ==> Enabled(s, ReadNext(r)))
  {
    RunKeeps(steps);
    var s := After(steps).value;
    if r in s.receivers {
      var x := s.receivers[r];
      assert ReceiverOk(s, x);
      if x.call.GotFirst? {
        var v: nat :| x.call.since <= v <= |s.sent| && IsVersion(s, x.call.node, v);
        assert NodeOk(s, v);
      } else if x.call.Reading? {
        if x.call.vec == [] {
          assert NodeOk(s, |s.sent|);
        } else {
          var v := x.call.vec[0].version - |x.call.vec| + 1;
          assert NodeOk(s, v);
          if v > 1 { assert NodeOk(s, v - 1); }
        }
      }
    }
  }

  /** The messages whose sending began, in order. */
  function Begun(steps: seq<Step>): seq<Msg> {
    if steps == [] then []
    else
      var step := steps[|steps| - 1];
      Begun(steps[..|steps| - 1]) + if step.Number? then [step.msg] else []
  }

  function InFlight(s: State): seq<Msg> {
    match s.sender
    case SIdle => []
    case Numbered(e) => [e.msg]
    case Panicked => []
    case _ => if s.sender.node in s.heap then [s.heap[s.sender.node].elem.msg] else []
  }

  lemma SentStep(s: State, step: Step)
    requires SenderOk(s) && Enabled(s, step)
    requires step.CompareExchange? ==> s.first == s.sender.next
    ensures var s' := Apply(s, step);
      s'.sent + InFlight(s') == s.sent + InFlight(s) + if step.Number? then [step.msg] else []
  {
    var s' := Apply(s, step);
    match step {
      case Number(msg) =>
      case Allocate(ptr) =>
      case LoadNext =>
      case StoreNext =>
      case CompareExchange =>
      case _ => assert s'.sent == s.sent && InFlight(s') == InFlight(s);
    }
  }

  /** What was published is what was sent, in order, but for a message on its way. */
  lemma {:induction false} SentInOrder(steps: seq<Step>)
    requires After(steps).Some?
    ensures Begun(steps) == After(steps).value.sent + InFlight(After(steps).value)
  {
    if steps != [] {
      var before := steps[..|steps| - 1];
      SentInOrder(before);
      RunKeeps(before);
      SentStep(After(before).value, steps[|steps| - 1]);
    }
  }
}
