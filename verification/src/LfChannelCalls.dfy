/** Whole calls on the channel, run without interference from any state that an interleaving can reach: a send publishes
    its message, and a receive catches up with all that was published. */
module LfChannelCalls {
  import opened Options
  import opened LfChannel

  /** The state after the steps; `None` if one of them was not possible. */
  function RunFrom(s: State, steps: seq<Step>): Option<State>
    decreases |steps|
  {
    if steps == [] then Some(s)
    else if Enabled(s, steps[0]) then RunFrom(Apply(s, steps[0]), steps[1..])
    else None
  }

  lemma OneStep(s: State, step: Step, steps: seq<Step>)
    requires Enabled(s, step)
    ensures RunFrom(s, [step] + steps) == RunFrom(Apply(s, step), steps)
  {
    assert ([step] + steps)[1..] == steps;
  }

  lemma ThreeSteps(s: State, a: Step, b: Step, c: Step, steps: seq<Step>)
    requires Enabled(s, a) && Enabled(Apply(s, a), b) && Enabled(Apply(Apply(s, a), b), c)
    ensures RunFrom(s, [a, b, c] + steps) == RunFrom(Apply(Apply(Apply(s, a), b), c), steps)
  {
    OneStep(s, a, [b, c] + steps);
    OneStep(Apply(s, a), b, [c] + steps);
    OneStep(Apply(Apply(s, a), b), c, steps);
    assert [a, b, c] + steps == [a] + ([b, c] + steps) && [b, c] + steps == [b] + ([c] + steps);
  }

  /** A run from a reachable state leads to one. */
  lemma {:induction false} RunOn(before: seq<Step>, s: State, steps: seq<Step>)
    requires After(before) == Some(s)
    ensures After(before + steps) == RunFrom(s, steps)
    decreases |steps|
  {
    if steps == [] {
      assert before + steps == before;
    } else {
      var next := before + [steps[0]];
      assert next[..|next| - 1] == before && next + steps[1..] == before + steps;
      if Enabled(s, steps[0]) {
        RunOn(next, Apply(s, steps[0]), steps[1..]);
      } else {
        Stopped(next, steps[1..]);
      }
    }
  }

  lemma {:induction false} Stopped(before: seq<Step>, steps: seq<Step>)
    requires After(before) == None
    ensures After(before + steps) == None
    decreases |steps|
  {
    var all := before + steps;
    if steps == [] {
      assert all == before;
    } else {
      Stopped(before, steps[..|steps| - 1]);
      assert all[..|all| - 1] == before + steps[..|steps| - 1];
    }
  }

  // Sending

  function SendSteps(m: Msg, ptr: Ptr): seq<Step> {
    [Number(m), Allocate(ptr), LoadNext, StoreNext, CompareExchange]
  }

  /** A send from any reachable state publishes its message behind all others and leaves the receivers alone. */
  lemma SendAlone(steps: seq<Step>, m: Msg, ptr: Ptr)
    requires After(steps).Some? && After(steps).value.sender.SIdle? && ptr !in After(steps).value.heap
    ensures var s, r := After(steps).value, RunFrom(After(steps).value, SendSteps(m, ptr));
      && r.Some? && r.value.sent == s.sent + [m] && r.value.nodes == s.nodes + [ptr] && r.value.sender == SIdle
      && r.value.receivers == s.receivers && r.value.destroyed == s.destroyed
  {
    var s0 := After(steps).value;
    var s1 := Apply(s0, Number(m));
    OneStep(s0, Number(m), [Allocate(ptr), LoadNext, StoreNext, CompareExchange]);
    var s2 := Apply(s1, Allocate(ptr));
    OneStep(s1, Allocate(ptr), [LoadNext, StoreNext, CompareExchange]);
    var s3 := Apply(s2, LoadNext);
    OneStep(s2, LoadNext, [StoreNext, CompareExchange]);
    var s4 := Apply(s3, StoreNext);
    OneStep(s3, StoreNext, [CompareExchange]);
    OneStep(s4, CompareExchange, []);
  }

  // Receiving

  function With(s: State, r: nat, x: Receiver): State {
    s.(receivers := s.receivers[r := x])
  }

  function Reads(r: nat, k: nat): seq<Step> {
    if k == 0 then [] else [ReadNext(r)] + Reads(r, k - 1)
  }

  /** The entries of the versions `v`, `v - 1`, ..., 1. */
  function Down(sent: seq<Msg>, v: nat): seq<Entry>
    requires v <= |sent|
  {
    if v == 0 then [] else [Entry(sent[v - 1], v)] + Down(sent, v - 1)
  }

  lemma {:induction false} DownReads(sent: seq<Msg>, v: nat)
    requires v <= |sent|
    ensures |Down(sent, v)| == v && ReadDown(sent, Down(sent, v), v)
  {
    if v > 0 { DownReads(sent, v - 1); }
  }

  /** A receiver that read the versions above `v`, as `vec`. */
  predicate ReadTo(s: State, x: Receiver, vec: seq<Entry>, v: nat)
    requires |s.sent| == |s.nodes|
  {
    && x.call.Reading? && x.call.vec == vec
    && (if vec == [] then 0 < v == |s.sent| && x.call.at == None else v < |s.sent| && x.call.at == Some(s.nodes[v]))
  }

  lemma ReadOne(s: State, r: nat, x: Receiver, vec: seq<Entry>, v: nat)
    requires PublishedOk(s) && ReadTo(s, x, vec, v)
    ensures Enabled(With(s, r, x), ReadNext(r))
    ensures v == 0 ==> Apply(With(s, r, x), ReadNext(r)) == With(s, r, Returned(x, vec))
    ensures v > 0 ==>
      var vec' := vec + [Entry(s.sent[v - 1], v)]; var x' := x.(call := Reading(Some(s.nodes[v - 1]), vec', x.call.since));
      Apply(With(s, r, x), ReadNext(r)) == With(s, r, x') && ReadTo(s, x', vec', v - 1)
  {
    if vec != [] { assert NodeOk(s, v + 1); }
    if v > 0 { assert NodeOk(s, v); }
    assert forall y :: With(With(s, r, x), r, y) == With(s, r, y);
  }

  /** With `v` versions still to read, `v + 1` reads come to the end of the list and return. */
  lemma {:induction false} ReadsReturn(s: State, r: nat, x: Receiver, vec: seq<Entry>, v: nat)
    requires PublishedOk(s) && ReadTo(s, x, vec, v)
    ensures RunFrom(With(s, r, x), Reads(r, v + 1)) == Some(With(s, r, Returned(x, vec + Down(s.sent, v))))
    decreases v
  {
    ReadOne(s, r, x, vec, v);
    OneStep(With(s, r, x), ReadNext(r), Reads(r, v));
    if v == 0 {
      assert vec + Down(s.sent, v) == vec;
    } else {
      var vec' := vec + [Entry(s.sent[v - 1], v)];
      var x' := x.(call := Reading(Some(s.nodes[v - 1]), vec', x.call.since));
      ReadsReturn(s, r, x', vec', v - 1);
      assert vec' + Down(s.sent, v - 1) == vec + Down(s.sent, v);
      assert Returned(x', vec + Down(s.sent, v)) == Returned(x, vec + Down(s.sent, v));
    }
  }

  function Returned(x: Receiver, vec: seq<Entry>): Receiver
    requires vec != []
  {
    Receiver(RIdle, vec[0].version, x.batches + [Newer(vec, x.lastSeen)])
  }

  predicate NewestFirst(batch: seq<Msg>, sent: seq<Msg>) {
    |batch| == |sent| && forall k :: 0 <= k < |sent| ==> sent[k] == batch[|batch| - 1 - k]
  }

  /** The steps of a call where `n` messages are published: it reads the list if the receiver has not seen them all. */
  function ReceiveSteps(r: nat, lastSeen: nat, n: nat): seq<Step> {
    [Check(r), First(r), Compare(r)] + if lastSeen < n then Reads(r, n + 1) else []
  }

  lemma StartReceive(s: State, r: nat, x: Receiver, node: Ptr, more: seq<Step>)
    requires !s.destroyed && r in s.receivers && x == s.receivers[r] && x.call.RIdle?
    requires s.first == Some(node) && node in s.heap && s.heap[node].elem.version == |s.sent|
    ensures RunFrom(s, [Check(r), First(r), Compare(r)] + more) ==
      RunFrom(With(s, r, if x.lastSeen < |s.sent| then x.(call := Reading(None, [], |s.sent|)) else x), more)
  {
    var s1, s2 := With(s, r, x.(call := Checked(|s.sent|))), With(s, r, x.(call := GotFirst(node, |s.sent|)));
    assert Enabled(s, Check(r)) && Apply(s, Check(r)) == s1;
    assert Enabled(s1, First(r)) && Apply(s1, First(r)) == s2;
    assert Enabled(s2, Compare(r));
    var x3 := if x.lastSeen < |s.sent| then x.(call := Reading(None, [], |s.sent|)) else x;
    assert Apply(s2, Compare(r)) == With(s2, r, x3) == With(s, r, x3);
    ThreeSteps(s, Check(r), First(r), Compare(r), more);
  }

  lemma {:induction false} ReverseAt(m: seq<Msg>, k: nat)
    requires k < |m|
    ensures Reverse(m)[k] == m[|m| - 1 - k]
  {
    if k < |m| - 1 { ReverseAt(m[1..], k); }
  }

  /** The receiver `x` has seen everything sent, as `x'`: what was new came as one batch, newest first; without anything
      new it is as before. */
  predicate Received(sent: seq<Msg>, x: Receiver, x': Receiver) {
    && x'.call == RIdle && x'.lastSeen == |sent| && Delivered(x'.batches) == sent
    && if x.lastSeen >= |sent| then x' == x
       else |x'.batches| == |x.batches| + 1 && x.batches < x'.batches
            && NewestFirst(x'.batches[|x.batches|], sent[x.lastSeen..])
  }

  /** A whole list read after the first `lastSeen` messages were delivered. */
  lemma CaughtUp(sent: seq<Msg>, x: Receiver, vec: seq<Entry>)
    requires vec == Down(sent, |sent|) && x.lastSeen < |sent| && Delivered(x.batches) == sent[..x.lastSeen]
    ensures vec != [] && Received(sent, x, Returned(x, vec))
  {
    var batch := Newer(vec, x.lastSeen);
    DownNewer(sent, x.lastSeen, vec);
    BatchReversed(batch, sent[x.lastSeen..]);
    OneMore(x.batches, batch, sent, x.lastSeen);
  }

  lemma DownNewer(sent: seq<Msg>, seen: nat, vec: seq<Entry>)
    requires vec == Down(sent, |sent|) && seen < |sent|
    ensures vec != [] && vec[0].version == |sent| && Reverse(Newer(vec, seen)) == sent[seen..]
  {
    DownReads(sent, |sent|);
    NewerAll(sent, vec, |sent|, seen);
    assert sent[seen..|sent|] == sent[seen..];
  }

  lemma OneMore(batches: seq<seq<Msg>>, batch: seq<Msg>, sent: seq<Msg>, seen: nat)
    requires seen <= |sent| && Delivered(batches) == sent[..seen] && Reverse(batch) == sent[seen..]
    ensures Delivered(batches + [batch]) == sent
  {
    assert (batches + [batch])[..|batches|] == batches;
    assert sent[..seen] + sent[seen..] == sent;
  }

  lemma BatchReversed(batch: seq<Msg>, sent: seq<Msg>)
    requires Reverse(batch) == sent
    ensures NewestFirst(batch, sent)
  {
    forall k | 0 <= k < |sent|
      ensures sent[k] == batch[|batch| - 1 - k]
    {
      ReverseAt(batch, k);
    }
  }

  /** A call on a live channel with messages, from any reachable state: each of its steps is possible, and it returns
      all messages that the receiver has not seen, newest first, or nothing if there are none. */
  lemma ReceiveAlone(steps: seq<Step>, r: nat) returns (x': Receiver)
    requires After(steps).Some? && !After(steps).value.destroyed && After(steps).value.sent != []
    requires r in After(steps).value.receivers && After(steps).value.receivers[r].call.RIdle?
    ensures var s := After(steps).value; var x := s.receivers[r];
      RunFrom(s, ReceiveSteps(r, x.lastSeen, |s.sent|)) == Some(With(s, r, x')) && Received(s.sent, x, x')
  {
    RunKeeps(steps);
    x' := ReceiveFrom(After(steps).value, r, After(steps).value.receivers[r]);
  }

  lemma ReceiveFrom(s: State, r: nat, x: Receiver) returns (x': Receiver)
    requires Inv(s) && !s.destroyed && s.sent != [] && r in s.receivers && x == s.receivers[r] && x.call.RIdle?
    ensures RunFrom(s, ReceiveSteps(r, x.lastSeen, |s.sent|)) == Some(With(s, r, x')) && Received(s.sent, x, x')
  {
    var n := |s.sent|;
    assert ReceiverOk(s, x) && NodeOk(s, n);
    StartReceive(s, r, x, s.nodes[n - 1], if x.lastSeen < n then Reads(r, n + 1) else []);
    if x.lastSeen < n {
      var vec := Down(s.sent, n);
      ReadsReturn(s, r, x.(call := Reading(None, [], n)), [], n);
      CaughtUp(s.sent, x, vec);
      x' := Returned(x, vec);
      assert [] + vec == vec && Returned(x.(call := Reading(None, [], n)), vec) == x';
    } else {
      x' := x;
      assert With(s, r, x) == s && s.sent[..n] == s.sent;
    }
  }

  /** On a destroyed channel a call returns nothing and changes nothing. */
  lemma DestroyedReceive(s: State, r: nat)
    requires s.destroyed && Enabled(s, Check(r))
    ensures Apply(s, Check(r)) == s
  {
    assert s.receivers[r := s.receivers[r]] == s.receivers;
  }

  /** A channel is destroyed once it was told so, and not before. */
  lemma {:induction false} DestroyedIff(steps: seq<Step>)
    requires After(steps).Some?
    ensures After(steps).value.destroyed <==> Destroy in steps
  {
    if steps != [] {
      var before := steps[..|steps| - 1];
      DestroyedIff(before);
      assert steps == before + [steps[|steps| - 1]];
    }
  }
}
