/** The scheduler's state and its fairness: hands stay in range, every slice of a container and every resource block
    gets its turn. */
module Schedulers {
  import opened Options
  import opened Bits
  import opened Schedule
  import opened ScheduleTermination

  // Turns of a rotating hand

  /** How often position `j` is used in `m` uses of a hand that starts at `h` and turns over `k` positions. */
  function Uses(h: nat, k: nat, m: nat, j: nat): nat
    requires h < k
    decreases m
  {
    if m == 0 then 0 else (if h == j then 1 else 0) + Uses((h + 1) % k, k, m - 1, j)
  }

  function Turned(h: nat, k: nat, m: nat): (r: nat)
    requires h < k
    ensures r < k
    decreases m
  {
    if m == 0 then h else Turned((h + 1) % k, k, m - 1)
  }

  lemma {:induction false} TurnedIs(h: nat, k: nat, m: nat)
    requires h < k
    ensures Turned(h, k, m) == (h + m) % k
    decreases m
  {
    if m == 0 {
      ModUnique(h, k, 0, h);
    } else {
      TurnedIs((h + 1) % k, k, m - 1);
      if h + 1 < k {
        ModUnique(h + 1, k, 0, h + 1);
      } else {
        ModUnique(k, k, 1, 0);
        ModShift(m - 1, k);
      }
    }
  }

  lemma {:induction false} UsesSplit(h: nat, k: nat, a: nat, b: nat, j: nat)
    requires h < k
    ensures Uses(h, k, a + b, j) == Uses(h, k, a, j) + Uses(Turned(h, k, a), k, b, j)
    decreases a
  {
    if a > 0 { UsesSplit((h + 1) % k, k, a - 1, b, j); }
  }

  /** Within one turn a position is used at most once: when the hand gets there. */
  lemma {:induction false} UsesInTurn(h: nat, k: nat, m: nat, j: nat)
    requires h < k && j < k && m <= k
    ensures Uses(h, k, m, j) == if Lag(j, h, k) < m then 1 else 0
    decreases m
  {
    if m > 0 {
      LagNext(j, h, k);
      UsesInTurn((h + 1) % k, k, m - 1, j);
    }
  }

  lemma FullTurn(h: nat, k: nat)
    requires h < k
    ensures Turned(h, k, k) == h
  {
    TurnedIs(h, k, k);
    ModUnique(h + k, k, 1, h);
  }

  /** `q` full turns use every position exactly `q` times; part of a turn adds at most one. */
  lemma {:induction false} UsesFair(h: nat, k: nat, q: nat, r: nat, j: nat)
    requires h < k && j < k && r <= k
    ensures q <= Uses(h, k, q * k + r, j) <= q + 1
    ensures r == 0 ==> Uses(h, k, q * k + r, j) == q
    decreases q
  {
    if q == 0 {
      UsesInTurn(h, k, r, j);
    } else {
      UsesFair(h, k, q - 1, r, j);
      assert q * k + r == k + ((q - 1) * k + r);
      UsesSplit(h, k, k, (q - 1) * k + r, j);
      UsesInTurn(h, k, k, j);
      FullTurn(h, k);
    }
  }

  // Fair use of slices

  function VisitsOf(visits: seq<Visit>, c: nat): nat {
    if visits == [] then 0 else (if visits[0].ct == c then 1 else 0) + VisitsOf(visits[1..], c)
  }

  function UsesOf(visits: seq<Visit>, c: nat, j: nat): nat {
    if visits == [] then 0 else (if visits[0] == Visit(c, j) then 1 else 0) + UsesOf(visits[1..], c, j)
  }

  /** What a run of visits leaves of a container with `k` slices whose hand stood at `h`. */
  ghost predicate Turns(h: nat, k: nat, visits: seq<Visit>, x: nat, j: nat, h': nat) {
    h < k && h' == Turned(h, k, VisitsOf(visits, x)) && UsesOf(visits, x, j) == Uses(h, k, VisitsOf(visits, x), j)
  }

  lemma TurnsCons(h: nat, k: nat, v: Visit, visits: seq<Visit>, x: nat, j: nat, h': nat)
    requires h < k && (v.ct == x ==> v.slice == h)
    requires Turns(if v.ct == x then (h + 1) % k else h, k, visits, x, j, h')
    ensures Turns(h, k, [v] + visits, x, j, h')
  {
    assert ([v] + visits)[1..] == visits;
  }

  lemma AdvancedFor(sys: System, ts: Table, c: nat, x: nat)
    requires HandsInRange(sys, ts) && Active(sys, ts, c) && Active(sys, ts, x)
    ensures var ts' := Advanced(sys, ts, c);
      && SameListing(ts, ts') && HandsInRange(sys, ts') && Active(sys, ts', x)
      && HandOf(ts', x) == if c == x then (HandOf(ts, x) + 1) % |Slices(sys, x)| else HandOf(ts, x)
  {
    AdvancedHands(sys, ts, c);
  }

  /** After a walk the hand of every container stands as many places further as the container was visited, and its
      slices were used in turn. */
  lemma {:induction false} WalkTurnsHands(sys: System, ts: Table, c: nat, fuel: nat, x: nat, j: nat)
    requires HandsInRange(sys, ts) && WalkFor(sys, ts, c, fuel).Some? && Active(sys, ts, x)
    ensures var w := WalkFor(sys, ts, c, fuel).value;
      && SameListing(ts, w.ts) && HandsInRange(sys, w.ts) && Active(sys, w.ts, x)
      && Turns(HandOf(ts, x), |Slices(sys, x)|, w.visits, x, j, HandOf(w.ts, x))
    decreases fuel
  {
    var w := WalkFor(sys, ts, c, fuel).value;
    var h, k := HandOf(ts, x), |Slices(sys, x)|;
    if Active(sys, ts, c) {
      AdvancedFor(sys, ts, c, x);
      var ts', rest := Advanced(sys, ts, c), WalkRest(sys, ts, c, fuel);
      if SliceAt(sys, ts, c).Redirect? {
        WalkTurnsHands(sys, ts', SliceAt(sys, ts, c).ct, fuel - 1, x, j);
      }
      assert Turns(HandOf(ts', x), k, rest.visits, x, j, HandOf(rest.ts, x));
      TurnsCons(h, k, Visit(c, HandOf(ts, c)), rest.visits, x, j, HandOf(rest.ts, x));
    }
  }

  /** The part of a walk after its first visit. */
  function WalkRest(sys: System, ts: Table, c: nat, fuel: nat): (rest: Walk)
    requires HandsInRange(sys, ts) && Active(sys, ts, c) && WalkFor(sys, ts, c, fuel).Some?
    ensures var w := WalkFor(sys, ts, c, fuel).value;
      w.ts == rest.ts && w.visits == [Visit(c, HandOf(ts, c))] + rest.visits
  {
    AdvancedHands(sys, ts, c);
    var s, ts' := SliceAt(sys, ts, c), Advanced(sys, ts, c);
    if s.Redirect? then WalkFor(sys, ts', s.ct, fuel - 1).value else Walk(None, ts', [])
  }

  /** `w` is the whole walk from `c`. */
  ghost predicate IsWalk(sys: System, ts: Table, c: nat, w: Walk) {
    HandsInRange(sys, ts) && exists fuel :: WalkFor(sys, ts, c, fuel) == Some(w)
  }

  /** The thread that it gives is the one that the slice used last stands for. */
  lemma WalkGives(sys: System, ts: Table, c: nat, w: Walk)
    requires IsWalk(sys, ts, c, w)
    ensures Follows(sys, ts, c, w.visits, w.thread)
  {
    var fuel: nat :| WalkFor(sys, ts, c, fuel) == Some(w);
    WalkFollows(sys, ts, c, fuel);
  }

  lemma FullWalkGives(sys: System, ts: Table, z: Certificate, c: nat)
    requires HandsInRange(sys, ts) && Certified(sys, ts, z) && c in z.region
    ensures var w := FullWalk(sys, ts, z, c); Follows(sys, ts, c, w.visits, w.thread)
  {
    WalkBounded(sys, ts, z, c);
    WalkFollows(sys, ts, c, Potential(sys, ts, z, c) + 1);
  }

  lemma WalkTurns(sys: System, ts: Table, c: nat, w: Walk, x: nat, j: nat)
    requires IsWalk(sys, ts, c, w) && Active(sys, ts, x)
    ensures SameListing(ts, w.ts) && HandsInRange(sys, w.ts) && Active(sys, w.ts, x)
    ensures Turns(HandOf(ts, x), |Slices(sys, x)|, w.visits, x, j, HandOf(w.ts, x))
  {
    var fuel: nat :| WalkFor(sys, ts, c, fuel) == Some(w);
    WalkTurnsHands(sys, ts, c, fuel, x, j);
  }

  /** The walks from the given containers, one after the other: the threads that they give, all their visits, and the
      hands after the last. */
  ghost predicate WalksFrom(sys: System, ts: Table, roots: seq<nat>, threads: seq<Option<nat>>, visits: seq<Visit>,
                            ts': Table)
    requires |threads| == |roots|
    decreases |roots|
  {
    if roots == [] then visits == [] && ts' == ts
    else exists w, rest :: FirstWalk(sys, ts, roots, threads, visits, ts', w, rest)
  }

  ghost predicate FirstWalk(sys: System, ts: Table, roots: seq<nat>, threads: seq<Option<nat>>, visits: seq<Visit>,
                            ts': Table, w: Walk, rest: seq<Visit>)
    requires |threads| == |roots| && roots != []
    decreases |roots|, 0
  {
    IsWalk(sys, ts, roots[0], w) && threads[0] == w.thread && visits == w.visits + rest
    && WalksFrom(sys, w.ts, roots[1..], threads[1..], rest, ts')
  }

  lemma WalksCons(sys: System, ts: Table, c: nat, w: Walk, roots: seq<nat>, threads: seq<Option<nat>>,
                  rest: seq<Visit>, ts': Table)
    requires |threads| == |roots| && IsWalk(sys, ts, c, w) && WalksFrom(sys, w.ts, roots, threads, rest, ts')
    ensures WalksFrom(sys, ts, [c] + roots, [w.thread] + threads, w.visits + rest, ts')
  {
    assert ([c] + roots)[1..] == roots && ([w.thread] + threads)[1..] == threads;
    assert FirstWalk(sys, ts, [c] + roots, [w.thread] + threads, w.visits + rest, ts', w, rest);
  }

  /** One more walk. */
  lemma {:induction false} WalksSnoc(sys: System, ts: Table, roots: seq<nat>, threads: seq<Option<nat>>,
                                     visits: seq<Visit>, ts': Table, c: nat, w: Walk)
    requires |threads| == |roots| && WalksFrom(sys, ts, roots, threads, visits, ts') && IsWalk(sys, ts', c, w)
    ensures WalksFrom(sys, ts, roots + [c], threads + [w.thread], visits + w.visits, w.ts)
    decreases |roots|
  {
    if roots == [] {
      assert WalksFrom(sys, w.ts, [], [], [], w.ts);
      WalksCons(sys, ts, c, w, [], [], [], w.ts);
      assert [c] + [] == roots + [c] && [w.thread] + [] == threads + [w.thread];
      assert visits + w.visits == w.visits + [];
    } else {
      var v, rest :| FirstWalk(sys, ts, roots, threads, visits, ts', v, rest);
      WalksSnoc(sys, v.ts, roots[1..], threads[1..], rest, ts', c, w);
      WalksCons(sys, ts, roots[0], v, roots[1..] + [c], threads[1..] + [w.thread], rest + w.visits, w.ts);
      assert [roots[0]] + (roots[1..] + [c]) == roots + [c];
      assert [v.thread] + (threads[1..] + [w.thread]) == threads + [w.thread];
      assert v.visits + (rest + w.visits) == visits + w.visits;
    }
  }

  lemma {:induction false} CountsAdd(a: seq<Visit>, b: seq<Visit>, c: nat, j: nat)
    ensures VisitsOf(a + b, c) == VisitsOf(a, c) + VisitsOf(b, c)
    ensures UsesOf(a + b, c, j) == UsesOf(a, c, j) + UsesOf(b, c, j)
  {
    if a == [] {
      assert a + b == b;
    } else {
      assert (a + b)[1..] == a[1..] + b;
      CountsAdd(a[1..], b, c, j);
    }
  }

  lemma {:induction false} TurnedSplit(h: nat, k: nat, a: nat, b: nat)
    requires h < k
    ensures Turned(h, k, a + b) == Turned(Turned(h, k, a), k, b)
    decreases a
  {
    if a > 0 { TurnedSplit((h + 1) % k, k, a - 1, b); }
  }

  /** Over any run of picks, with fixed slice lists, the hand of a container with `k` slices is (start + visits) mod k
      and all its slices are used equally often, up to one. */
  lemma {:induction false} RunIsFair(sys: System, ts: Table, roots: seq<nat>, threads: seq<Option<nat>>,
                                     visits: seq<Visit>, ts': Table, x: nat, j: nat)
    requires HandsInRange(sys, ts) && |threads| == |roots| && WalksFrom(sys, ts, roots, threads, visits, ts')
    requires Active(sys, ts, x) && j < |Slices(sys, x)|
    ensures var k := |Slices(sys, x)|; var m := VisitsOf(visits, x);
      && HandOf(ts', x) == (HandOf(ts, x) + m) % k
      && m / k <= UsesOf(visits, x, j) <= m / k + 1
  {
    RunTurnsHands(sys, ts, roots, threads, visits, ts', x, j);
    TurnsFair(HandOf(ts, x), |Slices(sys, x)|, VisitsOf(visits, x), j);
  }

  lemma TurnsFair(h: nat, k: nat, m: nat, j: nat)
    requires h < k && j < k
    ensures Turned(h, k, m) == (h + m) % k
    ensures m / k <= Uses(h, k, m, j) <= m / k + 1
  {
    TurnedIs(h, k, m);
    DivMod(m, k);
    UsesFair(h, k, m / k, m % k, j);
  }

  lemma DivMod(m: nat, k: nat)
    requires k > 0
    ensures m == m / k * k + m % k
  {
  }

  lemma {:induction false} RunTurnsHands(sys: System, ts: Table, roots: seq<nat>, threads: seq<Option<nat>>,
                                         visits: seq<Visit>, ts': Table, x: nat, j: nat)
    requires HandsInRange(sys, ts) && |threads| == |roots| && WalksFrom(sys, ts, roots, threads, visits, ts')
    requires Active(sys, ts, x) && j < |Slices(sys, x)|
    ensures var k := |Slices(sys, x)|; var m := VisitsOf(visits, x);
      && HandOf(ts', x) == Turned(HandOf(ts, x), k, m)
      && UsesOf(visits, x, j) == Uses(HandOf(ts, x), k, m, j)
    decreases |roots|
  {
    if roots != [] {
      var w, rest :| FirstWalk(sys, ts, roots, threads, visits, ts', w, rest);
      WalkTurns(sys, ts, roots[0], w, x, j);
      RunTurnsHands(sys, w.ts, roots[1..], threads[1..], rest, ts', x, j);
      TurnsAdd(HandOf(ts, x), |Slices(sys, x)|, w.visits, rest, x, j);
    }
  }

  lemma TurnsAdd(h: nat, k: nat, u: seq<Visit>, v: seq<Visit>, x: nat, j: nat)
    requires h < k
    ensures var (a, b) := (VisitsOf(u, x), VisitsOf(v, x));
      && VisitsOf(u + v, x) == a + b && UsesOf(u + v, x, j) == UsesOf(u, x, j) + UsesOf(v, x, j)
      && Turned(h, k, a + b) == Turned(Turned(h, k, a), k, b)
      && Uses(h, k, a + b, j) == Uses(h, k, a, j) + Uses(Turned(h, k, a), k, b, j)
  {
    CountsAdd(u, v, x, j);
    UsesSplit(h, k, VisitsOf(u, x), VisitsOf(v, x), j);
    TurnedSplit(h, k, VisitsOf(u, x), VisitsOf(v, x));
  }

  // The scheduler

  /** The positions of `m` consecutive picks. */
  function Picks(h: nat, n: nat, m: nat): seq<nat>
    requires h < n
    decreases m
  {
    if m == 0 then [] else [h] + Picks((h + 1) % n, n, m - 1)
  }

  function Count(s: seq<nat>, x: nat): nat {
    if s == [] then 0 else (if s[0] == x then 1 else 0) + Count(s[1..], x)
  }

  lemma {:induction false} PicksCount(h: nat, n: nat, m: nat, j: nat)
    requires h < n
    ensures Count(Picks(h, n, m), j) == Uses(h, n, m, j)
    decreases m
  {
    if m > 0 {
      PicksCount((h + 1) % n, n, m - 1, j);
      assert Picks(h, n, m)[1..] == Picks((h + 1) % n, n, m - 1);
    }
  }

  /** With `n` resource blocks, `q * n` consecutive picks choose every block exactly `q` times. */
  lemma RoundRobin(h: nat, n: nat, q: nat, j: nat)
    requires h < n && j < n
    ensures Count(Picks(h, n, q * n), j) == q
  {
    UsesFair(h, n, q, 0, j);
    PicksCount(h, n, q * n, j);
  }

  lemma {:induction false} PicksSnoc(h: nat, n: nat, m: nat)
    requires h < n
    ensures Picks(h, n, m + 1) == Picks(h, n, m) + [Turned(h, n, m)]
    ensures Turned(h, n, m + 1) == (Turned(h, n, m) + 1) % n
    decreases m
  {
    if m > 0 {
      PicksSnoc((h + 1) % n, n, m - 1);
    } else {
      assert Picks((h + 1) % n, n, 0) == [];
    }
  }

  class Scheduler {
    var sys: System
    var ts: Table
    var blocks: seq<nat>
    var hand: nat

    /** Hands are in range; those of containers without slices, and of an empty list of blocks, stand at 0. */
    ghost predicate Valid()
      reads this
    {
      && (forall c :: Listed(ts, c) ==> HandOf(ts, c) == 0 || HandOf(ts, c) < |Slices(sys, c)|)
      && (hand == 0 || hand < |blocks|)
    }

    constructor ()
      ensures Valid() && sys == map[] && ts == [] && blocks == []
    {
      sys, ts, blocks, hand := map[], [], [], 0;
    }

    lemma InRange()
      requires Valid()
      ensures HandsInRange(sys, ts)
    {
    }

    /** Slice lists only grow. */
    method PushSlice(c: nat, s: Slice)
      requires Valid() && c in sys
      modifies this`sys
      ensures Valid() && Slices(sys, c) == old(Slices(sys, c)) + [s]
      ensures forall d :: d != c ==> Slices(sys, d) == old(Slices(sys, d))
      ensures forall d :: d in sys <==> d in old(sys)
    {
      sys := sys[c := sys[c].(slices := Some(Slices(sys, c) + [s]))];
    }

    method PushEntry(c: nat)
      requires Valid()
      modifies this`ts
      ensures Valid() && ts == old(ts) + [Entry(c, 0)]
    {
      forall d
        ensures Listed(ts + [Entry(c, 0)], d) ==>
          HandOf(ts + [Entry(c, 0)], d) == 0 || HandOf(ts + [Entry(c, 0)], d) < |Slices(sys, d)|
      {
        FindAppended(ts, Entry(c, 0), d);
      }
      ts := ts + [Entry(c, 0)];
    }

    method PushBlock(holder: nat)
      requires Valid()
      modifies this`blocks
      ensures Valid() && blocks == old(blocks) + [holder]
    {
      blocks := blocks + [holder];
    }

    /** Visits `c`, and on along redirects. `z` is evidence that the walk ends. */
    method FindNextThread(c: nat, ghost z: Certificate) returns (th: Option<nat>, ghost visits: seq<Visit>)
      requires Valid() && HandsInRange(sys, ts) && Certified(sys, ts, z) && c in z.region
      modifies this`ts
      ensures Valid() && HandsInRange(sys, ts) && Certified(old(sys), old(ts), z)
      ensures Walk(th, ts, visits) == FullWalk(old(sys), old(ts), z, c)
      ensures Follows(sys, old(ts), c, visits, th)
      decreases Potential(sys, ts, z, c)
    {
      FullWalkGives(sys, ts, z, c);
      var i := Find(ts, c);
      if i == |ts| || Slices(sys, c) == [] {
        return None, [];
      }
      var slices := Slices(sys, c);
      var h := ts[i].hand;
      visits := [Visit(c, h)];
      AdvancedCertified(sys, ts, z, c);
      AdvancedHands(sys, ts, c);
      if slices[h].Redirect? { PotentialFalls(sys, ts, z, c, slices[h].ct); }
      ts := ts[i := Entry(c, (h + 1) % |slices|)];
      match slices[h] {
        case Routine => th := sys[c].scheduler;
        case Execute(t) => th := Some(t);
        case Redirect(d) =>
          ghost var more;
          th, more := FindNextThread(d, z);
          visits := visits + more;
      }
    }

    /** The walk from a container from which every walk ends. */
    method WalkFrom(c: nat) returns (th: Option<nat>, ghost visits: seq<Visit>)
      requires Valid() && AllCanStop(sys, ts, c)
      modifies this`ts
      ensures Valid() && IsWalk(sys, old(ts), c, Walk(th, ts, visits)) && Follows(sys, old(ts), c, visits, th)
    {
      InRange();
      ghost var z := MakeCertificate(sys, ts, c);
      WalkIs(sys, ts, z, c);
      th, visits := FindNextThread(c, z);
    }

    /** Picks the next resource block and a thread from its holder. */
    method ScheduleByResourceBlocks() returns (th: Option<nat>, ghost visits: seq<Visit>)
      requires Valid() && forall b :: b in blocks ==> AllCanStop(sys, ts, b)
      modifies this`ts, this`hand
      ensures Valid()
      ensures blocks == [] ==> th == None && ts == old(ts) && hand == old(hand)
      ensures blocks != [] ==>
        && old(hand) < |blocks| && hand == (old(hand) + 1) % |blocks|
        && IsWalk(sys, old(ts), blocks[old(hand)], Walk(th, ts, visits))
        && Follows(sys, old(ts), blocks[old(hand)], visits, th)
      ensures forall b :: b in blocks ==> AllCanStop(sys, ts, b)
    {
      if blocks == [] {
        return None, [];
      }
      var b := blocks[hand];
      ghost var ts0 := ts;
      hand := (hand + 1) % |blocks|;
      th, visits := WalkFrom(b);
      WalkKeepsStops(sys, ts0, b, Walk(th, ts, visits), blocks);
    }

    /** `m` picks in a row: the walks from the holders of the blocks picked, one after the other. */
    method SchedulePicks(m: nat) returns (picked: seq<nat>, threads: seq<Option<nat>>, ghost visits: seq<Visit>)
      requires Valid() && blocks != [] && forall b :: b in blocks ==> AllCanStop(sys, ts, b)
      modifies this`ts, this`hand
      ensures Valid() && old(hand) < |blocks| && |threads| == |picked|
      ensures picked == Picks(old(hand), |blocks|, m) && hand == Turned(old(hand), |blocks|, m)
      ensures forall i :: 0 <= i < |picked| ==> picked[i] < |blocks|
      ensures HandsInRange(sys, old(ts)) && WalksFrom(sys, old(ts), HoldersAt(blocks, picked), threads, visits, ts)
    {
      picked, threads, visits := [], [], [];
      ghost var h, ts0 := hand, ts;
      InRange();
      for i := 0 to m
        invariant Valid() && hand == Turned(h, |blocks|, i)
        invariant forall b :: b in blocks ==> AllCanStop(sys, ts, b)
        invariant Picked(sys, ts0, blocks, h, i, picked, threads, visits, ts)
      {
        ghost var ts1 := ts;
        var b := hand;
        var th;
        ghost var more;
        th, more := ScheduleByResourceBlocks();
        PickedNext(sys, ts0, blocks, h, i, picked, threads, visits, ts1, Walk(th, ts, more));
        picked, threads, visits := picked + [b], threads + [th], visits + more;
      }
    }

    /** `rounds` times as many picks as there are resource blocks choose every block `rounds` times. */
    method ScheduleRounds(rounds: nat)
      returns (picked: seq<nat>, threads: seq<Option<nat>>, ghost visits: seq<Visit>)
      requires Valid() && blocks != [] && forall b :: b in blocks ==> AllCanStop(sys, ts, b)
      modifies this`ts, this`hand
      ensures Valid() && old(hand) < |blocks| && hand == old(hand) && |threads| == |picked|
      ensures picked == Picks(old(hand), |blocks|, rounds * |blocks|)
      ensures forall i :: 0 <= i < |picked| ==> picked[i] < |blocks|
      ensures forall j :: 0 <= j < |blocks| ==> Count(picked, j) == rounds
      ensures HandsInRange(sys, old(ts)) && WalksFrom(sys, old(ts), HoldersAt(blocks, picked), threads, visits, ts)
    {
      ghost var h := hand;
      picked, threads, visits := SchedulePicks(rounds * |blocks|);
      TurnedBack(h, |blocks|, rounds);
      forall j | 0 <= j < |blocks|
        ensures Count(picked, j) == rounds
      {
        RoundRobin(h, |blocks|, rounds, j);
      }
    }
  }

  /** Full turns lead back to the start. */
  lemma TurnedBack(h: nat, k: nat, q: nat)
    requires h < k
    ensures Turned(h, k, q * k) == h
  {
    TurnedIs(h, k, q * k);
    ModUnique(h + q * k, k, q, h);
  }

  /** After `m` picks from hand `h` on. */
  ghost predicate Picked(sys: System, ts: Table, blocks: seq<nat>, h: nat, m: nat, picked: seq<nat>,
                         threads: seq<Option<nat>>, visits: seq<Visit>, ts': Table)
  {
    && h < |blocks| && picked == Picks(h, |blocks|, m) && |threads| == |picked|
    && (forall i :: 0 <= i < |picked| ==> picked[i] < |blocks|)
    && HandsInRange(sys, ts) && WalksFrom(sys, ts, HoldersAt(blocks, picked), threads, visits, ts')
  }

  lemma PickedNext(sys: System, ts: Table, blocks: seq<nat>, h: nat, m: nat, picked: seq<nat>,
                   threads: seq<Option<nat>>, visits: seq<Visit>, ts': Table, w: Walk)
    requires Picked(sys, ts, blocks, h, m, picked, threads, visits, ts')
    requires IsWalk(sys, ts', blocks[Turned(h, |blocks|, m)], w)
    ensures Picked(sys, ts, blocks, h, m + 1, picked + [Turned(h, |blocks|, m)], threads + [w.thread],
                   visits + w.visits, w.ts)
    ensures Turned(h, |blocks|, m + 1) == (Turned(h, |blocks|, m) + 1) % |blocks|
  {
    var b := Turned(h, |blocks|, m);
    PicksSnoc(h, |blocks|, m);
    WalksSnoc(sys, ts, HoldersAt(blocks, picked), threads, visits, ts', blocks[b], w);
    assert HoldersAt(blocks, picked + [b]) == HoldersAt(blocks, picked) + [blocks[b]];
  }

  lemma WalkIs(sys: System, ts: Table, z: Certificate, c: nat)
    requires HandsInRange(sys, ts) && Certified(sys, ts, z) && c in z.region
    ensures IsWalk(sys, ts, c, FullWalk(sys, ts, z, c))
  {
    WalkBounded(sys, ts, z, c);
    assert WalkFor(sys, ts, c, Potential(sys, ts, z, c) + 1) == Some(FullWalk(sys, ts, z, c));
  }

  lemma WalkKeepsStops(sys: System, ts: Table, c: nat, w: Walk, blocks: seq<nat>)
    requires IsWalk(sys, ts, c, w) && forall b :: b in blocks ==> AllCanStop(sys, ts, b)
    ensures forall b :: b in blocks ==> AllCanStop(sys, w.ts, b)
  {
    var fuel: nat :| WalkFor(sys, ts, c, fuel) == Some(w);
    WalkListing(sys, ts, c, fuel);
    StillAllCanStop(sys, ts, w.ts, blocks);
  }

  lemma StillAllCanStop(sys: System, ts: Table, ts': Table, blocks: seq<nat>)
    requires SameListing(ts, ts') && forall b :: b in blocks ==> AllCanStop(sys, ts, b)
    ensures forall b :: b in blocks ==> AllCanStop(sys, ts', b)
  {
    forall b | b in blocks
      ensures AllCanStop(sys, ts', b)
    {
      AllCanStopSame(sys, ts, ts', b);
    }
  }

  /** The holders of the blocks at the given positions. */
  function HoldersAt(blocks: seq<nat>, positions: seq<nat>): (r: seq<nat>)
    requires forall i :: 0 <= i < |positions| ==> positions[i] < |blocks|
    ensures |r| == |positions| && forall i :: 0 <= i < |r| ==> r[i] == blocks[positions[i]]
  {
    seq(|positions|, i requires 0 <= i < |positions| => blocks[positions[i]])
  }

  lemma FindAppended(ts: Table, e: Entry, d: nat)
    ensures Find(ts + [e], d) == if Listed(ts, d) then Find(ts, d) else if e.ct == d then |ts| else |ts| + 1
  {
    if ts == [] {
      assert ts + [e] == [e] && [e][1..] == [];
    } else {
      assert (ts + [e])[1..] == ts[1..] + [e];
      FindAppended(ts[1..], e, d);
    }
  }

  lemma {:induction false} WalkListing(sys: System, ts: Table, c: nat, fuel: nat)
    requires HandsInRange(sys, ts) && WalkFor(sys, ts, c, fuel).Some?
    ensures SameListing(ts, WalkFor(sys, ts, c, fuel).value.ts)
    decreases fuel
  {
    if Active(sys, ts, c) {
      AdvancedHands(sys, ts, c);
      if SliceAt(sys, ts, c).Redirect? {
        WalkListing(sys, Advanced(sys, ts, c), SliceAt(sys, ts, c).ct, fuel - 1);
      }
    }
  }

  lemma AllCanStopSame(sys: System, ts: Table, ts': Table, c: nat)
    requires SameListing(ts, ts') && AllCanStop(sys, ts, c)
    ensures AllCanStop(sys, ts', c)
  {
    forall d | ReachesSome(sys, ts', c, d)
      ensures CanStop(sys, ts', d)
    {
      var n: nat :| Reaches(sys, ts', c, d, n);
      ReachesSame(sys, ts', ts, c, d, n);
      assert ReachesSome(sys, ts, c, d);
      SameCanStop(sys, ts, ts', d);
    }
  }
}
