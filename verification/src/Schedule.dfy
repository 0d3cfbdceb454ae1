/** Picking the next thread. Every visit of a container advances its hand and uses the time slice that the hand
    pointed at; a `Redirect` slice visits another container. Redirects may form cycles. */
module Schedule {
  import opened Options

  datatype Slice = Routine | Execute(thread: nat) | Redirect(ct: nat)

  datatype Container = Container(slices: Option<seq<Slice>>, scheduler: Option<nat>)

  type System = map<nat, Container>

  /** An entry of the table of hands. A table that was never set up behaves as an empty one. */
  datatype Entry = Entry(ct: nat, hand: nat)

  type Table = seq<Entry>

  function Slices(sys: System, c: nat): seq<Slice> {
    if c in sys && sys[c].slices.Some? then sys[c].slices.value else []
  }

  /** The first entry for `c`, or the length of the table. */
  function Find(ts: Table, c: nat): (i: nat)
    ensures i <= |ts|
    ensures i < |ts| ==> ts[i].ct == c
    ensures forall j :: 0 <= j < i ==> ts[j].ct != c
  {
    if ts == [] then 0 else if ts[0].ct == c then 0 else 1 + Find(ts[1..], c)
  }

  predicate Listed(ts: Table, c: nat) {
    Find(ts, c) < |ts|
  }

  /** A visit of `c` has a slice to use. */
  predicate Active(sys: System, ts: Table, c: nat) {
    Listed(ts, c) && Slices(sys, c) != []
  }

  function HandOf(ts: Table, c: nat): nat {
    if Listed(ts, c) then ts[Find(ts, c)].hand else 0
  }

  ghost predicate HandsInRange(sys: System, ts: Table) {
    forall c :: Active(sys, ts, c) ==> HandOf(ts, c) < |Slices(sys, c)|
  }

  function Advanced(sys: System, ts: Table, c: nat): Table
    requires Active(sys, ts, c)
  {
    var i := Find(ts, c);
    ts[i := Entry(c, (ts[i].hand + 1) % |Slices(sys, c)|)]
  }

  function SliceAt(sys: System, ts: Table, c: nat): Slice
    requires Active(sys, ts, c) && HandsInRange(sys, ts)
  {
    Slices(sys, c)[HandOf(ts, c)]
  }

  lemma FindSame(ts: Table, ts': Table, c: nat)
    requires |ts| == |ts'| && forall j :: 0 <= j < |ts| ==> ts[j].ct == ts'[j].ct
    ensures Find(ts, c) == Find(ts', c)
  {
    if ts != [] { FindSame(ts[1..], ts'[1..], c); }
  }

  /** A visit moves one hand, by one, and keeps all hands in range. */
  lemma AdvancedHands(sys: System, ts: Table, c: nat)
    requires Active(sys, ts, c)
    ensures var ts' := Advanced(sys, ts, c);
      && (forall d :: Find(ts', d) == Find(ts, d))
      && (forall d :: Listed(ts', d) == Listed(ts, d))
      && (forall d :: d != c ==> HandOf(ts', d) == HandOf(ts, d))
      && HandOf(ts', c) == (HandOf(ts, c) + 1) % |Slices(sys, c)|
    ensures HandsInRange(sys, ts) ==> HandsInRange(sys, Advanced(sys, ts, c))
  {
    var ts' := Advanced(sys, ts, c);
    forall d
      ensures Find(ts', d) == Find(ts, d)
    {
      FindSame(ts, ts', d);
    }
  }

  // The walk, with a bound on its length

  /** A visit of container `ct` that used its slice number `slice`. */
  datatype Visit = Visit(ct: nat, slice: nat)

  datatype Walk = Walk(thread: Option<nat>, ts: Table, visits: seq<Visit>)

  /** The walk from `c`, cut off after `fuel` visits. */
  function WalkFor(sys: System, ts: Table, c: nat, fuel: nat): Option<Walk>
    requires HandsInRange(sys, ts)
    decreases fuel
  {
    if !Active(sys, ts, c) then Some(Walk(None, ts, []))
    else if fuel == 0 then None
    else
      AdvancedHands(sys, ts, c);
      var ts' := Advanced(sys, ts, c);
      var visit := Visit(c, HandOf(ts, c));
      match SliceAt(sys, ts, c)
      case Routine => Some(Walk(sys[c].scheduler, ts', [visit]))
      case Execute(th) => Some(Walk(Some(th), ts', [visit]))
      case Redirect(d) =>
        var w := WalkFor(sys, ts', d, fuel - 1);
        if w.None? then None else Some(w.value.(visits := [visit] + w.value.visits))
  }

  ghost predicate Ends(sys: System, ts: Table, c: nat)
    requires HandsInRange(sys, ts)
  {
    exists fuel :: WalkFor(sys, ts, c, fuel).Some?
  }

  /** From `c` a walk of fewer than `n` redirects can reach a container where it ends. */
  predicate CanStopIn(sys: System, ts: Table, c: nat, n: nat)
    decreases n, 0
  {
    n > 0 && (!Active(sys, ts, c)
              || exists j :: 0 <= j < |Slices(sys, c)| && StopsBy(sys, ts, Slices(sys, c)[j], n - 1))
  }

  predicate StopsBy(sys: System, ts: Table, s: Slice, n: nat)
    decreases n, 1
  {
    s.Redirect? ==> CanStopIn(sys, ts, s.ct, n)
  }

  ghost predicate CanStop(sys: System, ts: Table, c: nat) {
    exists n :: CanStopIn(sys, ts, c, n)
  }

  /** `d` is reached from `c` by `n` redirects, whatever the hands. */
  ghost predicate Reaches(sys: System, ts: Table, c: nat, d: nat, n: nat)
    decreases n
  {
    if n == 0 then c == d
    else Active(sys, ts, c) && exists e :: Redirect(e) in Slices(sys, c) && Reaches(sys, ts, e, d, n - 1)
  }

  /** Tables that list the same containers in the same order, with any hands. */
  ghost predicate SameListing(ts: Table, ts': Table) {
    |ts| == |ts'| && forall j :: 0 <= j < |ts| ==> ts[j].ct == ts'[j].ct
  }

  // Why a walk ends: a potential that every visit lowers

  /** Evidence that all containers of `region` can stop: `good` points to a slice that leads to a lower rank. */
  datatype Certificate =
    Certificate(region: set<nat>, rank: map<nat, nat>, good: map<nat, nat>, top: nat, width: nat)

  ghost predicate CertifiedAt(sys: System, ts: Table, z: Certificate, c: nat) {
    && c in z.rank && 0 < z.rank[c] <= z.top
    && (Active(sys, ts, c) ==>
          && c in z.good && z.good[c] < |Slices(sys, c)| <= z.width
          && (forall d :: Redirect(d) in Slices(sys, c) ==> d in z.region)
          && var s := Slices(sys, c)[z.good[c]]; s.Redirect? ==> s.ct in z.rank && z.rank[s.ct] < z.rank[c])
  }

  ghost predicate Certified(sys: System, ts: Table, z: Certificate) {
    forall c :: c in z.region ==> CertifiedAt(sys, ts, z, c)
  }

  /** What a step of a hand counts for at a container of rank `r`. */
  function Weight(z: Certificate, r: nat): (w: nat)
    ensures w > 0
    decreases z.top - r
  {
    if r >= z.top then 1 else z.width * Weight(z, r + 1) + 1
  }

  /** How many visits until the hand points to the good slice. */
  function Lag(good: nat, hand: nat, count: nat): nat
    requires good < count && hand < count
  {
    if hand <= good then good - hand else good + count - hand
  }

  ghost function Term(sys: System, ts: Table, z: Certificate, i: nat): nat
    requires HandsInRange(sys, ts) && Certified(sys, ts, z) && i < |ts|
  {
    var c := ts[i].ct;
    if c in z.region && Active(sys, ts, c) && Find(ts, c) == i
    then Weight(z, z.rank[c]) * Lag(z.good[c], HandOf(ts, c), |Slices(sys, c)|)
    else 0
  }

  ghost function Sum(sys: System, ts: Table, z: Certificate, n: nat): nat
    requires HandsInRange(sys, ts) && Certified(sys, ts, z) && n <= |ts|
  {
    if n == 0 then 0 else Sum(sys, ts, z, n - 1) + Term(sys, ts, z, n - 1)
  }

  ghost function Potential(sys: System, ts: Table, z: Certificate, c: nat): nat
    requires HandsInRange(sys, ts) && Certified(sys, ts, z) && c in z.region
  {
    WeightFalls(z, 0, z.rank[c]);
    Sum(sys, ts, z, |ts|) + (Weight(z, 0) - Weight(z, z.rank[c]))
  }

  lemma WeightFalls(z: Certificate, r: nat, r': nat)
    requires r <= r' <= z.top
    ensures Weight(z, r') <= Weight(z, r)
    ensures r < r' && z.width > 0 ==> z.width * Weight(z, r') + 1 <= Weight(z, r)
    decreases r' - r
  {
    if r < r' && z.width > 0 {
      WeightFalls(z, r + 1, r');
      MulMono(z.width, Weight(z, r'), Weight(z, r + 1));
      MulMono(Weight(z, r'), 1, z.width);
    }
  }

  lemma MulMono(a: nat, b: nat, c: nat)
    requires b <= c
    ensures a * b <= a * c
  {
    assert a * c == a * b + a * (c - b);
  }

  lemma LagNext(good: nat, hand: nat, count: nat)
    requires good < count && hand < count
    ensures var next := (hand + 1) % count;
      Lag(good, next, count) == if hand == good then count - 1 else Lag(good, hand, count) - 1
  {
    if hand + 1 < count { assert (hand + 1) % count == hand + 1; } else { assert (hand + 1) % count == 0; }
  }

  lemma AdvancedCertified(sys: System, ts: Table, z: Certificate, c: nat)
    requires HandsInRange(sys, ts) && Certified(sys, ts, z) && Active(sys, ts, c)
    ensures var ts' := Advanced(sys, ts, c); HandsInRange(sys, ts') && Certified(sys, ts', z)
  {
    AdvancedHands(sys, ts, c);
    var ts' := Advanced(sys, ts, c);
    forall d | d in z.region
      ensures CertifiedAt(sys, ts', z, d)
    {
      assert CertifiedAt(sys, ts, z, d);
      assert Active(sys, ts', d) == Active(sys, ts, d);
    }
  }

  lemma OtherTerm(sys: System, ts: Table, z: Certificate, c: nat, j: nat)
    requires HandsInRange(sys, ts) && Certified(sys, ts, z) && Active(sys, ts, c) && j < |ts| && j != Find(ts, c)
    ensures var ts' := Advanced(sys, ts, c);
      HandsInRange(sys, ts') && Certified(sys, ts', z) && Term(sys, ts', z, j) == Term(sys, ts, z, j)
  {
    AdvancedHands(sys, ts, c);
    AdvancedCertified(sys, ts, z, c);
    var ts' := Advanced(sys, ts, c);
    assert Find(ts', ts[j].ct) == Find(ts, ts[j].ct);
    assert Active(sys, ts', ts[j].ct) == Active(sys, ts, ts[j].ct);
  }

  lemma SumAdvanced(sys: System, ts: Table, z: Certificate, c: nat, n: nat)
    requires HandsInRange(sys, ts) && Certified(sys, ts, z) && Active(sys, ts, c) && n <= |ts|
    ensures var ts' := Advanced(sys, ts, c); var i := Find(ts, c);
      && HandsInRange(sys, ts') && Certified(sys, ts', z)
      && Sum(sys, ts', z, n) == Sum(sys, ts, z, n)
                                + if i < n then Term(sys, ts', z, i) - Term(sys, ts, z, i) else 0
  {
    AdvancedCertified(sys, ts, z, c);
    if n > 0 {
      SumAdvanced(sys, ts, z, c, n - 1);
      if n - 1 != Find(ts, c) { OtherTerm(sys, ts, z, c, n - 1); }
    }
  }

  /** A visit that redirects lowers the potential, whatever the hand and the target. */
  lemma PotentialFalls(sys: System, ts: Table, z: Certificate, c: nat, d: nat)
    requires HandsInRange(sys, ts) && Certified(sys, ts, z) && c in z.region
    requires Active(sys, ts, c) && SliceAt(sys, ts, c) == Redirect(d)
    ensures d in z.region
    ensures var ts' := Advanced(sys, ts, c);
      HandsInRange(sys, ts') && Certified(sys, ts', z) && Potential(sys, ts', z, d) < Potential(sys, ts, z, c)
  {
    assert CertifiedAt(sys, ts, z, c);
    assert Redirect(d) in Slices(sys, c);
    assert CertifiedAt(sys, ts, z, d);
    var ts', i := Advanced(sys, ts, c), Find(ts, c);
    AdvancedHands(sys, ts, c);
    SumAdvanced(sys, ts, z, c, |ts|);
    var k, g, h := |Slices(sys, c)|, z.good[c], HandOf(ts, c);
    var w, w' := Weight(z, z.rank[c]), Weight(z, z.rank[d]);
    var lag, lag' := Lag(g, h, k), Lag(g, (h + 1) % k, k);
    LagNext(g, h, k);
    assert Term(sys, ts, z, i) == w * lag && Term(sys, ts', z, i) == w * lag';
    WeightFalls(z, 0, z.rank[c]);
    WeightFalls(z, 0, z.rank[d]);
    if h == g { WeightFalls(z, z.rank[d], z.rank[c]); }
    VisitPays(w, w', lag, lag', k, z.width);
  }

  /** Either the hand comes closer to the good slice, or it was there and the target's greater weight pays. */
  lemma VisitPays(w: nat, w': nat, lag: nat, lag': nat, k: nat, width: nat)
    requires w' > 0 && 0 < k <= width
    requires if lag == 0 then lag' == k - 1 && width * w + 1 <= w' else lag' == lag - 1
    ensures w * lag' + w < w * lag + w'
  {
    if lag == 0 {
      assert w * lag' + w == w * k;
      MulMono(w, k, width);
      assert w * lag == 0;
    } else {
      assert w * lag' == w * lag - w;
    }
  }

  // The walk

  /** The walk to its end. */
  ghost function FullWalk(sys: System, ts: Table, z: Certificate, c: nat): Walk
    requires HandsInRange(sys, ts) && Certified(sys, ts, z) && c in z.region
    decreases Potential(sys, ts, z, c)
  {
    if !Active(sys, ts, c) then Walk(None, ts, [])
    else
      AdvancedCertified(sys, ts, z, c);
      var ts' := Advanced(sys, ts, c);
      var visit := Visit(c, HandOf(ts, c));
      match SliceAt(sys, ts, c)
      case Routine => Walk(sys[c].scheduler, ts', [visit])
      case Execute(th) => Walk(Some(th), ts', [visit])
      case Redirect(d) =>
        PotentialFalls(sys, ts, z, c, d);
        var w := FullWalk(sys, ts', z, d);
        w.(visits := [visit] + w.visits)
  }

  // Which thread a walk gives

  /** What the code asks before it uses a slice of `c`: the table lists `c`, and `c` has slices. */
  ghost predicate HasTurn(sys: System, ts: Table, c: nat) {
    (exists j :: 0 <= j < |ts| && ts[j].ct == c) && c in sys && sys[c].slices.Some? && sys[c].slices.value != []
  }

  /** What the visits of a walk from `c` and its thread have to do with the slices: each visit but the last used a
      redirect to the next container, and the last one gives its own thread, the scheduler of its container, or none,
      where it redirects to a container without a turn. */
  ghost predicate Follows(sys: System, ts: Table, c: nat, visits: seq<Visit>, thread: Option<nat>)
    decreases |visits|
  {
    if visits == [] then !HasTurn(sys, ts, c) && thread == None
    else
      && visits[0].ct == c && HasTurn(sys, ts, c)
      && match Used(sys, visits[0])
        case Some(Routine) => |visits| == 1 && c in sys && thread == sys[c].scheduler
        case Some(Execute(th)) => |visits| == 1 && thread == Some(th)
        case Some(Redirect(d)) => Follows(sys, ts, d, visits[1..], thread)
        case None => false
  }

  /** The slice that a visit used. */
  function Used(sys: System, v: Visit): Option<Slice> {
    if v.ct in sys && sys[v.ct].slices.Some? && v.slice < |sys[v.ct].slices.value| then Some(sys[v.ct].slices.value[v.slice])
    else None
  }

  lemma TurnIff(sys: System, ts: Table, c: nat)
    ensures HasTurn(sys, ts, c) <==> Active(sys, ts, c)
  {
  }

  /** The table's hands make no difference here. */
  lemma SameTurns(sys: System, ts: Table, c: nat)
    requires Active(sys, ts, c)
    ensures forall d :: HasTurn(sys, Advanced(sys, ts, c), d) <==> HasTurn(sys, ts, d)
  {
    AdvancedHands(sys, ts, c);
    forall d
      ensures HasTurn(sys, Advanced(sys, ts, c), d) <==> HasTurn(sys, ts, d)
    {
      TurnIff(sys, ts, d);
      TurnIff(sys, Advanced(sys, ts, c), d);
    }
  }

  lemma {:induction false} FollowsSame(sys: System, ts: Table, ts': Table, c: nat, visits: seq<Visit>, thread: Option<nat>)
    requires forall d :: HasTurn(sys, ts', d) <==> HasTurn(sys, ts, d)
    requires Follows(sys, ts', c, visits, thread)
    ensures Follows(sys, ts, c, visits, thread)
    decreases |visits|
  {
    if visits != [] && Used(sys, visits[0]).value.Redirect? {
      FollowsSame(sys, ts, ts', Used(sys, visits[0]).value.ct, visits[1..], thread);
    }
  }

  /** The thread that a walk gives, told by the slices alone. */
  lemma {:induction false} WalkFollows(sys: System, ts: Table, c: nat, fuel: nat)
    requires HandsInRange(sys, ts) && WalkFor(sys, ts, c, fuel).Some?
    ensures var w := WalkFor(sys, ts, c, fuel).value; Follows(sys, ts, c, w.visits, w.thread)
    decreases fuel
  {
    TurnIff(sys, ts, c);
    if Active(sys, ts, c) {
      AdvancedHands(sys, ts, c);
      var s, v := SliceAt(sys, ts, c), Visit(c, HandOf(ts, c));
      assert Used(sys, v) == Some(s);
      if s.Redirect? {
        var w := WalkFor(sys, Advanced(sys, ts, c), s.ct, fuel - 1).value;
        WalkFollows(sys, Advanced(sys, ts, c), s.ct, fuel - 1);
        SameTurns(sys, ts, c);
        FollowsSame(sys, ts, Advanced(sys, ts, c), s.ct, w.visits, w.thread);
        assert ([v] + w.visits)[1..] == w.visits;
      }
    }
  }

  /** The number of visits is bounded by the potential: weighted hand lags, the weights being powers of the slice
      counts. */
  lemma {:induction false} WalkBounded(sys: System, ts: Table, z: Certificate, c: nat)
    requires HandsInRange(sys, ts) && Certified(sys, ts, z) && c in z.region
    ensures |FullWalk(sys, ts, z, c).visits| <= Potential(sys, ts, z, c) + 1
    ensures forall fuel :: fuel > Potential(sys, ts, z, c) ==>
      WalkFor(sys, ts, c, fuel) == Some(FullWalk(sys, ts, z, c))
    decreases Potential(sys, ts, z, c)
  {
    if Active(sys, ts, c) {
      AdvancedCertified(sys, ts, z, c);
      var ts' := Advanced(sys, ts, c);
      var s := SliceAt(sys, ts, c);
      if s.Redirect? {
        PotentialFalls(sys, ts, z, c, s.ct);
        WalkBounded(sys, ts', z, s.ct);
        forall fuel: nat | fuel > Potential(sys, ts, z, c)
          ensures WalkFor(sys, ts, c, fuel) == Some(FullWalk(sys, ts, z, c))
        {
          assert WalkFor(sys, ts', s.ct, fuel - 1) == Some(FullWalk(sys, ts', z, s.ct));
        }
      }
    }
  }
}
