/** Exactly when picking the next thread comes to an end from every position of the hands. */
module ScheduleTermination {
  import opened Options
  import opened Schedule

  // Listings

  lemma SameActive(sys: System, ts: Table, ts': Table, c: nat)
    requires SameListing(ts, ts')
    ensures Find(ts, c) == Find(ts', c) && Active(sys, ts, c) == Active(sys, ts', c)
  {
    FindSame(ts, ts', c);
  }

  lemma {:induction false} CanStopSame(sys: System, ts: Table, ts': Table, c: nat, n: nat)
    requires SameListing(ts, ts') && CanStopIn(sys, ts, c, n)
    ensures CanStopIn(sys, ts', c, n)
    decreases n
  {
    SameActive(sys, ts, ts', c);
    if Active(sys, ts, c) {
      var j :| 0 <= j < |Slices(sys, c)| && StopsBy(sys, ts, Slices(sys, c)[j], n - 1);
      var s := Slices(sys, c)[j];
      if s.Redirect? { CanStopSame(sys, ts, ts', s.ct, n - 1); }
      assert StopsBy(sys, ts', s, n - 1);
    }
  }

  lemma {:induction false} ReachesSame(sys: System, ts: Table, ts': Table, c: nat, d: nat, n: nat)
    requires SameListing(ts, ts') && Reaches(sys, ts, c, d, n)
    ensures Reaches(sys, ts', c, d, n)
    decreases n
  {
    SameActive(sys, ts, ts', c);
    if n > 0 {
      var e :| Redirect(e) in Slices(sys, c) && Reaches(sys, ts, e, d, n - 1);
      ReachesSame(sys, ts, ts', e, d, n - 1);
    }
  }

  lemma SameAdvanced(sys: System, ts: Table, ts': Table, c: nat)
    requires SameListing(ts, ts') && Active(sys, ts', c)
    ensures SameListing(ts, Advanced(sys, ts', c))
  {
  }

  lemma SameCanStop(sys: System, ts: Table, ts': Table, c: nat)
    requires SameListing(ts, ts')
    ensures CanStop(sys, ts, c) <==> CanStop(sys, ts', c)
  {
    if n: nat :| CanStopIn(sys, ts, c, n) { CanStopSame(sys, ts, ts', c, n); }
    if n: nat :| CanStopIn(sys, ts', c, n) { CanStopSame(sys, ts', ts, c, n); }
  }

  // Reachable containers

  lemma {:induction false} ReachesFurther(sys: System, ts: Table, c: nat, d: nat, e: nat, n: nat)
    requires Reaches(sys, ts, c, d, n) && Active(sys, ts, d) && Redirect(e) in Slices(sys, d)
    ensures Reaches(sys, ts, c, e, n + 1)
    decreases n
  {
    if n == 0 {
      assert Reaches(sys, ts, e, e, 0);
    } else {
      var x :| Redirect(x) in Slices(sys, c) && Reaches(sys, ts, x, d, n - 1);
      ReachesFurther(sys, ts, x, d, e, n - 1);
    }
  }

  ghost function Targets(sys: System): set<nat> {
    set x, s | x in sys && s in Slices(sys, x) && s.Redirect? :: s.ct
  }

  lemma {:induction false} ReachedIsTarget(sys: System, ts: Table, c: nat, d: nat, n: nat)
    requires Reaches(sys, ts, c, d, n)
    ensures d == c || d in Targets(sys)
    decreases n
  {
    if n > 0 {
      var e :| Redirect(e) in Slices(sys, c) && Reaches(sys, ts, e, d, n - 1);
      assert c in sys && e in Targets(sys);
      ReachedIsTarget(sys, ts, e, d, n - 1);
    }
  }

  ghost predicate ReachesSome(sys: System, ts: Table, c: nat, d: nat) {
    exists n :: Reaches(sys, ts, c, d, n)
  }

  ghost function Region(sys: System, ts: Table, c: nat): set<nat> {
    set d | d in Targets(sys) + {c} && ReachesSome(sys, ts, c, d)
  }

  /** Every container that can be reached can stop. */
  ghost predicate AllCanStop(sys: System, ts: Table, c: nat) {
    forall d :: ReachesSome(sys, ts, c, d) ==> CanStop(sys, ts, d)
  }

  // Ranks

  lemma LeastStops(sys: System, ts: Table, c: nat, n: nat) returns (r: nat)
    requires CanStopIn(sys, ts, c, n)
    ensures r <= n && CanStopIn(sys, ts, c, r) && forall m: nat :: m < r ==> !CanStopIn(sys, ts, c, m)
  {
    if m: nat :| m < n && CanStopIn(sys, ts, c, m) {
      r := LeastStops(sys, ts, c, m);
    } else {
      r := n;
    }
  }

  ghost predicate IsRank(sys: System, ts: Table, c: nat, r: nat) {
    CanStopIn(sys, ts, c, r) && forall m: nat :: m < r ==> !CanStopIn(sys, ts, c, m)
  }

  lemma RankExists(sys: System, ts: Table, c: nat)
    requires CanStop(sys, ts, c)
    ensures exists r :: IsRank(sys, ts, c, r)
  {
    var n: nat :| CanStopIn(sys, ts, c, n);
    var r := LeastStops(sys, ts, c, n);
    assert IsRank(sys, ts, c, r);
  }

  ghost function Rank(sys: System, ts: Table, c: nat): (r: nat)
    requires CanStop(sys, ts, c)
    ensures IsRank(sys, ts, c, r)
  {
    RankExists(sys, ts, c);
    var r :| IsRank(sys, ts, c, r);
    r
  }

  ghost function GoodSlice(sys: System, ts: Table, c: nat): (j: nat)
    requires CanStop(sys, ts, c) && Active(sys, ts, c)
    ensures j < |Slices(sys, c)| && StopsBy(sys, ts, Slices(sys, c)[j], Rank(sys, ts, c) - 1)
  {
    var j :| 0 <= j < |Slices(sys, c)| && StopsBy(sys, ts, Slices(sys, c)[j], Rank(sys, ts, c) - 1);
    j
  }

  ghost function Bound(s: set<nat>): (b: nat)
    ensures forall x :: x in s ==> x <= b
  {
    if s == {} then 0 else
      var x :| x in s;
      var b := Bound(s - {x});
      assert forall y :: y in s ==> y == x || y in s - {x};
      if x > b then x else b
  }

  /** If all reachable containers can stop, there is evidence for it. */
  ghost function MakeCertificate(sys: System, ts: Table, c: nat): (z: Certificate)
    requires AllCanStop(sys, ts, c)
    ensures c in z.region && Certified(sys, ts, z)
    ensures z.region == Region(sys, ts, c) && forall d :: d in z.region ==> z.rank[d] == Rank(sys, ts, d)
  {
    var region := Region(sys, ts, c);
    var rank := map d | d in region :: Rank(sys, ts, d);
    var good := map d | d in region && Active(sys, ts, d) :: GoodSlice(sys, ts, d);
    var ranks := set d | d in region :: rank[d];
    var counts := set d | d in region :: |Slices(sys, d)|;
    var z := Certificate(region, rank, good, Bound(ranks), Bound(counts));
    RegionClosed(sys, ts, c);
    assert Certified(sys, ts, z) by {
      forall d | d in region
        ensures CertifiedAt(sys, ts, z, d)
      {
        RanksFall(sys, ts, c, d);
        assert rank[d] in ranks && |Slices(sys, d)| in counts;
      }
    }
    z
  }

  lemma RegionClosed(sys: System, ts: Table, c: nat)
    ensures c in Region(sys, ts, c)
    ensures forall d, e :: d in Region(sys, ts, c) && Active(sys, ts, d) && Redirect(e) in Slices(sys, d) ==>
      e in Region(sys, ts, c)
  {
    assert Reaches(sys, ts, c, c, 0);
    forall d, e | d in Region(sys, ts, c) && Active(sys, ts, d) && Redirect(e) in Slices(sys, d)
      ensures e in Region(sys, ts, c)
    {
      var n: nat :| Reaches(sys, ts, c, d, n);
      ReachesFurther(sys, ts, c, d, e, n);
      ReachedIsTarget(sys, ts, c, e, n + 1);
    }
  }

  lemma RanksFall(sys: System, ts: Table, c: nat, d: nat)
    requires AllCanStop(sys, ts, c) && d in Region(sys, ts, c)
    ensures Rank(sys, ts, d) > 0
    ensures Active(sys, ts, d) ==>
      var s := Slices(sys, d)[GoodSlice(sys, ts, d)];
      s.Redirect? ==> s.ct in Region(sys, ts, c) && Rank(sys, ts, s.ct) < Rank(sys, ts, d)
  {
    RegionClosed(sys, ts, c);
    if Active(sys, ts, d) {
      var s := Slices(sys, d)[GoodSlice(sys, ts, d)];
      if s.Redirect? {
        assert s in Slices(sys, d) && s == Redirect(s.ct);
        assert CanStopIn(sys, ts, s.ct, Rank(sys, ts, d) - 1);
      }
    }
  }

  /** If all reachable containers can stop, the walk ends from every position of the hands. */
  lemma AllEnd(sys: System, ts: Table, c: nat)
    requires HandsInRange(sys, ts) && AllCanStop(sys, ts, c)
    ensures Ends(sys, ts, c)
  {
    var z := MakeCertificate(sys, ts, c);
    WalkBounded(sys, ts, z, c);
    assert WalkFor(sys, ts, c, Potential(sys, ts, z, c) + 1).Some?;
  }

  // How long a walk can be

  function Power(b: nat, n: nat): (r: nat)
    ensures b > 0 ==> r > 0
  {
    if n == 0 then 1 else b * Power(b, n - 1)
  }

  lemma {:induction false} WeightPower(z: Certificate, r: nat)
    requires r <= z.top
    ensures Weight(z, r) <= Power(z.width + 1, z.top - r)
    decreases z.top - r
  {
    if r < z.top {
      WeightPower(z, r + 1);
      var w, p := Weight(z, r + 1), Power(z.width + 1, z.top - (r + 1));
      MulMono(z.width, w, p);
      assert (z.width + 1) * p == z.width * p + p;
    }
  }

  lemma TermBounded(sys: System, ts: Table, z: Certificate, i: nat)
    requires HandsInRange(sys, ts) && Certified(sys, ts, z) && i < |ts|
    ensures Term(sys, ts, z, i) <= Weight(z, 0) * z.width
  {
    var c := ts[i].ct;
    if c in z.region && Active(sys, ts, c) && Find(ts, c) == i {
      assert CertifiedAt(sys, ts, z, c);
      var lag := Lag(z.good[c], HandOf(ts, c), |Slices(sys, c)|);
      WeightFalls(z, 0, z.rank[c]);
      ProductBounded(Weight(z, z.rank[c]), Weight(z, 0), lag, z.width);
    }
  }

  lemma ProductBounded(a: nat, a': nat, b: nat, b': nat)
    requires a <= a' && b <= b'
    ensures a * b <= a' * b'
  {
    MulMono(a, b, b');
    MulMono(b', a, a');
  }

  lemma {:induction false} SumBounded(sys: System, ts: Table, z: Certificate, n: nat)
    requires HandsInRange(sys, ts) && Certified(sys, ts, z) && n <= |ts|
    ensures Sum(sys, ts, z, n) <= n * (Weight(z, 0) * z.width)
  {
    if n > 0 {
      SumBounded(sys, ts, z, n - 1);
      TermBounded(sys, ts, z, n - 1);
      OneMore(n - 1, Weight(z, 0) * z.width);
    }
  }

  lemma OneMore(n: nat, x: nat)
    ensures (n + 1) * x == n * x + x
  {
  }

  lemma PotentialBounded(sys: System, ts: Table, z: Certificate, c: nat)
    requires HandsInRange(sys, ts) && Certified(sys, ts, z) && c in z.region
    ensures Potential(sys, ts, z, c) < (|ts| * z.width + 1) * Power(z.width + 1, z.top)
  {
    assert CertifiedAt(sys, ts, z, c);
    SumBounded(sys, ts, z, |ts|);
    WeightFalls(z, 0, z.rank[c]);
    WeightPower(z, 0);
    Regroup(|ts|, z.width, Weight(z, 0));
    MulMono(|ts| * z.width + 1, Weight(z, 0), Power(z.width + 1, z.top));
  }

  lemma Regroup(n: nat, k: nat, w: nat)
    ensures n * (w * k) + w == (n * k + 1) * w
  {
    assert w * k == k * w;
    assert n * (k * w) == (n * k) * w;
  }

  /** A container of rank `r` can be followed by good slices through containers of all lower ranks. */
  lemma RankChain(sys: System, ts: Table, c: nat, d: nat) returns (s: set<nat>)
    requires AllCanStop(sys, ts, c) && d in Region(sys, ts, c)
    ensures s <= Region(sys, ts, c) && |s| == Rank(sys, ts, d)
    ensures forall e :: e in s ==> Rank(sys, ts, e) <= Rank(sys, ts, d)
    decreases Rank(sys, ts, d)
  {
    RanksFall(sys, ts, c, d);
    RegionClosed(sys, ts, c);
    if Active(sys, ts, d) && Slices(sys, d)[GoodSlice(sys, ts, d)].Redirect? {
      var e := Slices(sys, d)[GoodSlice(sys, ts, d)].ct;
      assert Redirect(e) in Slices(sys, d) && e in Region(sys, ts, c);
      RankNext(sys, ts, d, e);
      var s' := RankChain(sys, ts, c, e);
      s := s' + {d};
    } else {
      RankOne(sys, ts, d);
      s := {d};
    }
  }

  lemma RankOne(sys: System, ts: Table, d: nat)
    requires CanStop(sys, ts, d) && !(Active(sys, ts, d) && Slices(sys, d)[GoodSlice(sys, ts, d)].Redirect?)
    ensures Rank(sys, ts, d) == 1
  {
    if Active(sys, ts, d) {
      assert StopsBy(sys, ts, Slices(sys, d)[GoodSlice(sys, ts, d)], 0);
    }
    assert CanStopIn(sys, ts, d, 1);
  }

  lemma RankNext(sys: System, ts: Table, d: nat, e: nat)
    requires CanStop(sys, ts, d) && Active(sys, ts, d) && Slices(sys, d)[GoodSlice(sys, ts, d)] == Redirect(e)
    requires CanStop(sys, ts, e) && Rank(sys, ts, e) < Rank(sys, ts, d)
    ensures Rank(sys, ts, d) == Rank(sys, ts, e) + 1
  {
    assert StopsBy(sys, ts, Slices(sys, d)[GoodSlice(sys, ts, d)], Rank(sys, ts, e));
    assert CanStopIn(sys, ts, d, Rank(sys, ts, e) + 1);
  }

  lemma RankWithin(sys: System, ts: Table, c: nat, d: nat)
    requires AllCanStop(sys, ts, c) && d in Region(sys, ts, c)
    ensures Rank(sys, ts, d) <= |Region(sys, ts, c)|
  {
    var s := RankChain(sys, ts, c, d);
    SubsetSize(s, Region(sys, ts, c));
  }

  lemma {:induction false} SubsetSize(s: set<nat>, t: set<nat>)
    requires s <= t
    ensures |s| <= |t|
  {
    if s != {} {
      var x :| x in s;
      SubsetSize(s - {x}, t - {x});
    }
  }

  lemma WalkWithin(sys: System, ts: Table, z: Certificate, c: nat, bound: nat, fuel: nat)
    requires HandsInRange(sys, ts) && Certified(sys, ts, z) && c in z.region
    requires Potential(sys, ts, z, c) < bound <= fuel
    ensures var w := WalkFor(sys, ts, c, fuel); w.Some? && |w.value.visits| <= bound
  {
    WalkBounded(sys, ts, z, c);
  }

  lemma RankedCertificate(sys: System, ts: Table, c: nat, k: nat) returns (z: Certificate)
    requires AllCanStop(sys, ts, c) && forall d :: d in Region(sys, ts, c) ==> |Slices(sys, d)| <= k
    ensures Certified(sys, ts, z) && c in z.region && z.top == |Region(sys, ts, c)| && z.width == k
  {
    var z0 := MakeCertificate(sys, ts, c);
    z := z0.(top := |Region(sys, ts, c)|, width := k);
    forall d | d in z.region
      ensures CertifiedAt(sys, ts, z, d)
    {
      assert CertifiedAt(sys, ts, z0, d);
      RankWithin(sys, ts, c, d);
    }
  }

  /** With `n` entries in the table of hands, `m` containers that can be reached and at most `k` slices in each, a walk
      that can end makes no more than (n k + 1) (k + 1)^m visits, whatever the hands. */
  lemma WalkShort(sys: System, ts: Table, c: nat, k: nat, fuel: nat)
    requires HandsInRange(sys, ts) && AllCanStop(sys, ts, c)
    requires forall d :: d in Region(sys, ts, c) ==> |Slices(sys, d)| <= k
    requires fuel >= (|ts| * k + 1) * Power(k + 1, |Region(sys, ts, c)|)
    ensures var w := WalkFor(sys, ts, c, fuel);
      w.Some? && |w.value.visits| <= (|ts| * k + 1) * Power(k + 1, |Region(sys, ts, c)|)
  {
    var z := RankedCertificate(sys, ts, c, k);
    PotentialBounded(sys, ts, z, c);
    WalkWithin(sys, ts, z, c, (|ts| * k + 1) * Power(k + 1, |Region(sys, ts, c)|), fuel);
  }

  // Traps

  /** From a container that cannot stop the walk goes on whatever the hands. */
  lemma {:induction false} TrapHolds(sys: System, ts: Table, c: nat, fuel: nat)
    requires HandsInRange(sys, ts) && !CanStop(sys, ts, c)
    ensures WalkFor(sys, ts, c, fuel).None?
    decreases fuel
  {
    assert !CanStopIn(sys, ts, c, 1);
    if fuel > 0 {
      AdvancedHands(sys, ts, c);
      var h := HandOf(ts, c);
      var s := Slices(sys, c)[h];
      assert !StopsBy(sys, ts, s, 0);
      var ts' := Advanced(sys, ts, c);
      SameCanStop(sys, ts, ts', s.ct);
      if n: nat :| CanStopIn(sys, ts, s.ct, n) {
        assert StopsBy(sys, ts, s, n);
        assert CanStopIn(sys, ts, c, n + 1);
      }
      TrapHolds(sys, ts', s.ct, fuel - 1);
    }
  }

  ghost predicate NearTrap(sys: System, ts: Table, c: nat, n: nat) {
    exists d :: Reaches(sys, ts, c, d, n) && !CanStop(sys, ts, d)
  }

  ghost predicate IsDistance(sys: System, ts: Table, c: nat, n: nat) {
    NearTrap(sys, ts, c, n) && forall m: nat :: m < n ==> !NearTrap(sys, ts, c, m)
  }

  lemma DistanceExists(sys: System, ts: Table, c: nat, n: nat) returns (r: nat)
    requires NearTrap(sys, ts, c, n)
    ensures r <= n && IsDistance(sys, ts, c, r)
  {
    if m: nat :| m < n && NearTrap(sys, ts, c, m) {
      r := DistanceExists(sys, ts, c, m);
    } else {
      r := n;
    }
  }

  ghost predicate Closer(sys: System, ts: Table, n: nat, s: Slice) {
    s.Redirect? && NearTrap(sys, ts, s.ct, n)
  }

  lemma CloserExists(sys: System, ts: Table, c: nat, n: nat)
    requires IsDistance(sys, ts, c, n) && n > 0
    ensures Active(sys, ts, c)
    ensures exists j :: 0 <= j < |Slices(sys, c)| && Closer(sys, ts, n - 1, Slices(sys, c)[j])
  {
    var d :| Reaches(sys, ts, c, d, n) && !CanStop(sys, ts, d);
    var e :| Redirect(e) in Slices(sys, c) && Reaches(sys, ts, e, d, n - 1);
    var j :| 0 <= j < |Slices(sys, c)| && Slices(sys, c)[j] == Redirect(e);
    assert Closer(sys, ts, n - 1, Slices(sys, c)[j]);
  }

  /** A hand that steers towards a trap, where there is one to steer to. */
  ghost function Steer(sys: System, ts: Table, c: nat): (j: nat)
    ensures Active(sys, ts, c) ==> j < |Slices(sys, c)|
    ensures forall n: nat :: n > 0 && IsDistance(sys, ts, c, n) ==>
      j < |Slices(sys, c)| && Closer(sys, ts, n - 1, Slices(sys, c)[j])
  {
    if n: nat :| n > 0 && IsDistance(sys, ts, c, n) then
      CloserExists(sys, ts, c, n);
      var j :| 0 <= j < |Slices(sys, c)| && Closer(sys, ts, n - 1, Slices(sys, c)[j]);
      j
    else 0
  }

  ghost function Steered(sys: System, ts: Table): (ts': Table)
    ensures SameListing(ts, ts') && HandsInRange(sys, ts')
    ensures forall c :: Listed(ts, c) ==> HandOf(ts', c) == Steer(sys, ts, c)
  {
    var ts' := seq(|ts|, i requires 0 <= i < |ts| => Entry(ts[i].ct, Steer(sys, ts, ts[i].ct)));
    assert forall c :: Find(ts', c) == Find(ts, c) by {
      forall c ensures Find(ts', c) == Find(ts, c) { FindSame(ts, ts', c); }
    }
    ts'
  }

  ghost predicate SteeredAt(sys: System, ts: Table, ts': Table, d: nat) {
    Listed(ts, d) ==> HandOf(ts', d) == Steer(sys, ts, d)
  }

  /** The hands of all containers within distance `n` of a trap steer towards it. */
  ghost predicate SteeredUpTo(sys: System, ts: Table, ts': Table, n: nat) {
    forall d, m: nat :: m <= n && IsDistance(sys, ts, d, m) ==> SteeredAt(sys, ts, ts', d)
  }

  lemma StillSteered(sys: System, ts: Table, ts': Table, c: nat, n: nat, m: nat)
    requires SteeredUpTo(sys, ts, ts', n) && m < n && IsDistance(sys, ts, c, n) && Active(sys, ts', c)
    ensures SteeredUpTo(sys, ts, Advanced(sys, ts', c), m)
  {
    AdvancedHands(sys, ts', c);
    var ts2 := Advanced(sys, ts', c);
    forall d, k: nat | k <= m && IsDistance(sys, ts, d, k)
      ensures SteeredAt(sys, ts, ts2, d)
    {
      assert SteeredAt(sys, ts, ts', d) && d != c;
    }
  }

  lemma SteeredSlice(sys: System, ts: Table, ts': Table, c: nat, n: nat)
    requires SameListing(ts, ts') && HandsInRange(sys, ts') && IsDistance(sys, ts, c, n) && n > 0
    requires SteeredAt(sys, ts, ts', c)
    ensures Active(sys, ts', c) && Closer(sys, ts, n - 1, SliceAt(sys, ts', c))
  {
    CloserExists(sys, ts, c, n);
    SameActive(sys, ts, ts', c);
  }

  /** From a container near a trap, hands that steer towards it never let the walk end. */
  lemma {:induction false} SteeredRunsOn(sys: System, ts: Table, ts': Table, c: nat, n: nat, fuel: nat)
    requires SameListing(ts, ts') && HandsInRange(sys, ts') && IsDistance(sys, ts, c, n)
    requires SteeredUpTo(sys, ts, ts', n)
    ensures WalkFor(sys, ts', c, fuel).None?
    decreases fuel
  {
    if n == 0 {
      SameCanStop(sys, ts, ts', c);
      TrapHolds(sys, ts', c, fuel);
    } else {
      assert SteeredAt(sys, ts, ts', c);
      SteeredSlice(sys, ts, ts', c, n);
      if fuel > 0 {
        var s := SliceAt(sys, ts', c);
        var m := DistanceExists(sys, ts, s.ct, n - 1);
        AdvancedHands(sys, ts', c);
        StillSteered(sys, ts, ts', c, n, m);
        SameAdvanced(sys, ts, ts', c);
        SteeredRunsOn(sys, ts, Advanced(sys, ts', c), s.ct, m, fuel - 1);
      }
    }
  }

  /** If some reachable container cannot stop, there are hands from which the walk never ends. */
  lemma SomeRunsOn(sys: System, ts: Table, c: nat)
    requires !AllCanStop(sys, ts, c)
    ensures SameListing(ts, Steered(sys, ts)) && HandsInRange(sys, Steered(sys, ts))
    ensures !Ends(sys, Steered(sys, ts), c)
  {
    var ts' := Steered(sys, ts);
    var d :| ReachesSome(sys, ts, c, d) && !CanStop(sys, ts, d);
    var n: nat :| Reaches(sys, ts, c, d, n);
    var m := DistanceExists(sys, ts, c, n);
    assert SteeredUpTo(sys, ts, ts', m) by {
      forall d, k: nat | k <= m && IsDistance(sys, ts, d, k)
        ensures SteeredAt(sys, ts, ts', d)
      {
      }
    }
    forall fuel: nat
      ensures WalkFor(sys, ts', c, fuel).None?
    {
      SteeredRunsOn(sys, ts, ts', c, m, fuel);
    }
  }

  /** Picking the next thread from `c` ends from every position of the hands exactly if every container that `c`
      reaches by redirects can reach one with a slice that is no redirect, or with no slice to use. */
  lemma EndsIff(sys: System, ts: Table, c: nat)
    ensures (forall ts' :: SameListing(ts, ts') && HandsInRange(sys, ts') ==> Ends(sys, ts', c))
            <==> AllCanStop(sys, ts, c)
  {
    if AllCanStop(sys, ts, c) {
      forall ts' | SameListing(ts, ts') && HandsInRange(sys, ts')
        ensures Ends(sys, ts', c)
      {
        forall d | ReachesSome(sys, ts', c, d)
          ensures CanStop(sys, ts', d)
        {
          var n: nat :| Reaches(sys, ts', c, d, n);
          ReachesSame(sys, ts', ts, c, d, n);
          assert ReachesSome(sys, ts, c, d);
          SameCanStop(sys, ts, ts', d);
        }
        AllEnd(sys, ts', c);
      }
    } else {
      SomeRunsOn(sys, ts, c);
    }
  }
}
