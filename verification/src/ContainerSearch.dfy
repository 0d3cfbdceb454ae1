/** The search for a container by label, over the graph in which containers know other containers. */
module ContainerSearch {
  import opened Options

  type Ref = nat

  type Label = nat

  /** A container may lack a label; comparing it then stops the kernel. */
  datatype Container = Container(tag: Option<Label>, known: Option<seq<Ref>>)

  type Graph = map<Ref, Container>

  function Known(g: Graph, c: Ref): (r: seq<Ref>)
    requires c in g
  {
    if g[c].known.Some? then g[c].known.value else []
  }

  /** References lead to containers. */
  ghost predicate Closed(g: Graph) {
    forall c :: c in g ==> Within(Known(g, c), g.Keys)
  }

  predicate Within(s: seq<Ref>, t: set<Ref>) {
    forall c :: c in s ==> c in t
  }

  function Elements(s: seq<Ref>): (r: set<Ref>)
    ensures forall c :: c in r <==> c in s
  {
    set c | c in s
  }

  /** `c` can be reached from `root` in `n` steps. */
  ghost predicate ReachedIn(g: Graph, root: Ref, c: Ref, n: nat)
    decreases n
  {
    c in g && if n == 0 then c == root else exists b :: b in g && ReachedIn(g, root, b, n - 1) && c in Known(g, b)
  }

  ghost predicate Reachable(g: Graph, root: Ref, c: Ref) {
    c in g && exists n: nat :: ReachedIn(g, root, c, n)
  }

  predicate Matches(g: Graph, c: Ref, tag: Label, avoid: Ref) {
    c in g && c != avoid && g[c].tag == Some(tag)
  }

  /** The search can look at the label of `c`. */
  predicate Readable(g: Graph, c: Ref, avoid: Ref) {
    c in g && (c == avoid || g[c].tag.Some?)
  }

  predicate NoRepeats(s: seq<Ref>) {
    forall i, j :: 0 <= i < j < |s| ==> s[i] != s[j]
  }

  /** The matching containers among those visited, in order. */
  function FoundAmong(g: Graph, visited: seq<Ref>, tag: Label, avoid: Ref): (r: seq<Ref>)
    ensures forall c :: c in r <==> c in visited && Matches(g, c, tag, avoid)
  {
    if visited == [] then []
    else
      var n := |visited| - 1;
      FoundAmong(g, visited[..n], tag, avoid) + if Matches(g, visited[n], tag, avoid) then [visited[n]] else []
  }

  /** A set that holds the root and is closed under the known containers holds all that is reachable. */
  lemma {:induction false} ClosedHoldsAll(g: Graph, root: Ref, visited: seq<Ref>, c: Ref, n: nat)
    requires root in visited
    requires Covered(g, visited, [])
    requires ReachedIn(g, root, c, n)
    ensures c in visited
    decreases n
  {
    if n > 0 {
      var b :| b in g && ReachedIn(g, root, b, n - 1) && c in Known(g, b);
      ClosedHoldsAll(g, root, visited, b, n - 1);
      assert Within(Known(g, b), Elements(visited + []));
    }
  }

  lemma ReachNext(g: Graph, root: Ref, b: Ref)
    requires Closed(g) && Reachable(g, root, b)
    ensures AllReachable(g, root, Known(g, b))
  {
    var n: nat :| ReachedIn(g, root, b, n);
    forall c | c in Known(g, b)
      ensures Reachable(g, root, c)
    {
      assert Within(Known(g, b), g.Keys);
      assert ReachedIn(g, root, c, n + 1);
    }
  }

  /** All that the graph can still add to `visited`. */
  function Unvisited(g: Graph, visited: seq<Ref>): set<Ref> {
    set c | c in g && c !in visited
  }

  lemma VisitShrinks(g: Graph, visited: seq<Ref>, c: Ref)
    requires c in g && c !in visited
    ensures |Unvisited(g, visited + [c])| < |Unvisited(g, visited)|
  {
    assert Unvisited(g, visited + [c]) == Unvisited(g, visited) - {c};
  }

  lemma AllVisited(g: Graph, root: Ref, visited: seq<Ref>)
    requires root in visited && Covered(g, visited, [])
    ensures forall c :: Reachable(g, root, c) ==> c in visited
  {
    forall c | Reachable(g, root, c)
      ensures c in visited
    {
      var n: nat :| ReachedIn(g, root, c, n);
      ClosedHoldsAll(g, root, visited, c, n);
    }
  }

  /** Every known container of a visited one is visited or waits. */
  ghost predicate Covered(g: Graph, visited: seq<Ref>, waiting: seq<Ref>) {
    forall b :: b in visited && b in g ==> Within(Known(g, b), Elements(visited + waiting))
  }

  lemma CoverSame(g: Graph, visited: seq<Ref>, waiting: seq<Ref>, c: Ref)
    requires c in visited && Covered(g, visited, waiting + [c])
    ensures Covered(g, visited, waiting)
  {
    assert Elements(visited + waiting) == Elements(visited + (waiting + [c]));
  }

  lemma CoverNext(g: Graph, visited: seq<Ref>, waiting: seq<Ref>, c: Ref)
    requires c in g && Covered(g, visited, waiting + [c])
    ensures Covered(g, visited + [c], waiting + Known(g, c))
  {
    var all, all' := Elements(visited + (waiting + [c])), Elements(visited + [c] + (waiting + Known(g, c)));
    assert all <= all';
    forall b | b in visited + [c] && b in g
      ensures Within(Known(g, b), all')
    {
      if b in visited { assert Within(Known(g, b), all); }
    }
  }

  ghost predicate AllReachable(g: Graph, root: Ref, s: seq<Ref>) {
    forall c :: c in s ==> Reachable(g, root, c)
  }

  /** What holds between two rounds: `visited` and `waiting` are reachable and leave nothing out. */
  ghost predicate Searching(g: Graph, root: Ref, visited: seq<Ref>, waiting: seq<Ref>) {
    && AllReachable(g, root, visited) && AllReachable(g, root, waiting) && NoRepeats(visited)
    && root in visited + waiting && Covered(g, visited, waiting)
  }

  lemma Skip(g: Graph, root: Ref, visited: seq<Ref>, waiting: seq<Ref>, c: Ref)
    requires Searching(g, root, visited, waiting + [c]) && c in visited
    ensures Searching(g, root, visited, waiting)
  {
    CoverSame(g, visited, waiting, c);
    assert forall b :: b in waiting ==> b in waiting + [c];
  }

  lemma Visit(g: Graph, root: Ref, visited: seq<Ref>, waiting: seq<Ref>, c: Ref)
    requires Closed(g) && Searching(g, root, visited, waiting + [c]) && c !in visited
    ensures c in g && Reachable(g, root, c)
    ensures Searching(g, root, visited + [c], waiting + Known(g, c))
    ensures |Unvisited(g, visited + [c])| < |Unvisited(g, visited)|
  {
    assert c in waiting + [c];
    ReachNext(g, root, c);
    CoverNext(g, visited, waiting, c);
    VisitShrinks(g, visited, c);
    assert forall b :: b in waiting ==> b in waiting + [c];
  }

  ghost predicate AllReadable(g: Graph, s: seq<Ref>, avoid: Ref) {
    forall c :: c in s ==> Readable(g, c, avoid)
  }

  lemma FoundNext(g: Graph, visited: seq<Ref>, c: Ref, tag: Label, avoid: Ref)
    ensures FoundAmong(g, visited + [c], tag, avoid) ==
      FoundAmong(g, visited, tag, avoid) + if Matches(g, c, tag, avoid) then [c] else []
  {
    assert (visited + [c])[..|visited|] == visited;
  }

  /** The loop's invariant. */
  ghost predicate Going(g: Graph, root: Ref, visited: seq<Ref>, waiting: seq<Ref>, found: seq<Ref>, tag: Label, avoid: Ref) {
    && Searching(g, root, visited, waiting) && AllReadable(g, visited, avoid)
    && found == FoundAmong(g, visited, tag, avoid)
  }

  lemma GoingStart(g: Graph, root: Ref, tag: Label, avoid: Ref)
    requires root in g
    ensures Going(g, root, [], [root], [], tag, avoid)
  {
    assert ReachedIn(g, root, root, 0);
  }

  lemma GoingSkip(g: Graph, root: Ref, visited: seq<Ref>, waiting: seq<Ref>, c: Ref, found: seq<Ref>, tag: Label,
                  avoid: Ref)
    requires Going(g, root, visited, waiting + [c], found, tag, avoid) && c in visited
    ensures Going(g, root, visited, waiting, found, tag, avoid)
  {
    Skip(g, root, visited, waiting, c);
  }

  lemma GoingVisit(g: Graph, root: Ref, visited: seq<Ref>, waiting: seq<Ref>, c: Ref, found: seq<Ref>, tag: Label,
                   avoid: Ref)
    requires Closed(g) && Going(g, root, visited, waiting + [c], found, tag, avoid) && c !in visited
    ensures c in g && |Unvisited(g, visited + [c])| < |Unvisited(g, visited)|
    ensures Readable(g, c, avoid) ==>
      Going(g, root, visited + [c], waiting + Known(g, c), found + if Matches(g, c, tag, avoid) then [c] else [], tag, avoid)
    ensures !Readable(g, c, avoid) ==> Answer(g, root, tag, avoid, false, None, visited + [c])
  {
    Visit(g, root, visited, waiting, c);
    FoundNext(g, visited, c, tag, avoid);
  }

  /** The promise of the search: each reachable container is visited once, the answer is the last match visited, none
      is given exactly if no reachable container matches, and the search stops the kernel exactly if a reachable one
      cannot be read. */
  ghost predicate Answer(g: Graph, root: Ref, tag: Label, avoid: Ref, ok: bool, r: Option<Ref>, visited: seq<Ref>) {
    && (ok <==> forall c :: Reachable(g, root, c) ==> Readable(g, c, avoid))
    && NoRepeats(visited) && AllReachable(g, root, visited)
    && (ok ==> forall c :: Reachable(g, root, c) ==> c in visited)
    && (ok && r.Some? ==> Reachable(g, root, r.value) && Matches(g, r.value, tag, avoid))
    && (ok && r.None? ==> forall c :: Reachable(g, root, c) ==> !Matches(g, c, tag, avoid))
    && (ok ==> r == LastOf(FoundAmong(g, visited, tag, avoid)))
  }

  function LastOf(s: seq<Ref>): Option<Ref> {
    if s == [] then None else Some(s[|s| - 1])
  }

  lemma Concluded(g: Graph, root: Ref, visited: seq<Ref>, found: seq<Ref>, tag: Label, avoid: Ref)
    requires Going(g, root, visited, [], found, tag, avoid)
    ensures Answer(g, root, tag, avoid, true, LastOf(found), visited)
  {
    assert visited + [] == visited;
    AllVisited(g, root, visited);
    if found != [] {
      assert found[|found| - 1] in found;
    }
  }

  /** Visits the reachable containers. `ok` fails when one that is not to be avoided has no label. */
  method Search(g: Graph, root: Ref, tag: Label, avoid: Ref)
    returns (ok: bool, r: Option<Ref>, visited: seq<Ref>)
    requires Closed(g) && root in g
    ensures Answer(g, root, tag, avoid, ok, r, visited)
  {
    var containers, found: seq<Ref> := [root], [];
    visited := [];
    GoingStart(g, root, tag, avoid);
    while containers != []
      invariant Going(g, root, visited, containers, found, tag, avoid)
      decreases |Unvisited(g, visited)|, |containers|
    {
      var c := containers[|containers| - 1];
      var rest := containers[..|containers| - 1];
      assert containers == rest + [c];
      containers := rest;
      if c in visited {
        GoingSkip(g, root, visited, rest, c, found, tag, avoid);
        continue;
      }
      GoingVisit(g, root, visited, rest, c, found, tag, avoid);
      visited := visited + [c];
      if c != avoid && g[c].tag.None? {
        return false, None, visited;
      }
      found := found + if Matches(g, c, tag, avoid) then [c] else [];
      containers := containers + Known(g, c);
    }
    Concluded(g, root, visited, found, tag, avoid);
    ok := true;
    r := LastOf(found);
  }
}
