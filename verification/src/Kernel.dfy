/** Which kernel object or container holds each page of memory, from boot through every creation of containers and
    threads and every move of pages between containers. */
module Kernels {
  import opened Options
  import opened Runs
  import opened Trees
  import opened TreeInsert
  import opened TreeRuns
  import opened TreeLowest
  import opened PageTables
  import opened PageTrees

  const KOBJ_NPAGES: nat := 2
  const THREAD_NPAGES: nat := 16

  /** A page is free in one container, or part of one kernel object. Objects are named by their first page. */
  datatype Holder = FreeIn(container: nat) | PartOf(kobject: nat)

  type Holders = map<nat, Holder>

  ghost function Assigned(h: Holders, s: set<nat>, x: Holder): (r: Holders) {
    map p | p in h.Keys + s :: if p in s then x else h[p]
  }

  /** The page tree of each container, the number of pages of each kernel object, and the holder of each page. */
  datatype Ledger = Ledger(trees: map<nat, Tree>, objects: map<nat, nat>, holder: Holders)

  ghost predicate Held(h: Holders, p: nat, x: Holder) {
    p in h && h[p] == x
  }

  ghost predicate Exists(containers: set<nat>, objects: set<nat>, x: Holder) {
    match x
    case FreeIn(c) => c in containers
    case PartOf(o) => o in objects
  }

  ghost predicate GoodTree(t: Tree) {
    SearchOrdered(t) && Colored(t)
  }

  /** The free sets of the containers and the extents of the objects are what the holders say, and every holder
      exists. */
  ghost predicate Balance(frees: map<nat, set<nat>>, objects: map<nat, nat>, h: Holders) {
    && (forall c, p :: c in frees ==> (p in frees[c] <==> Held(h, p, FreeIn(c))))
    && (forall o, p :: o in objects ==> (p in Run(o, objects[o]) <==> Held(h, p, PartOf(o))))
    && (forall p :: p in h ==> Exists(frees.Keys, objects.Keys, h[p]))
    && (forall o :: o in objects ==> objects[o] > 0)
    && frees.Keys <= objects.Keys
  }

  ghost function Frees(trees: map<nat, Tree>): map<nat, set<nat>> {
    map c | c in trees :: Pages(trees[c])
  }

  ghost predicate GoodTrees(trees: map<nat, Tree>) {
    forall c :: c in trees ==> GoodTree(trees[c])
  }

  ghost predicate Consistent(l: Ledger) {
    GoodTrees(l.trees) && Balance(Frees(l.trees), l.objects, l.holder)
  }

  /** Each page is free in exactly one container or part of exactly one object, never both. */
  lemma OneHolder(l: Ledger, p: nat)
    requires Consistent(l)
    ensures p in l.holder <==>
      (exists c :: c in l.trees && p in Pages(l.trees[c])) || (exists o :: o in l.objects && p in Run(o, l.objects[o]))
    ensures forall c, d :: c in l.trees && d in l.trees && p in Pages(l.trees[c]) && p in Pages(l.trees[d]) ==> c == d
    ensures forall o, q ::
      o in l.objects && q in l.objects && p in Run(o, l.objects[o]) && p in Run(q, l.objects[q]) ==> o == q
    ensures forall c, o :: c in l.trees && o in l.objects && p in Pages(l.trees[c]) ==> p !in Run(o, l.objects[o])
  {
    var frees := Frees(l.trees);
    assert forall c :: c in l.trees ==> frees[c] == Pages(l.trees[c]);
    if p in l.holder {
      assert Exists(frees.Keys, l.objects.Keys, l.holder[p]);
      if l.holder[p].FreeIn? {
        assert p in frees[l.holder[p].container];
      } else {
        assert p in Run(l.holder[p].kobject, l.objects[l.holder[p].kobject]);
      }
    }
  }

  // What each step does to the ledger

  /** The lowest run of a tree that has one, and the tree without it. */
  lemma GrantedRun(t: Tree, n: nat)
    requires GoodTree(t) && Granted(t, n).Some?
    ensures LeastRun(Pages(t), n).Some? && IsLeastRun(Pages(t), LeastRun(Pages(t), n).value, n)
    ensures var u := Granted(t, n).value;
      GoodTree(u) && Pages(u) == Pages(t) - Run(LeastRun(Pages(t), n).value, n)
  {
    LeastRunCorrect(Pages(t), n);
    TakeRunRemoves(t, LeastRun(Pages(t), n).value, n);
  }

  /** The first page of the run that a step took, and the ledger after it. */
  datatype Grant = Grant(page: nat, ledger: Ledger)

  /** The lowest run of `n` free pages of `c` becomes an object. */
  ghost function Obtained(l: Ledger, c: nat, n: nat): Option<Grant>
    requires Consistent(l) && c in l.trees
  {
    assert GoodTree(l.trees[c]);
    if Granted(l.trees[c], n).None? then None else
      GrantedRun(l.trees[c], n);
      var page := LeastRun(Pages(l.trees[c]), n).value;
      Some(Grant(page, Ledger(l.trees[c := Granted(l.trees[c], n).value], l.objects[page := n],
                              Assigned(l.holder, Run(page, n), PartOf(page)))))
  }

  lemma ObtainedConsistent(l: Ledger, c: nat, n: nat)
    requires Consistent(l) && c in l.trees && n > 0
    ensures var r := Obtained(l, c, n);
      r.Some? ==>
        && Consistent(r.value.ledger) && r.value.ledger.holder.Keys == l.holder.Keys
        && IsLeastRun(Pages(l.trees[c]), r.value.page, n) && r.value.page !in l.objects && r.value.page !in l.trees
        && r.value.ledger.trees.Keys == l.trees.Keys && r.value.page in r.value.ledger.objects
  {
    if Obtained(l, c, n).Some? {
      var t := l.trees[c];
      assert GoodTree(t);
      GrantedRun(t, n);
      var page := LeastRun(Pages(t), n).value;
      TakeConsistent(l, c, page, n, Granted(t, n).value);
    }
  }

  /** Exactly when the kernel goes on. */
  lemma ObtainedIff(l: Ledger, c: nat, n: nat)
    requires Consistent(l) && c in l.trees
    ensures SearchOrdered(l.trees[c])
    ensures Obtained(l, c, n).Some? <==>
      exists s :: IsLeastRun(Pages(l.trees[c]), s, n) && CanTake(l.trees[c], s, n)
  {
    assert GoodTree(l.trees[c]);
    GrantedIff(l.trees[c], n);
  }

  lemma TakeConsistent(l: Ledger, c: nat, page: nat, n: nat, u: Tree)
    requires Consistent(l) && c in l.trees && n > 0 && Run(page, n) <= Pages(l.trees[c])
    requires GoodTree(u) && Pages(u) == Pages(l.trees[c]) - Run(page, n)
    ensures var l' := Ledger(l.trees[c := u], l.objects[page := n], Assigned(l.holder, Run(page, n), PartOf(page)));
      Consistent(l') && l'.holder.Keys == l.holder.Keys && page !in l.objects && page !in l.trees
  {
    TakeBalance(Frees(l.trees), l.objects, l.holder, c, page, n);
    FreesUpdated(l.trees, c, u);
  }

  lemma FreesUpdated(trees: map<nat, Tree>, c: nat, u: Tree)
    ensures Frees(trees[c := u]) == Frees(trees)[c := Pages(u)]
    ensures GoodTrees(trees) && GoodTree(u) ==> GoodTrees(trees[c := u])
  {
  }

  lemma TakeBalance(frees: map<nat, set<nat>>, objects: map<nat, nat>, h: Holders, c: nat, page: nat, n: nat)
    requires Balance(frees, objects, h) && c in frees && n > 0 && Run(page, n) <= frees[c]
    ensures page !in objects && Assigned(h, Run(page, n), PartOf(page)).Keys == h.Keys
    ensures Balance(frees[c := frees[c] - Run(page, n)], objects[page := n], Assigned(h, Run(page, n), PartOf(page)))
  {
    var run := Run(page, n);
    assert page in run && Held(h, page, FreeIn(c));
    assert page in objects ==> page in Run(page, objects[page]);
    assert forall p :: p in run ==> Held(h, p, FreeIn(c));
  }

  /** The lowest run of `n` free pages of `c` becomes free in `d`, which may be `c` itself. */
  ghost function Moved(l: Ledger, c: nat, d: nat, n: nat): Option<Grant>
    requires Consistent(l) && c in l.trees && d in l.trees
  {
    assert GoodTree(l.trees[c]) && GoodTree(l.trees[d]);
    if Granted(l.trees[c], n).None? then None else
      GrantedRun(l.trees[c], n);
      var page := LeastRun(Pages(l.trees[c]), n).value;
      var half := l.trees[c := Granted(l.trees[c], n).value];
      Some(Grant(page, Ledger(half[d := InsertAll(half[d], page, n)], l.objects,
                              Assigned(l.holder, Run(page, n), FreeIn(d)))))
  }

  lemma MovedConsistent(l: Ledger, c: nat, d: nat, n: nat)
    requires Consistent(l) && c in l.trees && d in l.trees
    ensures var r := Moved(l, c, d, n);
      r.Some? ==>
        && Consistent(r.value.ledger) && r.value.ledger.holder.Keys == l.holder.Keys
        && IsLeastRun(Pages(l.trees[c]), r.value.page, n) && r.value.ledger.trees.Keys == l.trees.Keys
  {
    if Moved(l, c, d, n).Some? {
      assert GoodTree(l.trees[c]) && GoodTree(l.trees[d]);
      var t := l.trees[c];
      GrantedRun(t, n);
      var page, u := LeastRun(Pages(t), n).value, Granted(t, n).value;
      ConsistentApart(l);
      RunInRange(t, page, n);
      var w := if c == d then u else l.trees[d];
      TreeGrows(w, page, n);
      MoveConsistent(l, c, d, page, n, u, InsertAll(w, page, n));
      assert l.trees[c := u][d] == w;
    }
  }

  lemma TreeGrows(t: Tree, page: nat, n: nat)
    requires GoodTree(t) && Run(page, n) !! Pages(t) && (n > 0 ==> 0 < page && page + n <= PAGE_LIMIT)
    ensures var v := InsertAll(t, page, n); GoodTree(v) && Pages(v) == Pages(t) + Run(page, n)
  {
    InsertAllAdds(t, page, n);
    InsertAllColored(t, page, n);
  }

  lemma RunInRange(t: Tree, page: nat, n: nat)
    requires SearchOrdered(t) && Run(page, n) <= Pages(t)
    ensures n > 0 ==> 0 < page && page + n <= PAGE_LIMIT
  {
    OrderedPages(t, 0, PAGE_LIMIT);
    assert n > 0 ==> page in Run(page, n) && page + n - 1 in Run(page, n);
  }

  lemma MoveConsistent(l: Ledger, c: nat, d: nat, page: nat, n: nat, u: Tree, v: Tree)
    requires Consistent(l) && c in l.trees && d in l.trees && Run(page, n) <= Pages(l.trees[c])
    requires GoodTree(u) && Pages(u) == Pages(l.trees[c]) - Run(page, n)
    requires GoodTree(v) && Pages(v) == (if c == d then Pages(u) else Pages(l.trees[d])) + Run(page, n)
    ensures var l' := Ledger(l.trees[c := u][d := v], l.objects, Assigned(l.holder, Run(page, n), FreeIn(d)));
      Consistent(l') && l'.holder.Keys == l.holder.Keys
  {
    MoveBalance(Frees(l.trees), l.objects, l.holder, c, d, Run(page, n));
    FreesUpdated(l.trees, c, u);
    FreesUpdated(l.trees[c := u], d, v);
  }

  lemma MoveBalance(frees: map<nat, set<nat>>, objects: map<nat, nat>, h: Holders, c: nat, d: nat, run: set<nat>)
    requires Balance(frees, objects, h) && c in frees && d in frees && run <= frees[c]
    ensures Assigned(h, run, FreeIn(d)).Keys == h.Keys
    ensures var less := frees[c := frees[c] - run];
      Balance(less[d := less[d] + run], objects, Assigned(h, run, FreeIn(d)))
  {
    assert forall p :: p in run ==> Held(h, p, FreeIn(c));
  }

  /** Moving pages keeps the union of the two free sets, and within one container the set itself. */
  lemma MoveKeepsUnion(l: Ledger, c: nat, d: nat, n: nat)
    requires Consistent(l) && c in l.trees && d in l.trees
    ensures var r := Moved(l, c, d, n);
      r.Some? ==>
        Pages(r.value.ledger.trees[c]) + Pages(r.value.ledger.trees[d]) == Pages(l.trees[c]) + Pages(l.trees[d])
  {
    if Moved(l, c, d, n).Some? {
      assert GoodTree(l.trees[c]);
      GrantedRun(l.trees[c], n);
      MoveHalf(l, c, d, n);
      TreeGrows(Half(l, c, n).trees[d], Moved(l, c, d, n).value.page, n);
    }
  }

  /** The ledger in the middle of a move. */
  ghost function Half(l: Ledger, c: nat, n: nat): Ledger
    requires Consistent(l) && c in l.trees
  {
    assert GoodTree(l.trees[c]);
    if Granted(l.trees[c], n).None? then l else l.(trees := l.trees[c := Granted(l.trees[c], n).value])
  }

  /** What the second half of a move asks for. */
  lemma MoveHalf(l: Ledger, c: nat, d: nat, n: nat)
    requires Consistent(l) && c in l.trees && d in l.trees
    ensures var half := Half(l, c, n).trees; var r := Moved(l, c, d, n);
      r.Some? ==>
        && GoodTree(half[d]) && Pages(half[d]) !! Run(r.value.page, n) && Apart(r.value.ledger.trees)
        && r.value.ledger.trees == half[d := InsertAll(half[d], r.value.page, n)]
        && (n > 0 ==> 0 < r.value.page && r.value.page + n <= PAGE_LIMIT)
  {
    if Moved(l, c, d, n).Some? {
      assert GoodTree(l.trees[c]) && GoodTree(l.trees[d]);
      GrantedRun(l.trees[c], n);
      ConsistentApart(l);
      MovedConsistent(l, c, d, n);
      ConsistentApart(Moved(l, c, d, n).value.ledger);
      RunInRange(l.trees[c], Moved(l, c, d, n).value.page, n);
    }
  }

  /** An object becomes a container without free pages. */
  ghost function Opened(l: Ledger, c: nat): Ledger {
    l.(trees := l.trees[c := Leaf])
  }

  lemma OpenedConsistent(l: Ledger, c: nat)
    requires Consistent(l) && c in l.objects && c !in l.trees
    ensures Consistent(Opened(l, c))
  {
    OpenBalance(Frees(l.trees), l.objects, l.holder, c);
    FreesUpdated(l.trees, c, Leaf);
  }

  lemma OpenBalance(frees: map<nat, set<nat>>, objects: map<nat, nat>, h: Holders, c: nat)
    requires Balance(frees, objects, h) && c in objects && c !in frees
    ensures Balance(frees[c := {}], objects, h)
  {
    forall p
      ensures !Held(h, p, FreeIn(c))
    {
      assert p in h ==> Exists(frees.Keys, objects.Keys, h[p]);
    }
  }

  ghost predicate Apart(trees: map<nat, Tree>) {
    forall c, d :: c in trees && d in trees && c != d ==> Pages(trees[c]) !! Pages(trees[d])
  }

  lemma ConsistentApart(l: Ledger)
    requires Consistent(l)
    ensures Apart(l.trees)
  {
    forall c, d | c in l.trees && d in l.trees && c != d
      ensures Pages(l.trees[c]) !! Pages(l.trees[d])
    {
      assert Frees(l.trees)[c] == Pages(l.trees[c]) && Frees(l.trees)[d] == Pages(l.trees[d]);
    }
  }

  /** The tree that boot starts from. */
  ghost function AllPages(base: nat, n: nat): (t: Tree)
    requires 0 < base && base + n <= PAGE_LIMIT
    ensures GoodTree(t) && Pages(t) == Run(base, n)
  {
    InsertAllAdds(Leaf, base, n);
    InsertAllColored(Leaf, base, n);
    InsertAll(Leaf, base, n)
  }

  /** The ledger after boot has made the label `lb` and the root container `ct`, with `t` left to the latter. */
  ghost function BootLedger(base: nat, n: nat, lb: nat, ct: nat, t: Tree): Ledger {
    Ledger(map[ct := t], map[lb := KOBJ_NPAGES, ct := KOBJ_NPAGES],
      map p | p in Run(base, n) ::
        if p in Run(lb, KOBJ_NPAGES) then PartOf(lb) else if p in Run(ct, KOBJ_NPAGES) then PartOf(ct) else FreeIn(ct))
  }

  lemma BootConsistent(base: nat, n: nat, lb: nat, ct: nat, t: Tree)
    requires Run(lb, KOBJ_NPAGES) <= Run(base, n) && Run(ct, KOBJ_NPAGES) <= Run(base, n) - Run(lb, KOBJ_NPAGES)
    requires GoodTree(t) && Pages(t) == Run(base, n) - Run(lb, KOBJ_NPAGES) - Run(ct, KOBJ_NPAGES)
    ensures Consistent(BootLedger(base, n, lb, ct, t)) && BootLedger(base, n, lb, ct, t).holder.Keys == Run(base, n)
  {
    BootBalance(Run(base, n), lb, ct, Pages(t), BootLedger(base, n, lb, ct, t).holder);
    assert Frees(map[ct := t]) == map[ct := Pages(t)];
  }

  lemma BootBalance(pool: set<nat>, lb: nat, ct: nat, free: set<nat>, h: Holders)
    requires Run(lb, KOBJ_NPAGES) <= pool && Run(ct, KOBJ_NPAGES) <= pool - Run(lb, KOBJ_NPAGES)
    requires free == pool - Run(lb, KOBJ_NPAGES) - Run(ct, KOBJ_NPAGES)
    requires h.Keys == pool && forall p :: p in pool ==>
      h[p] == if p in Run(lb, KOBJ_NPAGES) then PartOf(lb) else if p in Run(ct, KOBJ_NPAGES) then PartOf(ct) else FreeIn(ct)
    ensures Balance(map[ct := free], map[lb := KOBJ_NPAGES, ct := KOBJ_NPAGES], h)
  {
    assert ct in Run(ct, KOBJ_NPAGES) && lb in Run(lb, KOBJ_NPAGES) && lb != ct;
  }

  // The slots of a container

  /** The objects that a container lists; a slot may be invalid. */
  type Slots = seq<Option<nat>>

  /** The first invalid slot, or the next new one. */
  function FreeSlot(s: Slots): (i: nat)
    ensures i <= |s| && (i < |s| ==> s[i] == None) && forall j :: 0 <= j < i ==> s[j].Some?
  {
    if s == [] || s[0] == None then 0 else 1 + FreeSlot(s[1..])
  }

  /** No object loses its slot. */
  function Filled(s: Slots, x: nat): (r: Slots)
    ensures |s| <= |r| && forall i :: 0 <= i < |s| && s[i].Some? ==> r[i] == s[i]
    ensures Some(x) in r && forall y :: Some(y) in r ==> y == x || Some(y) in s
  {
    var i := FreeSlot(s);
    var r := if i == |s| then s + [Some(x)] else s[i := Some(x)];
    assert r[i] == Some(x);
    r
  }

  /** The first invalid slot is taken; a new one only where all are valid. */
  lemma FilledAt(s: Slots, x: nat, i: nat)
    requires i <= |s| && (i < |s| ==> s[i] == None) && forall j :: 0 <= j < i ==> s[j].Some?
    ensures Filled(s, x) == if i < |s| then s[i := Some(x)] else s + [Some(x)]
  {
    assert FreeSlot(s) == i;
  }

  // Steps and runs

  /** All that the kernel records: pages, slots, and the labels and parents of objects. */
  datatype Records = Records(ledger: Ledger, slots: map<nat, Slots>, labels: map<nat, nat>, parents: map<nat, nat>)

  ghost predicate Sound(r: Records) {
    Consistent(r.ledger) && r.slots.Keys == r.ledger.trees.Keys
  }

  /** `mayFlow` is the outcome of the label check that the step begins with. */
  datatype Step =
    | CreateIn(ct: nat, mayFlow: bool)
    | SpawnIn(ct: nat, mayFlow: bool)
    | Move(ct1: nat, ct2: nat, npages: nat)

  ghost function Listed(slots: map<nat, Slots>, ct: nat, x: nat): map<nat, Slots>
    requires ct in slots
  {
    slots[ct := Filled(slots[ct], x)]
  }

  /** A label and a second object of `n` pages out of `ct`, both listed there. */
  ghost function TwoMade(r: Records, ct: nat, mayFlow: bool, n: nat): Option<(nat, nat, Records)>
    requires Sound(r) && ct in r.slots && n > 0
  {
    if !mayFlow || ct !in r.labels || Obtained(r.ledger, ct, KOBJ_NPAGES).None? then None else
      var a := Obtained(r.ledger, ct, KOBJ_NPAGES).value;
      ObtainedConsistent(r.ledger, ct, KOBJ_NPAGES);
      match Obtained(a.ledger, ct, n)
      case None => None
      case Some(b) =>
        Some((a.page, b.page,
              r.(ledger := b.ledger, slots := Listed(Listed(r.slots, ct, a.page), ct, b.page))))
  }

  lemma TwoMadeIs(r: Records, ct: nat, mayFlow: bool, n: nat, a: Grant)
    requires Sound(r) && ct in r.slots && n > 0 && mayFlow && ct in r.labels
    requires Obtained(r.ledger, ct, KOBJ_NPAGES) == Some(a)
    ensures Consistent(a.ledger) && ct in a.ledger.trees
    ensures var second := Obtained(a.ledger, ct, n);
      TwoMade(r, ct, mayFlow, n) ==
        if second.None? then None
        else Some((a.page, second.value.page,
                   r.(ledger := second.value.ledger,
                      slots := Listed(Listed(r.slots, ct, a.page), ct, second.value.page))))
  {
    ObtainedConsistent(r.ledger, ct, KOBJ_NPAGES);
  }

  lemma TwoMadeSound(r: Records, ct: nat, mayFlow: bool, n: nat)
    requires Sound(r) && ct in r.slots && n > 0
    ensures var two := TwoMade(r, ct, mayFlow, n);
      two.Some? ==>
        var (lb, x, r') := two.value;
        && Sound(r') && r'.ledger.holder.Keys == r.ledger.holder.Keys && r'.ledger.trees.Keys == r.ledger.trees.Keys
        && x in r'.ledger.objects && x !in r'.ledger.trees
  {
    if TwoMade(r, ct, mayFlow, n).Some? {
      ObtainedConsistent(r.ledger, ct, KOBJ_NPAGES);
      ObtainedConsistent(Obtained(r.ledger, ct, KOBJ_NPAGES).value.ledger, ct, n);
    }
  }

  /** The records after a step; `None` where the kernel stops. */
  ghost function RecordsAfter(r: Records, step: Step): Option<Records>
    requires Sound(r)
  {
    match step
    case CreateIn(ct, mayFlow) =>
      if ct !in r.slots then None else
        (match TwoMade(r, ct, mayFlow, KOBJ_NPAGES)
         case None => None
         case Some((lb, newCt, r')) =>
           Some(r'.(ledger := Opened(r'.ledger, newCt), slots := r'.slots[newCt := []], labels := r'.labels[newCt := lb])))
    case SpawnIn(ct, mayFlow) =>
      if ct !in r.slots then None else
        (match TwoMade(r, ct, mayFlow, THREAD_NPAGES)
         case None => None
         case Some((lb, th, r')) =>
           Some(r'.(labels := r'.labels[th := lb], parents := r'.parents[lb := ct][th := ct])))
    case Move(ct1, ct2, npages) =>
      if ct1 !in r.slots || ct2 !in r.slots || Moved(r.ledger, ct1, ct2, npages).None? then None
      else Some(r.(ledger := Moved(r.ledger, ct1, ct2, npages).value.ledger))
  }

  ghost function Spawned(r: Records, ct: nat, lb: nat, b: Grant): Records
    requires ct in r.slots
  {
    Records(b.ledger, Listed(Listed(r.slots, ct, lb), ct, b.page), r.labels[b.page := lb],
            r.parents[lb := ct][b.page := ct])
  }

  lemma SpawnIs(r: Records, ct: nat, mayFlow: bool, a: Grant)
    requires Sound(r) && ct in r.slots && mayFlow && ct in r.labels && Obtained(r.ledger, ct, KOBJ_NPAGES) == Some(a)
    requires Consistent(a.ledger) && ct in a.ledger.trees
    ensures RecordsAfter(r, SpawnIn(ct, mayFlow)) ==
      match Obtained(a.ledger, ct, THREAD_NPAGES)
      case None => None
      case Some(b) => Some(Spawned(r, ct, a.page, b))
  {
    TwoMadeIs(r, ct, mayFlow, THREAD_NPAGES, a);
  }

  lemma CreateIs(r: Records, ct: nat, mayFlow: bool, a: Grant)
    requires Sound(r) && ct in r.slots && mayFlow && ct in r.labels && Obtained(r.ledger, ct, KOBJ_NPAGES) == Some(a)
    requires Consistent(a.ledger) && ct in a.ledger.trees
    ensures RecordsAfter(r, CreateIn(ct, mayFlow)) ==
      match Obtained(a.ledger, ct, KOBJ_NPAGES)
      case None => None
      case Some(b) => Some(Records(Opened(b.ledger, b.page),
                                   Listed(Listed(r.slots, ct, a.page), ct, b.page)[b.page := []],
                                   r.labels[b.page := a.page], r.parents))
  {
    TwoMadeIs(r, ct, mayFlow, KOBJ_NPAGES, a);
  }

  /** Every step keeps the books and the pages that they account for. */
  lemma AfterSound(r: Records, step: Step)
    requires Sound(r)
    ensures RecordsAfter(r, step).Some? ==>
      Sound(RecordsAfter(r, step).value) && RecordsAfter(r, step).value.ledger.holder.Keys == r.ledger.holder.Keys
  {
    match step
    case CreateIn(ct, mayFlow) =>
      if ct in r.slots {
        TwoMadeSound(r, ct, mayFlow, KOBJ_NPAGES);
        if TwoMade(r, ct, mayFlow, KOBJ_NPAGES).Some? {
          var (lb, newCt, r') := TwoMade(r, ct, mayFlow, KOBJ_NPAGES).value;
          OpenedConsistent(r'.ledger, newCt);
        }
      }
    case SpawnIn(ct, mayFlow) =>
      if ct in r.slots {
        TwoMadeSound(r, ct, mayFlow, THREAD_NPAGES);
      }
    case Move(ct1, ct2, npages) =>
      if ct1 in r.slots && ct2 in r.slots {
        MovedConsistent(r.ledger, ct1, ct2, npages);
      }
  }

  ghost function RecordsAfterAll(r: Records, steps: seq<Step>): (r': Option<Records>)
    requires Sound(r)
    ensures r'.Some? ==> Sound(r'.value)
  {
    if steps == [] then Some(r)
    else
      var n := |steps| - 1;
      match RecordsAfterAll(r, steps[..n])
      case None => None
      case Some(m) => AfterSound(m, steps[n]); RecordsAfter(m, steps[n])
  }

  lemma RecordsAfterNext(r: Records, steps: seq<Step>, i: nat)
    requires Sound(r) && i < |steps| && RecordsAfterAll(r, steps[..i]).Some?
    ensures RecordsAfterAll(r, steps[..i + 1]) == RecordsAfter(RecordsAfterAll(r, steps[..i]).value, steps[i])
  {
    assert steps[..i + 1][..i] == steps[..i];
  }

  /** A kernel that stopped stays stopped. */
  lemma {:induction false} StaysStopped(r: Records, steps: seq<Step>, i: nat)
    requires Sound(r) && i <= |steps| && RecordsAfterAll(r, steps[..i]) == None
    ensures RecordsAfterAll(r, steps) == None
    decreases |steps|
  {
    if i < |steps| {
      assert steps[..|steps| - 1][..i] == steps[..i];
      StaysStopped(r, steps[..|steps| - 1], i);
    } else {
      assert steps[..i] == steps;
    }
  }

  /** Over every run, each page given at boot stays free in one container or part of one object, and no other page
      comes in. */
  lemma {:induction false} PagesConserved(r: Records, steps: seq<Step>, p: nat)
    requires Sound(r) && RecordsAfterAll(r, steps).Some?
    ensures var l := RecordsAfterAll(r, steps).value.ledger;
      && l.holder.Keys == r.ledger.holder.Keys
      && (p in r.ledger.holder <==>
        (exists c :: c in l.trees && p in Pages(l.trees[c])) || (exists o :: o in l.objects && p in Run(o, l.objects[o])))
    decreases |steps|
  {
    if steps != [] {
      var n := |steps| - 1;
      PagesConserved(r, steps[..n], p);
      AfterSound(RecordsAfterAll(r, steps[..n]).value, steps[n]);
    }
    OneHolder(RecordsAfterAll(r, steps).value.ledger, p);
  }

  // Boot

  /** The records once boot has made a label and the root container. */
  ghost function RootMade(base: nat, n: nat): (r: Option<(nat, Records)>)
    requires 0 < base && base + n <= PAGE_LIMIT
    ensures r.Some? ==>
      && Sound(r.value.1) && r.value.1.ledger.holder.Keys == Run(base, n)
      && r.value.1.slots == map[r.value.0 := []] && r.value.0 in r.value.1.labels
  {
    var t := AllPages(base, n);
    if Granted(t, KOBJ_NPAGES).None? then None else
      GrantedRun(t, KOBJ_NPAGES);
      var (lb, u) := (LeastRun(Pages(t), KOBJ_NPAGES).value, Granted(t, KOBJ_NPAGES).value);
      if Granted(u, KOBJ_NPAGES).None? then None else
        GrantedRun(u, KOBJ_NPAGES);
        var (ct, v) := (LeastRun(Pages(u), KOBJ_NPAGES).value, Granted(u, KOBJ_NPAGES).value);
        BootConsistent(base, n, lb, ct, v);
        Some((ct, Records(BootLedger(base, n, lb, ct, v), map[ct := []], map[ct := lb], map[lb := ct])))
  }

  lemma RootMadeIs(base: nat, n: nat, lb: nat, u: Tree)
    requires 0 < base && base + n <= PAGE_LIMIT
    requires Granted(AllPages(base, n), KOBJ_NPAGES) == Some(u)
    requires LeastRun(Pages(AllPages(base, n)), KOBJ_NPAGES) == Some(lb)
    ensures GoodTree(u)
    ensures RootMade(base, n).Some? <==> Granted(u, KOBJ_NPAGES).Some?
    ensures RootMade(base, n).Some? ==>
      var (ct, r) := RootMade(base, n).value;
      && LeastRun(Pages(u), KOBJ_NPAGES) == Some(ct) && r.labels == map[ct := lb] && r.parents == map[lb := ct]
      && r.ledger.trees == map[ct := Granted(u, KOBJ_NPAGES).value]
  {
    GrantedRun(AllPages(base, n), KOBJ_NPAGES);
    if Granted(u, KOBJ_NPAGES).Some? {
      GrantedRun(u, KOBJ_NPAGES);
    }
  }

  /** The records after boot, the main thread and its label included. */
  ghost function Booted(base: nat, n: nat): Option<Records>
    requires 0 < base && base + n <= PAGE_LIMIT
  {
    match RootMade(base, n)
    case None => None
    case Some((root, r)) =>
      match WithThread(r, root)
      case None => None
      case Some((_, r')) => Some(r')
  }

  /** The main thread and the records with it. */
  ghost function WithThread(r: Records, root: nat): Option<(nat, Records)>
    requires Sound(r) && root in r.slots
  {
    match TwoMade(r, root, true, THREAD_NPAGES)
    case None => None
    case Some((lb, th, r')) => Some((th, r'.(labels := r'.labels[th := lb])))
  }

  lemma ThreadIs(r: Records, root: nat, a: Grant)
    requires Sound(r) && root in r.slots && root in r.labels && Obtained(r.ledger, root, KOBJ_NPAGES) == Some(a)
    requires Consistent(a.ledger) && root in a.ledger.trees
    ensures WithThread(r, root) ==
      match Obtained(a.ledger, root, THREAD_NPAGES)
      case None => None
      case Some(b) => Some((b.page, Records(b.ledger, Listed(Listed(r.slots, root, a.page), root, b.page),
                                            r.labels[b.page := a.page], r.parents)))
  {
    TwoMadeIs(r, root, true, THREAD_NPAGES, a);
  }

  lemma BootedSound(base: nat, n: nat)
    requires 0 < base && base + n <= PAGE_LIMIT
    ensures Booted(base, n).Some? ==> Sound(Booted(base, n).value) && Booted(base, n).value.ledger.holder.Keys == Run(base, n)
  {
    if RootMade(base, n).Some? {
      ThreadSound(RootMade(base, n).value.1, RootMade(base, n).value.0);
    }
  }

  lemma ThreadSound(r: Records, root: nat)
    requires Sound(r) && root in r.slots
    ensures var made := WithThread(r, root);
      made.Some? ==> Sound(made.value.1) && made.value.1.ledger.holder.Keys == r.ledger.holder.Keys
  {
    TwoMadeSound(r, root, true, THREAD_NPAGES);
  }

  /** A request to a container whose free pages are one run that nothing but requests has touched. */
  lemma ObtainedFromRun(l: Ledger, c: nat, s: nat, n: nat, k: nat)
    requires Consistent(l) && c in l.trees && Even(l.trees[c]) && Pages(l.trees[c]) == Run(s, n) && k > 0
    ensures Obtained(l, c, k).Some? <==> k <= n
    ensures k <= n ==>
      var r := Obtained(l, c, k).value;
      && r.page == s && Consistent(r.ledger) && r.ledger.trees.Keys == l.trees.Keys
      && r.ledger.objects == l.objects[s := k] && r.ledger.holder.Keys == l.holder.Keys
      && Even(r.ledger.trees[c]) && Pages(r.ledger.trees[c]) == Run(s + k, n - k)
  {
    assert GoodTree(l.trees[c]);
    GrantedFromRun(l.trees[c], s, n, k);
    ObtainedConsistent(l, c, k);
  }

  /** The two requests for the label and the root container are served exactly if the region has four pages. */
  lemma RootMadeIff(base: nat, n: nat)
    requires 0 < base && base + n <= PAGE_LIMIT
    ensures RootMade(base, n).Some? <==> n >= 4
    ensures n >= 4 ==>
      var (root, r) := RootMade(base, n).value;
      && root == base + 2 && r.slots == map[base + 2 := []] && r.labels == map[base + 2 := base]
      && r.parents == map[base := base + 2]
      && r.ledger.objects == map[base := 2, base + 2 := 2] && r.ledger.trees.Keys == {base + 2}
      && Even(r.ledger.trees[base + 2]) && Pages(r.ledger.trees[base + 2]) == Run(base + 4, n - 4)
  {
    var t := AllPages(base, n);
    BuildFull(base, n);
    GrantedFromRun(t, base, n, KOBJ_NPAGES);
    if n >= 2 {
      GrantedFromRun(Granted(t, KOBJ_NPAGES).value, base + 2, n - 2, KOBJ_NPAGES);
    }
  }

  /** The records of a kernel that has booted on the `n` pages from `base`: a label, the root container, a label and
      the main thread lie side by side at the start of the region, and the root container has the rest. */
  ghost predicate FreshlyBooted(r: Records, base: nat, n: nat) {
    var root, th := base + 2, base + 6;
    && r.ledger.objects == map[base := 2, root := 2, base + 4 := 2, th := 16]
    && r.slots == map[root := [Some(base + 4), Some(th)]]
    && r.labels == map[root := base, th := base + 4] && r.parents == map[base := root]
    && n >= 22 && r.ledger.trees.Keys == {root} && Pages(r.ledger.trees[root]) == Run(base + 22, n - 22)
  }

  lemma FirstSlots(x: nat, y: nat)
    ensures Filled([], x) == [Some(x)] && Filled([Some(x)], y) == [Some(x), Some(y)]
  {
    assert FreeSlot([Some(x)][1..]) == 0;
  }

  lemma FreshRecords(r: Records, base: nat, n: nat, l: Ledger)
    requires n >= 22 && r.slots == map[base + 2 := []] && r.labels == map[base + 2 := base]
    requires r.parents == map[base := base + 2]
    requires l.objects == map[base := 2, base + 2 := 2][base + 4 := 2][base + 6 := 16]
    requires l.trees.Keys == {base + 2} && Pages(l.trees[base + 2]) == Run(base + 22, n - 22)
    ensures FreshlyBooted(Records(l, Listed(Listed(r.slots, base + 2, base + 4), base + 2, base + 6),
                                  r.labels[base + 6 := base + 4], r.parents), base, n)
  {
    FirstSlots(base + 4, base + 6);
  }

  lemma ThreadOf(r: Records, base: nat, n: nat, a: Grant, obtained: Option<Grant>)
    requires n >= 6 && r.slots == map[base + 2 := []] && r.labels == map[base + 2 := base]
    requires r.parents == map[base := base + 2] && a.page == base + 4
    requires Consistent(a.ledger) && base + 2 in a.ledger.trees && obtained == Obtained(a.ledger, base + 2, THREAD_NPAGES)
    requires a.ledger.trees.Keys == {base + 2} && a.ledger.objects == map[base := 2, base + 2 := 2][base + 4 := 2]
    requires Even(a.ledger.trees[base + 2]) && Pages(a.ledger.trees[base + 2]) == Run(base + 6, n - 6)
    ensures obtained.Some? <==> n >= 22
    ensures n >= 22 ==>
      var b := obtained.value;
      b.page == base + 6
      && FreshlyBooted(Records(b.ledger, Listed(Listed(r.slots, base + 2, a.page), base + 2, b.page),
                               r.labels[b.page := a.page], r.parents), base, n)
  {
    ObtainedFromRun(a.ledger, base + 2, base + 6, n - 6, THREAD_NPAGES);
    if n >= 22 {
      FreshRecords(r, base, n, obtained.value.ledger);
    }
  }

  lemma WithThreadIff(r: Records, base: nat, n: nat)
    requires n >= 4 && Sound(r) && r.slots == map[base + 2 := []] && r.labels == map[base + 2 := base]
    requires r.parents == map[base := base + 2] && r.ledger.objects == map[base := 2, base + 2 := 2]
    requires r.ledger.trees.Keys == {base + 2}
    requires Even(r.ledger.trees[base + 2]) && Pages(r.ledger.trees[base + 2]) == Run(base + 4, n - 4)
    ensures WithThread(r, base + 2).Some? <==> n >= 22
    ensures n >= 22 ==>
      WithThread(r, base + 2).value.0 == base + 6 && FreshlyBooted(WithThread(r, base + 2).value.1, base, n)
  {
    ObtainedFromRun(r.ledger, base + 2, base + 4, n - 4, KOBJ_NPAGES);
    if n >= 6 {
      var a := Obtained(r.ledger, base + 2, KOBJ_NPAGES).value;
      var obtained := Obtained(a.ledger, base + 2, THREAD_NPAGES);
      ThreadOf(r, base, n, a, obtained);
      ThreadIs(r, base + 2, a);
    }
  }

  /** Boot completes exactly on a region of at least 22 pages, and leaves these records. */
  lemma BootedIff(base: nat, n: nat)
    requires 0 < base && base + n <= PAGE_LIMIT
    ensures Booted(base, n).Some? <==> n >= 22
    ensures n >= 22 ==> FreshlyBooted(Booted(base, n).value, base, n)
  {
    RootMadeIff(base, n);
    if n >= 4 {
      BootGoesOn(base, n, RootMade(base, n).value.0, RootMade(base, n).value.1);
    }
  }

  lemma BootGoesOn(base: nat, n: nat, root: nat, r: Records)
    requires 0 < base && base + n <= PAGE_LIMIT && RootMade(base, n) == Some((root, r))
    ensures n >= 4 && root == base + 2 && Sound(r) && root in r.slots && root in r.labels
    ensures Booted(base, n).Some? <==> WithThread(r, root).Some?
    ensures WithThread(r, root).Some? <==> n >= 22
    ensures n >= 22 ==>
      var (th, r') := WithThread(r, root).value;
      th == base + 6 && Booted(base, n) == Some(r') && FreshlyBooted(r', base, n)
  {
    RootMadeIff(base, n);
    WithThreadIff(r, base, n);
  }

  /** From boot on, over every run, the pages of the region and no others are free in one container or part of one
      object. */
  lemma BootedConserved(base: nat, n: nat, steps: seq<Step>, p: nat)
    requires 0 < base && base + n <= PAGE_LIMIT && n >= 22
    ensures Booted(base, n).Some? && Sound(Booted(base, n).value)
    ensures var r := RecordsAfterAll(Booted(base, n).value, steps);
      r.Some? ==>
        var l := r.value.ledger;
        && (base <= p < base + n <==>
          (exists c :: c in l.trees && p in Pages(l.trees[c])) || (exists o :: o in l.objects && p in Run(o, l.objects[o])))
        && (forall c, o :: c in l.trees && o in l.objects && p in Pages(l.trees[c]) ==> p !in Run(o, l.objects[o]))
  {
    BootedIff(base, n);
    BootedSound(base, n);
    var r := Booted(base, n).value;
    if RecordsAfterAll(r, steps).Some? {
      PagesConserved(r, steps, p);
      OneHolder(RecordsAfterAll(r, steps).value.ledger, p);
    }
  }

  // Page trees in shared memory

  lemma StoredElsewhere(m: Table, m': Table, t: Tree, s: set<nat>)
    requires Stored(m, t, None) && SameOutside(m, m', s) && Pages(t) !! s
    ensures Stored(m', t, None)
  {
    StoredFrame(m, m', t, None);
  }

  /** Every container has a page tree of its own. */
  ghost predicate TreesOf(mem: Memory, nodes: map<nat, PageTree>, trees: map<nat, Tree>)
    reads mem, nodes.Values
  {
    && trees.Keys == nodes.Keys
    && (forall c :: c in nodes ==> TreeOf(mem, nodes[c], trees[c]))
    && (forall c, d :: c in nodes && d in nodes && c != d ==> nodes[c] != nodes[d])
  }

  ghost predicate TreeOf(mem: Memory, node: PageTree, t: Tree)
    reads mem, node
  {
    node.mem == mem && node.Valid() && node.tree == t
  }

  lemma OneTreeMore(mem: Memory, nodes: map<nat, PageTree>, trees: map<nat, Tree>, page: nat, node: PageTree)
    requires TreesOf(mem, nodes, trees) && TreeOf(mem, node, Leaf) && node !in nodes.Values
    ensures TreesOf(mem, nodes[page := node], trees[page := Leaf])
  {
    assert forall c :: c in nodes ==> nodes[c] in nodes.Values;
  }

  /** A request that stops the kernel if there is no such run. */
  method MustGet(t: PageTree, npages: nat) returns (ok: bool, page: nat)
    requires t.Valid()
    modifies t, t.mem
    ensures ok <==> Granted(old(t.tree), npages).Some?
    ensures ok ==> t.Valid() && t.tree == Granted(old(t.tree), npages).value
    ensures ok ==> LeastRun(old(t.Free()), npages) == Some(page)
    ensures SameOutside(old(t.mem.node), t.mem.node, old(t.Free()))
  {
    ghost var before := t.tree;
    var found;
    ok, found := t.GetMultiple(npages);
    GrantedIs(before, npages, found);
    if ok && found.Some? {
      LeastRunCorrect(Pages(before), npages);
      LeastRunUnique(Pages(before), found.value, LeastRun(Pages(before), npages).value, npages);
    }
    return ok && found.Some?, if found.Some? then found.value else 0;
  }

  /** Takes the lowest run of `npages` pages from one tree; all others stay. */
  method TakeFrom(mem: Memory, nodes: map<nat, PageTree>, ghost trees: map<nat, Tree>, ct: nat, npages: nat)
    returns (ok: bool, page: nat)
    requires TreesOf(mem, nodes, trees) && ct in nodes && Apart(trees) && SearchOrdered(trees[ct])
    modifies nodes[ct], mem
    ensures ok <==> Granted(trees[ct], npages).Some?
    ensures ok ==> LeastRun(Pages(trees[ct]), npages) == Some(page)
    ensures ok ==> TreesOf(mem, nodes, trees[ct := Granted(trees[ct], npages).value])
  {
    ghost var m := mem.node;
    ok, page := MustGet(nodes[ct], npages);
    if ok {
      forall c | c in nodes && c != ct
        ensures TreeOf(mem, nodes[c], trees[c])
      {
        assert Pages(trees[c]) !! Pages(trees[ct]);
        StoredElsewhere(m, mem.node, trees[c], Pages(trees[ct]));
      }
    }
  }

  /** Puts pages that are in no tree into one tree, lowest first; all others stay. */
  method GiveTo(mem: Memory, nodes: map<nat, PageTree>, ghost trees: map<nat, Tree>, ct: nat, start: nat, npages: nat)
    requires TreesOf(mem, nodes, trees) && ct in nodes && GoodTree(trees[ct])
    requires Pages(trees[ct]) !! Run(start, npages) && (npages > 0 ==> 0 < start && start + npages <= PAGE_LIMIT)
    requires Apart(trees[ct := InsertAll(trees[ct], start, npages)])
    modifies nodes[ct], mem
    ensures TreesOf(mem, nodes, trees[ct := InsertAll(trees[ct], start, npages)])
  {
    ghost var m, after := mem.node, trees[ct := InsertAll(trees[ct], start, npages)];
    TreeGrows(trees[ct], start, npages);
    nodes[ct].Init(start, npages);
    forall c | c in nodes && c != ct
      ensures TreeOf(mem, nodes[c], trees[c])
    {
      assert Pages(after[c]) !! Pages(after[ct]);
      StoredElsewhere(m, mem.node, trees[c], Pages(after[ct]));
    }
  }

  class Kernel {
    const mem: Memory
    var freePages: map<nat, PageTree>
    var slots: map<nat, Slots>
    var labels: map<nat, nat>
    var parents: map<nat, nat>
    ghost var ledger: Ledger

    ghost function View(): Records
      reads this
    {
      Records(ledger, slots, labels, parents)
    }

    ghost predicate Valid()
      reads this, mem, freePages.Values
    {
      TreesOf(mem, freePages, ledger.trees) && Sound(View())
    }

    constructor (mem: Memory)
      ensures Valid() && this.mem == mem && freePages == map[]
    {
      this.mem := mem;
      freePages, slots, labels, parents, ledger := map[], map[], map[], map[], Ledger(map[], map[], map[]);
    }

    /** Takes the lowest run of `npages` pages from the tree of a container; all others stay. `l` is the ledger
        afterwards. */
    method Take(ct: nat, npages: nat, ghost l: Ledger) returns (ok: bool, page: nat)
      requires TreesOf(mem, freePages, ledger.trees) && ct in freePages && Apart(ledger.trees)
      requires SearchOrdered(ledger.trees[ct])
      requires Granted(ledger.trees[ct], npages).Some? ==>
        l.trees == ledger.trees[ct := Granted(ledger.trees[ct], npages).value]
      modifies this`ledger, freePages[ct], mem
      ensures freePages == old(freePages) && slots == old(slots) && labels == old(labels) && parents == old(parents)
      ensures ok <==> Granted(old(ledger.trees[ct]), npages).Some?
      ensures ok ==> LeastRun(Pages(old(ledger.trees[ct])), npages) == Some(page)
      ensures ok ==> ledger == l && TreesOf(mem, freePages, l.trees)
    {
      ok, page := TakeFrom(mem, freePages, ledger.trees, ct, npages);
      if ok {
        SetLedger(l);
      }
    }

    method SetLedger(ghost l: Ledger)
      requires TreesOf(mem, freePages, l.trees)
      modifies this`ledger
      ensures freePages == old(freePages) && slots == old(slots) && labels == old(labels) && parents == old(parents)
      ensures ledger == l && TreesOf(mem, freePages, l.trees)
    {
      ledger := l;
    }

    /** Makes a kernel object out of the lowest run of `npages` pages of a container. `ok` fails where the kernel
        stops. */
    method Obtain(ct: nat, npages: nat) returns (ok: bool, page: nat)
      requires Valid() && ct in freePages && npages > 0
      modifies this`ledger, freePages[ct], mem
      ensures freePages == old(freePages) && slots == old(slots) && labels == old(labels) && parents == old(parents)
      ensures ok <==> Obtained(old(ledger), ct, npages).Some?
      ensures ok ==> Valid() && Obtained(old(ledger), ct, npages) == Some(Grant(page, ledger))
      ensures ok ==> ledger.trees.Keys == old(ledger.trees.Keys)
    {
      ConsistentApart(ledger);
      ObtainedConsistent(ledger, ct, npages);
      assert GoodTree(ledger.trees[ct]);
      ghost var r := Obtained(ledger, ct, npages);
      ok, page := Take(ct, npages, if r.Some? then r.value.ledger else ledger);
    }

    /** Lists a new object in the container that it came from and writes its metadata. */
    method Enlist(ct: nat, x: nat, lb: Option<nat>, asChild: bool)
      requires Valid() && ct in slots
      modifies this`slots, this`labels, this`parents
      ensures freePages == old(freePages) && ledger == old(ledger)
      ensures Valid() && slots == Listed(old(slots), ct, x)
      ensures labels == if lb.Some? then old(labels)[x := lb.value] else old(labels)
      ensures parents == if asChild then old(parents)[x := ct] else old(parents)
    {
      SetMeta(slots[ct := Filled(slots[ct], x)], if lb.Some? then labels[x := lb.value] else labels,
              if asChild then parents[x := ct] else parents);
    }

    method SetMeta(s: map<nat, Slots>, l: map<nat, nat>, p: map<nat, nat>)
      requires TreesOf(mem, freePages, ledger.trees)
      modifies this`slots, this`labels, this`parents
      ensures freePages == old(freePages) && ledger == old(ledger) && slots == s && labels == l && parents == p
      ensures TreesOf(mem, freePages, ledger.trees)
    {
      slots, labels, parents := s, l, p;
    }

    /** A new thread and its label, out of the pages of `ct`. */
    method SpawnRaw(ct: nat, mayFlow: bool) returns (ok: bool, th: nat)
      requires Valid() && ct in freePages
      modifies this`ledger, this`slots, this`labels, this`parents, freePages[ct], mem
      ensures freePages == old(freePages)
      ensures ok <==> RecordsAfter(old(View()), SpawnIn(ct, mayFlow)).Some?
      ensures ok ==> Valid() && View() == RecordsAfter(old(View()), SpawnIn(ct, mayFlow)).value
    {
      th := 0;
      if ct !in labels || !mayFlow {
        return false, 0;
      }
      var lb;
      ghost var r := View();
      ok, lb := Obtain(ct, KOBJ_NPAGES);
      if !ok {
        return;
      }
      ghost var a := Grant(lb, ledger);
      SpawnIs(r, ct, mayFlow, a);
      Enlist(ct, lb, None, true);
      ok, th := Obtain(ct, THREAD_NPAGES);
      if !ok {
        return;
      }
      ghost var b := ledger;
      Enlist(ct, th, Some(lb), true);
      assert View() == Records(b, Listed(Listed(r.slots, ct, lb), ct, th), r.labels[th := lb],
                               r.parents[lb := ct][th := ct]);
    }

    /** Turns the object `page` into a container without free pages, with the label `lb`. */
    method Open(page: nat, lb: nat)
      requires Valid() && page in ledger.objects && page !in freePages
      modifies this
      ensures parents == old(parents) && labels == old(labels)[page := lb]
      ensures Valid() && ledger == Opened(old(ledger), page) && slots == old(slots)[page := []]
      ensures page in freePages && fresh(freePages[page]) && freePages == old(freePages)[page := freePages[page]]
    {
      OpenedConsistent(ledger, page);
      var node := NewTree(page);
      SetTree(page, node, lb);
    }

    method SetTree(page: nat, node: PageTree, lb: nat)
      requires TreesOf(mem, freePages[page := node], ledger.trees[page := Leaf])
      requires Consistent(Opened(ledger, page)) && slots.Keys == ledger.trees.Keys
      modifies this
      ensures parents == old(parents) && labels == old(labels)[page := lb]
      ensures Valid() && ledger == Opened(old(ledger), page)
      ensures freePages == old(freePages)[page := node] && slots == old(slots)[page := []]
    {
      SetAll(freePages[page := node], slots[page := []], labels[page := lb], parents, Opened(ledger, page));
    }

    method SetAll(nodes: map<nat, PageTree>, s: map<nat, Slots>, l: map<nat, nat>, p: map<nat, nat>, ghost books: Ledger)
      requires TreesOf(mem, nodes, books.trees)
      modifies this
      ensures freePages == nodes && slots == s && labels == l && parents == p && ledger == books
      ensures TreesOf(mem, freePages, ledger.trees)
    {
      freePages, slots, labels, parents, ledger := nodes, s, l, p, books;
    }

    method NewTree(page: nat) returns (node: PageTree)
      requires TreesOf(mem, freePages, ledger.trees)
      ensures fresh(node) && TreesOf(mem, freePages[page := node], ledger.trees[page := Leaf])
    {
      node := new PageTree(mem);
      OneTreeMore(mem, freePages, ledger.trees, page, node);
    }

    /** A new container and its label, out of the pages of `ct`. */
    method Create(ct: nat, mayFlow: bool) returns (ok: bool, newCt: nat)
      requires Valid() && ct in freePages
      modifies this, freePages[ct], mem
      ensures ok <==> RecordsAfter(old(View()), CreateIn(ct, mayFlow)).Some?
      ensures ok ==> Valid() && View() == RecordsAfter(old(View()), CreateIn(ct, mayFlow)).value
      ensures ok ==> newCt in freePages && fresh(freePages[newCt])
      ensures ok ==> freePages == old(freePages)[newCt := freePages[newCt]]
    {
      newCt := 0;
      if ct !in labels || !mayFlow {
        return false, 0;
      }
      var lb;
      ghost var r := View();
      ok, lb := Obtain(ct, KOBJ_NPAGES);
      if !ok {
        return;
      }
      ghost var a := Grant(lb, ledger);
      CreateIs(r, ct, mayFlow, a);
      Enlist(ct, lb, None, false);
      ghost var l := ledger;
      ok, newCt := Obtain(ct, KOBJ_NPAGES);
      if !ok {
        return;
      }
      ObtainedConsistent(l, ct, KOBJ_NPAGES);
      ghost var b := ledger;
      Enlist(ct, newCt, None, false);
      Open(newCt, lb);
      assert View() == Records(Opened(b, newCt), Listed(Listed(r.slots, ct, lb), ct, newCt)[newCt := []],
                               r.labels[newCt := lb], r.parents);
    }

    /** Puts pages that are in no tree into the tree of a container, lowest first. `l` is the ledger afterwards. */
    method Give(ct: nat, start: nat, npages: nat, ghost l: Ledger)
      requires TreesOf(mem, freePages, ledger.trees) && ct in freePages && Apart(l.trees)
      requires GoodTree(ledger.trees[ct]) && Pages(ledger.trees[ct]) !! Run(start, npages)
      requires l.trees == ledger.trees[ct := InsertAll(ledger.trees[ct], start, npages)]
      requires npages > 0 ==> 0 < start && start + npages <= PAGE_LIMIT
      modifies this`ledger, freePages[ct], mem
      ensures freePages == old(freePages) && slots == old(slots) && labels == old(labels) && parents == old(parents)
      ensures TreesOf(mem, freePages, ledger.trees) && ledger == l
    {
      GiveTo(mem, freePages, ledger.trees, ct, start, npages);
      SetLedger(l);
    }

    /** Moves the lowest run of `npages` pages from one container to another, or to itself. */
    method MovePages(ct1: nat, ct2: nat, npages: nat) returns (ok: bool)
      requires Valid() && ct1 in freePages && ct2 in freePages
      modifies this`ledger, freePages[ct1], freePages[ct2], mem
      ensures freePages == old(freePages) && slots == old(slots) && labels == old(labels) && parents == old(parents)
      ensures ok <==> Moved(old(ledger), ct1, ct2, npages).Some?
      ensures ok ==> Valid() && ledger == Moved(old(ledger), ct1, ct2, npages).value.ledger
    {
      ghost var l := ledger;
      ghost var r := Moved(l, ct1, ct2, npages);
      ConsistentApart(l);
      MovedConsistent(l, ct1, ct2, npages);
      MoveHalf(l, ct1, ct2, npages);
      var start;
      ok, start := Take(ct1, npages, Half(l, ct1, npages));
      if ok {
        Give(ct2, start, npages, r.value.ledger);
      }
    }

    /** The root container over the pages from `base` on, and the main thread. */
    method Boot(base: nat, npages: nat) returns (ok: bool, root: nat, th: nat)
      requires 0 < base && base + npages <= PAGE_LIMIT
      modifies this, mem
      ensures ok <==> npages >= 22
      ensures ok ==> Valid() && Booted(base, npages) == Some(View()) && freePages.Keys == {root}
      ensures ok ==> FreshlyBooted(View(), base, npages) && root == base + 2 && th == base + 6
    {
      th := 0;
      RootMadeIff(base, npages);
      ok, root := MakeRoot(base, npages);
      if ok {
        BootGoesOn(base, npages, root, View());
        ok, th := MainThread(root);
      }
    }

    /** The main thread and its label. */
    method MainThread(root: nat) returns (ok: bool, th: nat)
      requires Valid() && root in freePages && root in labels
      modifies this`ledger, this`slots, this`labels, this`parents, freePages[root], mem
      ensures freePages == old(freePages)
      ensures ok <==> WithThread(old(View()), root).Some?
      ensures ok ==> Valid() && WithThread(old(View()), root) == Some((th, View()))
    {
      th := 0;
      ghost var r := View();
      var lb;
      ok, lb := Obtain(root, KOBJ_NPAGES);
      if !ok {
        return;
      }
      ghost var a := Grant(lb, ledger);
      ThreadIs(r, root, a);
      Enlist(root, lb, None, false);
      ok, th := Obtain(root, THREAD_NPAGES);
      if !ok {
        return;
      }
      ghost var b := ledger;
      Enlist(root, th, Some(lb), false);
      assert View() == Records(b, Listed(Listed(r.slots, root, lb), root, th), r.labels[th := lb], r.parents);
    }

    /** The label and the root container alone. */
    method MakeRoot(base: nat, npages: nat) returns (ok: bool, root: nat)
      requires 0 < base && base + npages <= PAGE_LIMIT
      modifies this, mem
      ensures ok <==> RootMade(base, npages).Some?
      ensures ok ==> Valid() && RootMade(base, npages) == Some((root, View()))
      ensures ok ==> freePages.Keys == {root} && fresh(freePages[root])
    {
      var lb, node;
      ok, lb, root, node := BootTree(base, npages);
      if ok {
        SetRoot(root, lb, node, RootMade(base, npages).value.1);
      }
    }

    /** The tree of all pages, without those of the first label and of the root container. */
    method BootTree(base: nat, npages: nat) returns (ok: bool, lb: nat, root: nat, node: PageTree)
      requires 0 < base && base + npages <= PAGE_LIMIT
      modifies mem
      ensures fresh(node)
      ensures ok <==> RootMade(base, npages).Some?
      ensures ok ==>
        var (ct, r) := RootMade(base, npages).value;
        && root == ct && r.labels == map[ct := lb] && r.parents == map[lb := ct]
        && r.ledger.trees.Keys == {ct} && TreeOf(mem, node, r.ledger.trees[ct])
    {
      lb, root := 0, 0;
      node := new PageTree(mem);
      node.Init(base, npages);
      assert node.tree == AllPages(base, npages);
      ok, lb := MustGet(node, KOBJ_NPAGES);
      if !ok {
        return;
      }
      RootMadeIs(base, npages, lb, node.tree);
      ok, root := MustGet(node, KOBJ_NPAGES);
    }

    method SetRoot(root: nat, lb: nat, node: PageTree, ghost r: Records)
      requires Sound(r) && r.slots == map[root := []] && r.labels == map[root := lb] && r.parents == map[lb := root]
      requires root in r.ledger.trees && r.ledger.trees.Keys == {root} && TreeOf(mem, node, r.ledger.trees[root])
      modifies this
      ensures Valid() && View() == r && freePages == map[root := node]
    {
      SetAll(map[root := node], map[root := []], map[root := lb], map[lb := root], r.ledger);
    }

    /** The step that moves pages; one that names something other than containers stops the kernel. */
    method MoveStep(ct1: nat, ct2: nat, npages: nat) returns (ok: bool)
      requires Valid()
      modifies this`ledger, freePages.Values, mem
      ensures freePages == old(freePages)
      ensures ok <==> RecordsAfter(old(View()), Move(ct1, ct2, npages)).Some?
      ensures ok ==> Valid() && View() == RecordsAfter(old(View()), Move(ct1, ct2, npages)).value
    {
      ok := false;
      if ct1 in freePages && ct2 in freePages {
        ok := MovePages(ct1, ct2, npages);
      }
    }

    /** A step that names containers; one that names something else stops the kernel. */
    method Execute(step: Step) returns (ok: bool)
      requires Valid()
      modifies this, mem, freePages.Values
      ensures ok <==> RecordsAfter(old(View()), step).Some?
      ensures ok ==> Valid() && View() == RecordsAfter(old(View()), step).value
      ensures ok ==> forall c :: c in freePages ==> freePages[c] in old(freePages.Values) || fresh(freePages[c])
    {
      ok := false;
      match step {
        case CreateIn(ct, mayFlow) =>
          if ct in freePages {
            var newCt;
            ok, newCt := Create(ct, mayFlow);
          }
        case SpawnIn(ct, mayFlow) =>
          if ct in freePages {
            var th;
            ok, th := SpawnRaw(ct, mayFlow);
          }
        case Move(ct1, ct2, npages) =>
          ok := MoveStep(ct1, ct2, npages);
      }
    }

    /** A run of steps; it stops at the first one that stops the kernel. */
    method RunSteps(steps: seq<Step>) returns (ok: bool)
      requires Valid()
      modifies this, mem, freePages.Values
      ensures ok <==> RecordsAfterAll(old(View()), steps).Some?
      ensures ok ==> Valid() && View() == RecordsAfterAll(old(View()), steps).value
    {
      ghost var r := View();
      ok := true;
      for i := 0 to |steps|
        invariant ok && Valid() && RecordsAfterAll(r, steps[..i]) == Some(View())
        invariant forall c :: c in freePages ==> freePages[c] in old(freePages.Values) || fresh(freePages[c])
      {
        RecordsAfterNext(r, steps, i);
        ok := Execute(steps[i]);
        if !ok {
          StaysStopped(r, steps, i + 1);
          return;
        }
      }
      assert steps[..|steps|] == steps;
    }
  }
}
