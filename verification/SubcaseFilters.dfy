/** doctest's runs with filters on the names of subcases, applied on the first so many levels: when they
    do no more than prune the tree, and what happens otherwise. */
module SubcaseFilters {
  import opened Subcases

  // ----- the tree that is left

  /** The tree without the subcases that are filtered out at their level, the first of which is d. */
  function Prune(f: Filters, b: Body, d: nat): Body {
    match b
    case Done => Done
    case Meet(sig, inside, rest) =>
      if f.Stops(sig, d) then Prune(f, rest, d) else Meet(sig, Prune(f, inside, d + 1), Prune(f, rest, d))
  }

  /** After a leaf so deep that the filters do not apply, the first subcase still to come at level d is one
      that they stop. */
  predicate Astray(f: Filters, b: Body, d: nat, leaf: nat) {
    b.Meet? && leaf >= f.levels && f.Stops(b.sig, d)
  }

  /** On the way back from leaf i of the pruned tree, no subcase that is filtered out becomes the goal. */
  predicate Clear(f: Filters, b: Body, d: nat, i: nat) {
    match b
    case Done => true
    case Meet(sig, inside, rest) =>
      if f.Stops(sig, d) then Clear(f, rest, d, i)
      else
        var ps := Paths(Prune(f, inside, d + 1));
        if i >= |ps| then Clear(f, rest, d, i - |ps|)
        else Clear(f, inside, d + 1, i) && (i == |ps| - 1 ==> !Astray(f, rest, d, d + 1 + |ps[i]|))
  }

  predicate AllClear(f: Filters, b: Body) {
    forall i :: 0 <= i < |Paths(Prune(f, b, 0))| ==> Clear(f, b, 0, i)
  }

  // ----- one run

  /** A run of the code b with filters, whatever the state. */
  function Sift(f: Filters, v: View, b: Body): (r: Outcome)
    ensures r.Through? ==> r.v.currentSubcaseDepth == v.currentSubcaseDepth && v.subcaseStack <= r.v.subcaseStack
    ensures r.Through? ==> v.events <= r.v.events && (v.reachedLeaf ==> r.v.reachedLeaf)
    decreases b
  {
    match b
    case Done => Through(v)
    case Meet(sig, inside, rest) =>
      if !v.InBounds() then OutOfRange
      else if v.Lets(f, sig) then
        match Sift(f, v.Entered(sig), inside)
        case OutOfRange => OutOfRange
        case Through(w) => Sift(f, w.Left(), rest)
      else Sift(f, v.Held(f, sig), rest)
  }

  /** Runs the code b, from any state. */
  method Execute(g: ContextState, f: Filters, b: Body) returns (ok: bool)
    modifies g
    ensures ok <==> Sift(f, old(g.Now()), b).Through?
    ensures ok ==> g.Now() == Sift(f, old(g.Now()), b).v
    decreases b
  {
    if b.Done? {
      return true;
    }
    if g.reachedLeaf && g.currentSubcaseDepth >= |g.subcaseStack| {
      return false;
    }
    var sub := new Subcase(g, b.sig, f);
    if sub.entered {
      ok := Execute(g, f, b.inside);
      if !ok {
        return;
      }
    }
    sub.Destroy(g);
    ok := Execute(g, f, b.rest);
  }

  /** Without filters. */
  lemma {:induction false} NothingSifted(f: Filters, v: View, b: Body)
    requires f.levels == 0
    ensures Sift(f, v, b) == Go(v, b) && Prune(f, b, 0) == b
    decreases b
  {
    PrunesNothing(f, b, 0);
    if b.Done? || !v.InBounds() {
    } else if v.Enters(b.sig) {
      NothingSifted(f, v.Entered(b.sig), b.inside);
      if Go(v.Entered(b.sig), b.inside).Through? {
        NothingSifted(f, Go(v.Entered(b.sig), b.inside).v.Left(), b.rest);
      }
    } else {
      NothingSifted(f, v.NotEntered(b.sig), b.rest);
    }
  }

  lemma {:induction false} PrunesNothing(f: Filters, b: Body, d: nat)
    requires f.levels == 0
    ensures Prune(f, b, d) == b
  {
    if b.Done? {
    } else {
      PrunesNothing(f, b.inside, d + 1);
      PrunesNothing(f, b.rest, d);
    }
  }

  // ----- a run that is not led astray

  /** Back from a leaf, nothing filtered out will be noted: there is a goal, or the filters still apply. */
  predicate Calm(f: Filters, v: View, b: Body, d: nat) {
    v.reachedLeaf && v.nextSubcaseStack == [] ==> !Astray(f, b, d, |v.subcaseStack|)
  }

  /** A subcase that is filtered out leaves no trace. */
  lemma StoppedIsPassed(f: Filters, v: View, s: Path, b: Body, p: Path)
    requires b.Meet? && f.Stops(b.sig, |s|) && Calm(f, v, b, |s|)
    requires if v.reachedLeaf then Ascending(v, s, Prune(f, b, |s|), p) && !f.Stops(p[0], |s|)
             else v.subcaseStack == s
    ensures v.InBounds() && Sift(f, v, b) == Sift(f, v, b.rest) && Calm(f, v, b.rest, |s|)
  {
    hide Sift;
    if v.reachedLeaf {
      assert v.subcaseStack[|s|] == p[0];
    }
    SiftStep(f, v, b);
    assert v.Held(f, b.sig) == v;
  }

  lemma SiftStep(f: Filters, v: View, b: Body)
    requires b.Meet? && v.InBounds()
    ensures Sift(f, v, b) ==
      if v.Lets(f, b.sig) then
        match Sift(f, v.Entered(b.sig), b.inside)
        case OutOfRange => OutOfRange
        case Through(w) => Sift(f, w.Left(), b.rest)
      else Sift(f, v.Held(f, b.sig), b.rest)
  {
  }

  lemma GoStep(v: View, b: Body)
    requires b.Meet? && v.InBounds()
    ensures Go(v, b) ==
      if v.Enters(b.sig) then
        match Go(v.Entered(b.sig), b.inside)
        case OutOfRange => OutOfRange
        case Through(w) => Go(w.Left(), b.rest)
      else Go(v.NotEntered(b.sig), b.rest)
  {
  }

  lemma {:induction false} SiftIsGo(f: Filters, v: View, s: Path, b: Body, n: Path, i: nat, p: Path)
    requires Ready(v, s, Prune(f, b, |s|), n, i, p) && Calm(f, v, b, |s|)
    requires if v.reachedLeaf then !f.Stops(p[0], |s|) else Clear(f, b, |s|, i)
    ensures Sift(f, v, b) == Go(v, Prune(f, b, |s|))
    decreases b
  {
    hide Sift, Go, Inside, Visited, AimsNext, Paths, Aims, Unseen, Distinct;
    var d, q := |s|, Prune(f, b, |s|);
    if b.Done? {
      NothingToDo(f, v);
    } else if f.Stops(b.sig, d) {
      StoppedIsPassed(f, v, s, b, p);
      SiftIsGo(f, v, s, b.rest, n, i, p);
    } else if v.reachedLeaf {
      SkipAfter(v, s, q, p);
      DistinctParts(q);
      SiftStep(f, v, b);
      GoStep(v, q);
      assert v.Held(f, b.sig) == v.NotEntered(b.sig);
      SiftIsGo(f, v.NotEntered(b.sig), s, b.rest, n, 0, p);
    } else if n == [] || n[0] == b.sig {
      var m := if n == [] then [] else n[1..];
      EnterInside(v, s, q, n, i);
      DistinctParts(q);
      ClearInside(f, b, d, i);
      SiftIsGo(f, v.Entered(b.sig), s + [b.sig], b.inside, m, i, p);
      RunDown(v.Entered(b.sig), s + [b.sig], q.inside, m, i, p);
      var w := Go(v.Entered(b.sig), q.inside).v;
      LeaveFirst(v, w, s, q, n, i);
      StaysCalm(f, v, w.Left(), s, b, i);
      SiftStep(f, v, b);
      GoStep(v, q);
      SiftIsGo(f, w.Left(), s, b.rest, n, 0, Paths(q)[i]);
    } else {
      SkipBefore(v, s, q, n, i);
      DistinctParts(q);
      SiftStep(f, v, b);
      GoStep(v, q);
      assert !v.Enters(b.sig) && v.Held(f, b.sig) == v == v.NotEntered(b.sig);
      SiftIsGo(f, v, s, b.rest, n, i - |Paths(q.inside)|, p);
    }
  }

  lemma PathAfter(b: Body, i: nat)
    requires b.Meet? && b.rest.Meet? && |Paths(b.inside)| <= i < |Paths(b)|
    ensures i - |Paths(b.inside)| < |Paths(b.rest)| && Paths(b)[i] == Paths(b.rest)[i - |Paths(b.inside)|]
  {
  }

  lemma ClearInside(f: Filters, b: Body, d: nat, i: nat)
    requires b.Meet? && !f.Stops(b.sig, d) && Clear(f, b, d, i) && i < |Paths(Prune(f, b.inside, d + 1))|
    ensures Clear(f, b.inside, d + 1, i)
  {
  }

  /** Back at the level of s, after the first subcase with leaf i in it. */
  lemma LeaveFirst(v: View, w: View, s: Path, t: Body, n: Path, i: nat)
    requires t.Meet? && Descending(v, s, t, n, i) && i < |Paths(t.inside)| && Distinct(t)
    requires Ran(v.Entered(t.sig), w, s + [t.sig], t.inside, i) && w.currentSubcaseDepth == |s| + 1
    ensures i < |Paths(t)| && Paths(t)[i] == [t.sig] + Paths(t.inside)[i]
    ensures Inside(v, w.Left(), s, t, i) && Ascending(w.Left(), s, t.rest, Paths(t)[i])
  {
    hide Visited, Visit, Aims, Unseen, Distinct;
    PathInside(t, i);
    if t.inside.Done? {
      LeaveLeaf(v, s, t, i);
    } else {
      LeaveNode(v, w, s, t, i);
    }
    InsideThenRest(v, w.Left(), s, t, n, i);
  }

  lemma StaysCalm(f: Filters, v: View, w: View, s: Path, b: Body, i: nat)
    requires b.Meet? && !f.Stops(b.sig, |s|) && Clear(f, b, |s|, i) && i < |Paths(Prune(f, b.inside, |s| + 1))|
    requires Inside(v, w, s, Prune(f, b, |s|), i)
    ensures Calm(f, w, b.rest, |s|)
  {
    hide Visit;
    PathInside(Prune(f, b, |s|), i);
  }

  lemma DistinctParts(b: Body)
    requires b.Meet? && Distinct(b)
    ensures !Among(b.sig, b.rest) && Distinct(b.inside) && Distinct(b.rest)
  {
  }

  lemma NothingToDo(f: Filters, v: View)
    ensures Sift(f, v, Done) == Through(v) == Go(v, Done)
  {
  }

  // ----- a run that is led astray

  /** Back from a leaf with a goal left, nothing changes any more. */
  lemma {:induction false} BackKeeps(f: Filters, v: View, s: Path, b: Body, p: Path)
    requires v.reachedLeaf && p != [] && v.subcaseStack == s + p && v.currentSubcaseDepth == |s|
    requires !Among(p[0], Prune(f, b, |s|)) && !f.Stops(p[0], |s|) && |v.nextSubcaseStack| > |s|
    ensures Sift(f, v, b) == Through(v)
    decreases b
  {
    hide Sift;
    if b.Done? {
      NothingToDo(f, v);
    } else {
      SiftStep(f, v, b);
      assert v.subcaseStack[|s|] == p[0];
      BackKeeps(f, v, s, b.rest, p);
    }
  }

  /** Back from a leaf nothing is entered. */
  lemma {:induction false} BackQuiet(f: Filters, v: View, s: Path, b: Body, p: Path)
    requires v.reachedLeaf && p != [] && v.subcaseStack == s + p && v.currentSubcaseDepth == |s|
    requires !Among(p[0], Prune(f, b, |s|)) && !f.Stops(p[0], |s|)
    ensures var r := Sift(f, v, b);
      r.Through? && r.v.events == v.events && r.v.reachedLeaf && r.v.subcaseStack == v.subcaseStack
    decreases b
  {
    hide Sift;
    if b.Done? {
      NothingToDo(f, v);
    } else {
      SiftStep(f, v, b);
      assert v.subcaseStack[|s|] == p[0];
      BackQuiet(f, v.Held(f, b.sig), s, b.rest, p);
    }
  }

  /** No path in the set runs through a subcase that is filtered out. */
  predicate Kept(f: Filters, seen: set<Path>) {
    forall p, j :: p in seen && 0 <= j < |p| ==> !f.Stops(p[j], j)
  }

  /** From the level of s the goal leads down the path q, on the way to leaf i, and then to a subcase that
      is filtered out. */
  predicate LedAstray(f: Filters, w: View, s: Path, leaf: Path, q: Path, lost: Signature) {
    w.nextSubcaseStack == s + (q + [lost]) && f.Stops(lost, |s| + |q|) && q < leaf
  }

  /** The leaf was inside; the goal left behind is kept. */
  lemma BackLost(f: Filters, v: View, s: Path, b: Body, i: nat, below: Path, lost: Signature)
    requires b.Meet? && !f.Stops(b.sig, |s|) && v.InBounds() && v.Lets(f, b.sig)
    requires v.subcaseStack == s && !v.reachedLeaf && v.currentSubcaseDepth == |s|
    requires !Among(b.sig, Prune(f, b.rest, |s|)) && i < |Paths(Prune(f, b.inside, |s| + 1))|
    requires var r, leaf := Sift(f, v.Entered(b.sig), b.inside), Paths(Prune(f, b.inside, |s| + 1))[i];
      && r.Through? && r.v.reachedLeaf && r.v.events == v.Entered(b.sig).events + Visit(leaf)
      && r.v.subcaseStack == s + [b.sig] + leaf && r.v.currentSubcaseDepth == |s| + 1
      && LedAstray(f, r.v, s + [b.sig], leaf, below, lost)
    ensures i < |Paths(Prune(f, b, |s|))|
    ensures var r, leaf := Sift(f, v, b), Paths(Prune(f, b, |s|))[i];
      && r.Through? && r.v.reachedLeaf && r.v.events == v.events + Visit(leaf)
      && r.v.subcaseStack == s + leaf && r.v.currentSubcaseDepth == |s|
      && LedAstray(f, r.v, s, leaf, [b.sig] + below, lost)
  {
    hide Sift, Paths, Visit;
    var t := Prune(f, b, |s|);
    PathInside(t, i);
    var w, leaf := Sift(f, v.Entered(b.sig), b.inside).v, Paths(t.inside)[i];
    assert s + [b.sig] + leaf == s + ([b.sig] + leaf);
    assert s + [b.sig] + (below + [lost]) == s + ([b.sig] + below + [lost]);
    assert w.Left().events == v.events + ([SubcaseStart(b.sig)] + Visit(leaf) + [SubcaseEnd]);
    SiftStep(f, v, b);
    BackKeeps(f, w.Left(), s, b.rest, Paths(t)[i]);
  }

  /** The leaf was the last inside; the next subcase is noted though it is filtered out. */
  lemma NotesFiltered(f: Filters, v: View, s: Path, b: Body, n: Path, i: nat)
    requires b.Meet? && !f.Stops(b.sig, |s|) && (n == [] || n[0] == b.sig)
    requires Descending(v, s, Prune(f, b, |s|), n, i) && Distinct(Prune(f, b, |s|))
    requires i < |Paths(Prune(f, b.inside, |s| + 1))| && !Clear(f, b, |s|, i) && Clear(f, b.inside, |s| + 1, i)
    requires Kept(f, v.fullyTraversedSubcases)
    ensures i < |Paths(Prune(f, b, |s|))| && b.rest.Meet?
    ensures var r, leaf := Sift(f, v, b), Paths(Prune(f, b, |s|))[i];
      && r.Through? && r.v.reachedLeaf && r.v.events == v.events + Visit(leaf)
      && r.v.subcaseStack == s + leaf && r.v.currentSubcaseDepth == |s|
      && LedAstray(f, r.v, s, leaf, [], b.rest.sig)
  {
    hide Sift, Go, Visited, Paths, Aims, Unseen, Visit;
    var t, m := Prune(f, b, |s|), if n == [] then [] else n[1..];
    EnterInside(v, s, t, n, i);
    DistinctParts(t);
    PathInside(t, i);
    SiftIsGo(f, v.Entered(b.sig), s + [b.sig], b.inside, m, i, []);
    RunDown(v.Entered(b.sig), s + [b.sig], t.inside, m, i, []);
    var w, leaf := Go(v.Entered(b.sig), t.inside).v, Paths(t)[i];
    LeaveFirst(v, w, s, t, n, i);
    SiftStep(f, v, b);
    var x := w.Left();
    GoalIsFiltered(f, v, x, s, b.rest, leaf);
    SiftStep(f, x, b.rest);
    BackKeeps(f, x.Held(f, b.rest.sig), s, b.rest.rest, leaf);
  }

  lemma GoalIsFiltered(f: Filters, v: View, x: View, s: Path, b: Body, leaf: Path)
    requires b.Meet? && f.Stops(b.sig, |s|) && |s + leaf| >= f.levels && leaf != [] && !f.Stops(leaf[0], |s|)
    requires x.reachedLeaf && x.nextSubcaseStack == [] && x.subcaseStack == s + leaf && x.currentSubcaseDepth == |s|
    requires x.fullyTraversedSubcases == v.fullyTraversedSubcases + {s + leaf} && Kept(f, v.fullyTraversedSubcases)
    ensures !x.Lets(f, b.sig) && x.Held(f, b.sig) == x.(nextSubcaseStack := s + [b.sig])
  {
    assert x.subcaseStack[|s|] == leaf[0] && x.subcaseStack[..|s|] == s;
    assert (s + [b.sig])[|s|] == b.sig;
  }

  /** If the way back is not clear, the run tells of its leaf, but the goal left behind cannot be reached. */
  lemma {:induction false} Strays(f: Filters, v: View, s: Path, b: Body, n: Path, i: nat)
    returns (q: Path, lost: Signature)
    requires Descending(v, s, Prune(f, b, |s|), n, i) && Distinct(Prune(f, b, |s|))
    requires i < |Paths(Prune(f, b, |s|))| && !Clear(f, b, |s|, i)
    requires Kept(f, v.fullyTraversedSubcases) && forall j :: 0 <= j < |s| ==> !f.Stops(s[j], j)
    ensures var r, leaf := Sift(f, v, b), Paths(Prune(f, b, |s|))[i];
      && r.Through? && r.v.reachedLeaf && r.v.events == v.events + Visit(leaf)
      && r.v.subcaseStack == s + leaf && r.v.currentSubcaseDepth == |s|
      && LedAstray(f, r.v, s, leaf, q, lost)
    decreases b
  {
    hide Sift, Go, Inside, Visited, AimsNext, Paths, Aims, Unseen, Distinct, Visit, Kept;
    var d, t := |s|, Prune(f, b, |s|);
    if f.Stops(b.sig, d) {
      StoppedIsPassed(f, v, s, b, []);
      q, lost := Strays(f, v, s, b.rest, n, i);
    } else if n == [] || n[0] == b.sig {
      EnterInside(v, s, t, n, i);
      DistinctParts(t);
      if Clear(f, b.inside, d + 1, i) {
        q, lost := [], b.rest.sig;
        NotesFiltered(f, v, s, b, n, i);
      } else {
        var below;
        below, lost := Strays(f, v.Entered(b.sig), s + [b.sig], b.inside, if n == [] then [] else n[1..], i);
        q := [b.sig] + below;
        BackLost(f, v, s, b, i, below, lost);
      }
    } else {
      SkipBefore(v, s, t, n, i);
      DistinctParts(t);
      PathAfter(t, i);
      SiftStep(f, v, b);
      assert !v.Enters(b.sig) && v.Held(f, b.sig) == v;
      q, lost := Strays(f, v, s, b.rest, n, i - |Paths(t.inside)|);
    }
  }

  /** The path runs through subcases that are not filtered out. */
  predicate OnPath(f: Filters, b: Body, d: nat, q: Path) {
    q == [] ||
    (b.Meet? && if b.sig == q[0] && !f.Stops(b.sig, d) then OnPath(f, b.inside, d + 1, q[1..])
                else OnPath(f, b.rest, d, q))
  }

  lemma {:induction false} LeafOnPath(f: Filters, b: Body, d: nat, i: nat, q: Path)
    requires Distinct(Prune(f, b, d)) && i < |Paths(Prune(f, b, d))| && q <= Paths(Prune(f, b, d))[i]
    ensures OnPath(f, b, d, q) && (q != [] ==> !f.Stops(q[0], d) && Among(q[0], Prune(f, b, d)))
    decreases b
  {
    hide Paths, Distinct;
    var t := Prune(f, b, d);
    if q == [] {
    } else if b.Done? {
      LeafOfDone(i);
    } else if f.Stops(b.sig, d) {
      LeafOnPath(f, b.rest, d, i, q);
    } else {
      DistinctParts(t);
      if i < |Paths(t.inside)| {
        PathInside(t, i);
        LeafOnPath(f, b.inside, d + 1, i, q[1..]);
      } else {
        LastInRest(t, i);
        PathAfter(t, i);
        LeafOnPath(f, b.rest, d, i - |Paths(t.inside)|, q);
      }
    }
  }

  lemma LeafOfDone(i: nat)
    requires i < |Paths(Done)|
    ensures Paths(Done)[i] == []
  {
  }

  lemma LastInRest(b: Body, i: nat)
    requires b.Meet? && |Paths(b.inside)| <= i < |Paths(b)|
    ensures b.rest.Meet?
  {
  }

  /** A run towards a goal that is filtered out ends at the node above it. */
  lemma {:induction false} LostRun(f: Filters, v: View, s: Path, b: Body, q: Path, lost: Signature)
    requires !v.reachedLeaf && v.subcaseStack == s && v.currentSubcaseDepth == |s|
    requires v.nextSubcaseStack == s + (q + [lost]) && f.Stops(lost, |s| + |q|)
    requires OnPath(f, b, |s|, q) && Distinct(Prune(f, b, |s|))
    ensures var r := Sift(f, v, b);
      && r.Through? && r.v.events == v.events + Visit(q)
      && if q == [] then r.v == v
         else r.v.reachedLeaf && r.v.subcaseStack == s + q && r.v.currentSubcaseDepth == |s|
    decreases b
  {
    hide Sift, Distinct, Visit;
    assert v.nextSubcaseStack[|s|] == (q + [lost])[0];
    if b.Done? {
      NothingToDo(f, v);
      NoVisit();
    } else if q != [] && b.sig == q[0] && !f.Stops(b.sig, |s|) {
      DistinctParts(Prune(f, b, |s|));
      var w := v.Entered(b.sig);
      assert s + (q + [lost]) == (s + [b.sig]) + (q[1..] + [lost]);
      LostRun(f, w, s + [b.sig], b.inside, q[1..], lost);
      SiftStep(f, v, b);
      var x := Sift(f, w, b.inside).v;
      LostBack(v, x, s, q);
      BackQuiet(f, x.Left(), s, b.rest, q);
    } else {
      NoVisit();
      DistinctRest(f, b, |s|);
      SiftStep(f, v, b);
      LostRun(f, v, s, b.rest, q, lost);
    }
  }

  lemma NoVisit()
    ensures Visit([]) == []
  {
  }

  lemma DistinctRest(f: Filters, b: Body, d: nat)
    requires b.Meet? && Distinct(Prune(f, b, d))
    ensures Distinct(Prune(f, b.rest, d))
  {
  }

  lemma LostBack(v: View, x: View, s: Path, q: Path)
    requires q != [] && v.subcaseStack == s && !v.reachedLeaf && v.currentSubcaseDepth == |s|
    requires x.events == v.Entered(q[0]).events + Visit(q[1..]) && x.currentSubcaseDepth == |s| + 1
    requires if q[1..] == [] then x == v.Entered(q[0]) else x.reachedLeaf && x.subcaseStack == s + [q[0]] + q[1..]
    ensures x.Left().reachedLeaf && x.Left().subcaseStack == s + q && x.Left().currentSubcaseDepth == |s|
    ensures x.Left().events == v.events + Visit(q)
  {
    hide Visit;
    assert q == [q[0]] + q[1..];
    assert s + [q[0]] + q[1..] == s + q;
    VisitStep(q);
  }

  lemma VisitStep(q: Path)
    requires q != []
    ensures Visit(q) == [SubcaseStart(q[0])] + Visit(q[1..]) + [SubcaseEnd]
  {
  }

  // ----- the loop over the runs

  function SiftLoops(f: Filters, v: View, b: Body, k: nat): Loop {
    if k == 0 then Going(v)
    else
      match SiftLoops(f, v, b, k - 1)
      case Failed => Failed
      case Stopped(w, runs) => Stopped(w, runs)
      case Going(w) =>
        match Sift(f, w.Reset(), b)
        case OutOfRange => Failed
        case Through(x) => if x.nextSubcaseStack == [] then Stopped(x.Told(CaseEnd), k) else Going(x.Told(CaseReenter))
  }

  lemma NoRuns(f: Filters, v: View, b: Body)
    ensures SiftLoops(f, v, b, 0) == Going(v)
  {
  }

  lemma SiftNext(f: Filters, v: View, b: Body, k: nat)
    requires SiftLoops(f, v, b, k).Going?
    ensures SiftLoops(f, v, b, k + 1) ==
      match Sift(f, SiftLoops(f, v, b, k).v.Reset(), b)
      case OutOfRange => Failed
      case Through(x) =>
        if x.nextSubcaseStack == [] then Stopped(x.Told(CaseEnd), k + 1) else Going(x.Told(CaseReenter))
  {
  }

  /** A test case with filters after at most k runs. */
  function SiftCase(f: Filters, v: View, b: Body, k: nat): Loop {
    SiftLoops(f, v.(fullyTraversedSubcases := {}).Told(CaseStart), b, k)
  }

  lemma {:induction false} SiftSettled(f: Filters, v: View, b: Body, j: nat, k: nat)
    requires j <= k
    ensures !SiftLoops(f, v, b, j).Going? ==> SiftLoops(f, v, b, k) == SiftLoops(f, v, b, j)
    ensures !SiftLoops(f, v, b, k).Failed? ==> !SiftLoops(f, v, b, j).Failed?
    ensures !SiftLoops(f, v, b, k).Failed? ==> SiftLoops(f, v, b, j).v.events <= SiftLoops(f, v, b, k).v.events
    decreases k
  {
    if j == k {
    } else {
      SiftSettled(f, v, b, j, k - 1);
    }
  }

  /** As long as the way back is clear, the loop does what it does without filters for the pruned tree. */
  lemma {:induction false} SiftSame(f: Filters, v: View, b: Body, k: nat)
    requires Distinct(Prune(f, b, 0)) && v.nextSubcaseStack == [] && v.fullyTraversedSubcases == {}
    requires k <= |Paths(Prune(f, b, 0))| && forall j :: 0 <= j < k ==> Clear(f, b, 0, j)
    ensures SiftLoops(f, v, b, k) == Loops(v, Prune(f, b, 0), k)
  {
    hide Go, Sift, Paths, Aims, Firsts, BeforeRun, Distinct, Clear, Prune;
    if k == 0 {
    } else {
      var t := Prune(f, b, 0);
      SiftSame(f, v, b, k - 1);
      DistinctLoop(v, t, k - 1);
      SiftRun(f, Loops(v, t, k - 1).v, b, k - 1);
    }
  }

  lemma SiftRun(f: Filters, w: View, b: Body, i: nat)
    requires var t := Prune(f, b, 0);
      && Distinct(t) && i < |Paths(t)| && Clear(f, b, 0, i)
      && Aims(t, w.nextSubcaseStack, i) && w.fullyTraversedSubcases == Firsts(t, i)
    ensures Sift(f, w.Reset(), b) == Go(w.Reset(), Prune(f, b, 0))
  {
    hide Go, Sift, Paths, Aims, Unseen, Firsts, Distinct, Clear, Prune;
    var t := Prune(f, b, 0);
    FirstsUnseen(t, i);
    assert [] + w.nextSubcaseStack == w.nextSubcaseStack;
    SiftIsGo(f, w.Reset(), [], b, w.nextSubcaseStack, i, []);
  }

  /** One run for each leaf of the pruned tree, and no goal is left for the next test case. */
  lemma SiftedCase(f: Filters, v: View, b: Body, limit: nat)
    requires Distinct(Prune(f, b, 0)) && AllClear(f, b) && v.nextSubcaseStack == []
    ensures var l, t := SiftCase(f, v, b, limit), Prune(f, b, 0);
      limit >= |Paths(t)| ==>
        l.Stopped? && l.runs == |Paths(t)| && l.v.nextSubcaseStack == [] && l.v.events == v.events + Trace(t)
  {
    hide Distinct, Clear, Prune, Paths, SiftLoops, Loops, Trace;
    var t, w := Prune(f, b, 0), v.(fullyTraversedSubcases := {}).Told(CaseStart);
    if limit >= |Paths(t)| {
      SiftSame(f, w, b, |Paths(t)|);
      DistinctCase(v, t, |Paths(t)|);
      SiftSettled(f, w, b, |Paths(t)|, limit);
    }
  }

  lemma {:induction false} LeafKept(f: Filters, b: Body, d: nat, i: nat)
    requires i < |Paths(Prune(f, b, d))|
    ensures forall j :: 0 <= j < |Paths(Prune(f, b, d))[i]| ==> !f.Stops(Paths(Prune(f, b, d))[i][j], d + j)
    decreases b
  {
    hide Paths;
    var t := Prune(f, b, d);
    if b.Done? {
      LeafOfDone(i);
    } else if f.Stops(b.sig, d) {
      LeafKept(f, b.rest, d, i);
    } else if i < |Paths(t.inside)| {
      PathInside(t, i);
      LeafKept(f, b.inside, d + 1, i);
    } else {
      LastInRest(t, i);
      PathAfter(t, i);
      LeafKept(f, b.rest, d, i - |Paths(t.inside)|);
    }
  }

  lemma FirstsKept(f: Filters, b: Body, i: nat)
    requires i <= |Paths(Prune(f, b, 0))|
    ensures Kept(f, Firsts(Prune(f, b, 0), i))
  {
    hide Paths, Prune;
    var t := Prune(f, b, 0);
    forall p, j | p in Firsts(t, i) && 0 <= j < |p|
      ensures !f.Stops(p[j], j)
    {
      var k: nat :| k < i && Paths(t)[k] == p;
      LeafKept(f, b, 0, k);
    }
  }

  /** The first leaf from which the way back is not clear: the loop goes on, and its next run ends at a node
      above that leaf. */
  lemma LoopStrays(f: Filters, v: View, b: Body, i: nat) returns (q: Path, c: Event)
    requires Distinct(Prune(f, b, 0)) && v.nextSubcaseStack == [] && v.fullyTraversedSubcases == {}
    requires i < |Paths(Prune(f, b, 0))| && !Clear(f, b, 0, i) && forall j :: 0 <= j < i ==> Clear(f, b, 0, j)
    ensures SiftLoops(f, v, b, i + 1).Going? && !SiftLoops(f, v, b, i + 2).Failed?
    ensures var t := Prune(f, b, 0);
      && q < Paths(t)[i] && c in {CaseEnd, CaseReenter}
      && SiftLoops(f, v, b, i + 2).v.events == v.events + BeforeRun(t, i + 1, true) + Visit(q) + [c]
  {
    hide Sift, Go, Paths, Aims, Unseen, Firsts, BeforeRun, Distinct, Clear, Visit, Kept, Prune, Loops, OnPath;
    var t := Prune(f, b, 0);
    SiftSame(f, v, b, i);
    DistinctLoop(v, t, i);
    var w := Loops(v, t, i).v;
    FirstsUnseen(t, i);
    FirstsKept(f, b, i);
    assert [] + w.nextSubcaseStack == w.nextSubcaseStack;
    var lost;
    q, lost := Strays(f, w.Reset(), [], b, w.nextSubcaseStack, i);
    var x := Sift(f, w.Reset(), b).v;
    EventsSoFar(v.events, t, i, true);
    var y := x.Told(CaseReenter);
    assert SiftLoops(f, v, b, i + 1) == Going(y);
    LeafOnPath(f, b, 0, i, q);
    LostRun(f, y.Reset(), [], b, q, lost);
    c := if Sift(f, y.Reset(), b).v.nextSubcaseStack == [] then CaseEnd else CaseReenter;
  }

  /** After any run but the last the events go on with the next leaf. */
  lemma {:induction false} RunsGoOn(b: Body, m: nat, n: nat) returns (c: Event)
    requires m < n <= |Paths(b)|
    ensures c in {CaseEnd, CaseReenter}
    ensures BeforeRun(b, m, true) + Visit(Paths(b)[m]) + [c] <= Runs(b, n) + [CaseEnd]
    decreases n
  {
    hide Visit, Paths;
    if m == n - 1 {
      c := CaseEnd;
    } else {
      c := RunsGoOn(b, m, n - 1);
      var told, all := BeforeRun(b, m, true) + Visit(Paths(b)[m]), Runs(b, n - 1);
      if |told| == |all| {
        assert told == (told + [c])[..|told|] == (all + [CaseEnd])[..|told|] == all;
        c := CaseReenter;
        assert Runs(b, n) == all + ([CaseReenter] + Visit(Paths(b)[n - 1]));
      } else {
        assert told + [c] == (all + [CaseEnd])[..|told| + 1] == all[..|told| + 1];
        assert Runs(b, n) == all + ([CaseReenter] + Visit(Paths(b)[n - 1]));
      }
    }
  }

  /** The events of a path end where the next thing told is not about subcases. */
  lemma SameVisit(pre: seq<Event>, p: Path, c: Event, q: Path, d: Event, x: seq<Event>, y: seq<Event>)
    requires c in {CaseEnd, CaseReenter} && d in {CaseEnd, CaseReenter}
    requires pre + Visit(p) + [c] <= x && pre + Visit(q) + [d] <= y && p != q
    ensures x != y
  {
    hide Visit;
    VisitLength(p);
    VisitLength(q);
    if |p| < |q| {
      VisitEnds(pre, p, c, q, d, x, y);
    } else if |q| < |p| {
      VisitEnds(pre, q, d, p, c, y, x);
    } else {
      var j: nat :| j < |p| && p[j] != q[j];
      VisitAt(p, j);
      VisitAt(q, j);
      assert x[|pre| + j] == Visit(p)[j] && y[|pre| + j] == Visit(q)[j];
    }
  }

  lemma VisitEnds(pre: seq<Event>, p: Path, c: Event, q: Path, d: Event, x: seq<Event>, y: seq<Event>)
    requires c in {CaseEnd, CaseReenter} && |p| < |q|
    requires pre + Visit(p) + [c] <= x && pre + Visit(q) + [d] <= y
    ensures x != y
  {
    hide Visit;
    VisitLength(p);
    VisitLength(q);
    VisitAt(q, |Visit(p)|);
    assert x[|pre| + |Visit(p)|] == c;
    assert y[|pre| + |Visit(p)|] == Visit(q)[|Visit(p)|];
  }

  /** After some number of runs the loop has ended and told of one run for each leaf of the pruned tree. */
  ghost predicate Sifts(f: Filters, v: View, b: Body, k: nat) {
    var l := SiftCase(f, v, b, k);
    l.Stopped? && l.v.events == v.events + Trace(Prune(f, b, 0))
  }

  lemma StraysForGood(f: Filters, v: View, b: Body, i: nat, k: nat)
    requires Distinct(Prune(f, b, 0)) && v.nextSubcaseStack == []
    requires i < |Paths(Prune(f, b, 0))| && !Clear(f, b, 0, i) && forall j :: 0 <= j < i ==> Clear(f, b, 0, j)
    ensures !Sifts(f, v, b, k)
  {
    hide Sift, SiftLoops, Paths, BeforeRun, Distinct, Clear, Visit, Prune, Trace;
    if Sifts(f, v, b, k) {
      var t, w := Prune(f, b, 0), v.(fullyTraversedSubcases := {}).Told(CaseStart);
      var q, c := LoopStrays(f, w, b, i);
      if k <= i + 1 {
        SiftSettled(f, w, b, k, i + 1);
        assert false;
      }
      SiftSettled(f, w, b, i + 2, k);
      WholeTrace(v.events, t);
      NotTheTrace(w.events, t, i, q, c, SiftLoops(f, w, b, i + 2).v.events, SiftLoops(f, w, b, k).v.events);
    }
  }

  lemma EndsOtherwise(head: seq<Event>, rest: seq<Event>, told: seq<Event>, all: seq<Event>)
    requires told == head + [CaseReenter] + rest && told <= all
    ensures all != head + [CaseEnd]
  {
    assert told[|head|] == all[|head|];
  }

  lemma NotTheTrace(pre: seq<Event>, t: Body, i: nat, q: Path, c: Event, told: seq<Event>, all: seq<Event>)
    requires Distinct(t) && i < |Paths(t)| && q < Paths(t)[i] && c in {CaseEnd, CaseReenter}
    requires told == pre + BeforeRun(t, i + 1, true) + Visit(q) + [c] && told <= all
    ensures all != pre + BeforeRun(t, |Paths(t)|, false) + [CaseEnd]
  {
    hide Paths, Distinct, Visit, Runs;
    var n, m := |Paths(t)|, i + 1;
    if m == n {
      assert told == pre + Runs(t, n) + [CaseReenter] + (Visit(q) + [c]);
      EndsOtherwise(pre + Runs(t, n), Visit(q) + [c], told, all);
    } else {
      var d := RunsGoOn(t, m, n);
      var head, whole := pre + BeforeRun(t, m, true), pre + (Runs(t, n) + [CaseEnd]);
      assert head + Visit(Paths(t)[m]) + [d] == pre + (BeforeRun(t, m, true) + Visit(Paths(t)[m]) + [d]);
      NotAbove(t, i, m, q);
      SameVisit(head, q, c, Paths(t)[m], d, all, whole);
      assert pre + Runs(t, n) + [CaseEnd] == whole;
    }
  }

  /** A node above one leaf is not another. */
  lemma NotAbove(t: Body, i: nat, m: nat, q: Path)
    requires Distinct(t) && i < |Paths(t)| && m < |Paths(t)| && i != m && q < Paths(t)[i]
    ensures q != Paths(t)[m]
  {
    hide Paths, Distinct;
    if q == Paths(t)[m] {
      LeafIsLast(t, m, i);
      assert false;
    }
  }

  lemma {:induction false} FirstUnclear(f: Filters, b: Body, k: nat) returns (i: nat)
    requires !Clear(f, b, 0, k)
    ensures i <= k && !Clear(f, b, 0, i) && forall j :: 0 <= j < i ==> Clear(f, b, 0, j)
  {
    hide Clear;
    if j: nat :| j < k && !Clear(f, b, 0, j) {
      i := FirstUnclear(f, b, j);
    } else {
      i := k;
    }
  }

  // ----- only distinct siblings give one run per leaf

  /** A run tells of subcases only, and first of one that is entered. */
  lemma {:induction false} RunTells(f: Filters, v: View, b: Body)
    requires Sift(f, v, b).Through?
    ensures var e := Happened(v, Sift(f, v, b).v);
      && Plain(e)
      && (e != [] ==> e[0].SubcaseStart? && v.InBounds())
      && (e != [] && !v.reachedLeaf ==> v.Enters(e[0].sig))
    decreases b
  {
    hide Plain, Happened, View.Left, View.Notes;
    if b.Done? {
      NothingTold(v);
    } else if v.Lets(f, b.sig) {
      RunTells(f, v.Entered(b.sig), b.inside);
      var w := Sift(f, v.Entered(b.sig), b.inside).v;
      RunTells(f, w.Left(), b.rest);
      HappenedParts(v, b.sig, w, Sift(f, v, b).v);
      PlainParts(b.sig, Happened(v.Entered(b.sig), w), Happened(w.Left(), Sift(f, v, b).v));
    } else {
      RunTells(f, v.Held(f, b.sig), b.rest);
      HeldTells(f, v, b.sig, Sift(f, v, b).v);
    }
  }

  lemma HeldTells(f: Filters, v: View, sig: Signature, w: View)
    requires v.InBounds() && v.events <= w.events
    ensures v.Held(f, sig).events == v.events && Happened(v, w) == Happened(v.Held(f, sig), w)
    ensures v.Held(f, sig).reachedLeaf == v.reachedLeaf && (!v.reachedLeaf ==> v.Held(f, sig) == v)
  {
  }

  /** After the leaf, a run that enters nothing has met no subcase of the signature on the stack. */
  lemma {:induction false} NothingEntered(f: Filters, v: View, b: Body, sig: Signature)
    requires v.reachedLeaf && v.InBounds() && v.subcaseStack[v.currentSubcaseDepth] == sig
    requires Sift(f, v, b).Through? && Sift(f, v, b).v.events == v.events
    ensures !Among(sig, Prune(f, b, v.currentSubcaseDepth))
    decreases b
  {
    if b.Done? {
    } else if v.Lets(f, b.sig) {
      assert false;
    } else {
      NothingEntered(f, v.Held(f, b.sig), b.rest, sig);
    }
  }

  /** A run on the way down that enters just the subcases of a path finds the path clean. */
  lemma {:induction false} RunIsClean(f: Filters, v: View, b: Body, p: Path)
    requires !v.reachedLeaf && v.currentSubcaseDepth == |v.subcaseStack|
    requires Sift(f, v, b).Through? && Happened(v, Sift(f, v, b).v) == Visit(p)
    ensures Clean(Prune(f, b, |v.subcaseStack|), p)
    decreases b
  {
    hide Visit;
    if b.Done? || p == [] {
    } else if v.Lets(f, b.sig) {
      var u := v.Entered(b.sig);
      var w := Sift(f, u, b.inside).v;
      var x := Sift(f, v, b).v;
      RunTells(f, w.Left(), b.rest);
      var e, after := Happened(u, w), Happened(w.Left(), x);
      HappenedParts(v, b.sig, w, x);
      VisitSplit(p, b.sig, e, after);
      RunIsClean(f, u, b.inside, p[1..]);
      assert x.events == w.Left().events + after;
      assert u.subcaseStack[|v.subcaseStack|] == b.sig == w.subcaseStack[|v.subcaseStack|];
      NothingEntered(f, w.Left(), b.rest, b.sig);
    } else {
      RunTells(f, v, b.rest);
      VisitLength(p);
      VisitAt(p, 0);
      RunIsClean(f, v, b.rest, p);
    }
  }

  /** The loop has made k runs, and is going on or has just ended. */
  predicate Made(f: Filters, v: View, b: Body, k: nat) {
    var l := SiftLoops(f, v, b, k);
    l.Going? || (l.Stopped? && l.runs == k)
  }

  lemma {:induction false} StoppedWhen(f: Filters, v: View, b: Body, k: nat)
    requires SiftLoops(f, v, b, k).Stopped?
    ensures var l := SiftLoops(f, v, b, k); 0 < l.runs <= k && SiftLoops(f, v, b, l.runs) == l
  {
    if k == 0 {
    } else if SiftLoops(f, v, b, k - 1).Stopped? {
      StoppedWhen(f, v, b, k - 1);
    }
  }

  lemma MadeBefore(f: Filters, v: View, b: Body, k: nat)
    requires k > 0 && Made(f, v, b, k)
    ensures SiftLoops(f, v, b, k - 1).Going? && Sift(f, SiftLoops(f, v, b, k - 1).v.Reset(), b).Through?
  {
    if SiftLoops(f, v, b, k - 1).Stopped? {
      StoppedWhen(f, v, b, k - 1);
    }
  }

  /** Run i of the loop told e. */
  predicate RunTold(f: Filters, v: View, b: Body, i: nat, e: seq<Event>) {
    && SiftLoops(f, v, b, i).Going?
    && var w := SiftLoops(f, v, b, i).v.Reset();
       Sift(f, w, b).Through? && Sift(f, w, b).v.events == w.events + e
  }

  lemma {:induction false} LoopTells(f: Filters, v: View, b: Body, k: nat) returns (es: seq<seq<Event>>)
    requires Made(f, v, b, k)
    ensures |es| == k && AllPlain(es) && forall i :: 0 <= i < k ==> RunTold(f, v, b, i, es[i])
    ensures var l := SiftLoops(f, v, b, k);
      l.v.events == v.events + Joined(es) + if l.Stopped? then [CaseEnd] else if k > 0 then [CaseReenter] else []
  {
    hide Sift;
    if k == 0 {
      es := [];
    } else {
      MadeBefore(f, v, b, k);
      var ds := LoopTells(f, v, b, k - 1);
      var e := LastRunTells(f, v, b, k, ds);
      es := ds + [e];
    }
  }

  lemma LastRunTells(f: Filters, v: View, b: Body, k: nat, ds: seq<seq<Event>>) returns (e: seq<Event>)
    requires k > 0 && Made(f, v, b, k) && SiftLoops(f, v, b, k - 1).Going? && |ds| == k - 1
    requires SiftLoops(f, v, b, k - 1).v.events == v.events + Joined(ds) + if k > 1 then [CaseReenter] else []
    ensures Plain(e) && RunTold(f, v, b, k - 1, e)
    ensures var l := SiftLoops(f, v, b, k);
      l.v.events == v.events + Joined(ds + [e]) + if l.Stopped? then [CaseEnd] else [CaseReenter]
  {
    hide Sift, Joined, Plain;
    MadeBefore(f, v, b, k);
    var w := SiftLoops(f, v, b, k - 1).v;
    var x := Sift(f, w.Reset(), b).v;
    RunTells(f, w.Reset(), b);
    e := Happened(w.Reset(), x);
    var sep := if k > 1 then [CaseReenter] else [];
    TellMore(w.events, x.events, v.events + Joined(ds) + sep, e);
    JoinedMore(ds, e);
    Regroup(v.events, Joined(ds), sep, e);
  }

  lemma OnlyDistinct(f: Filters, v: View, b: Body, k: nat)
    requires Sifts(f, v, b, k)
    ensures Distinct(Prune(f, b, 0))
  {
    hide Sift, SiftLoops, Prune, Paths, Visit, Runs, Joined, Clean, Distinct;
    var w, t := v.(fullyTraversedSubcases := {}).Told(CaseStart), Prune(f, b, 0);
    StoppedWhen(f, w, b, k);
    var l := SiftLoops(f, w, b, k);
    var es := LoopTells(f, w, b, l.runs);
    var n := |Paths(t)|;
    RunsJoined(t, n);
    assert v.events + [CaseStart] + Joined(es) + [CaseEnd] == v.events + ([CaseStart] + Runs(t, n) + [CaseEnd]);
    SameMiddle(v.events + [CaseStart], v.events, Joined(es), Runs(t, n));
    JoinedOnce(es, Visits(t, n));
    forall i | 0 <= i < n
      ensures Clean(t, Paths(t)[i])
    {
      assert RunTold(f, w, b, i, es[i]);
      var u := SiftLoops(f, w, b, i).v.Reset();
      assert Happened(u, Sift(f, u, b).v) == Visit(Paths(t)[i]);
      RunIsClean(f, u, b, Paths(t)[i]);
    }
    CleanPaths(t);
  }

  // ----- the exact conditions

  /** The loop ends after one run for each leaf of the pruned tree, in preorder, if and only if no two siblings
      left in it have the same signature and the way back from every leaf is clear. */
  lemma FiltersPrune(f: Filters, v: View, b: Body)
    requires v.nextSubcaseStack == []
    ensures Distinct(Prune(f, b, 0)) && AllClear(f, b) <==> exists k :: Sifts(f, v, b, k)
  {
    hide Distinct, Clear, Prune, Paths, SiftLoops, Loops, Trace;
    var t := Prune(f, b, 0);
    if Distinct(t) && AllClear(f, b) {
      SiftedCase(f, v, b, |Paths(t)|);
      assert Sifts(f, v, b, |Paths(t)|);
    }
    forall k | Sifts(f, v, b, k)
      ensures Distinct(t) && AllClear(f, b)
    {
      OnlyDistinct(f, v, b, k);
      if i: nat :| i < |Paths(t)| && !Clear(f, b, 0, i) {
        var j := FirstUnclear(f, b, i);
        StraysForGood(f, v, b, j, k);
        assert false;
      }
    }
  }

  /** If no leaf is as deep as the levels that are filtered, the way back is always clear. */
  lemma {:induction false} DeepFilters(f: Filters, b: Body, d: nat, i: nat)
    requires i < |Paths(Prune(f, b, d))| && d + |Paths(Prune(f, b, d))[i]| < f.levels
    ensures Clear(f, b, d, i)
    decreases b
  {
    hide Paths;
    var t := Prune(f, b, d);
    if b.Done? {
    } else if f.Stops(b.sig, d) {
      DeepFilters(f, b.rest, d, i);
    } else if i < |Paths(t.inside)| {
      PathInside(t, i);
      DeepFilters(f, b.inside, d + 1, i);
    } else {
      LastInRest(t, i);
      PathAfter(t, i);
      DeepFilters(f, b.rest, d, i - |Paths(t.inside)|);
    }
  }

  /** After some number of runs without filters the loop has ended and told of one run per leaf. */
  ghost predicate Produces(v: View, b: Body, k: nat) {
    var l := TestCase(v, b, k);
    l.Stopped? && l.v.events == v.events + Trace(b)
  }

  /** Without filters: one run for each leaf, in preorder, exactly for the trees in which no two siblings have
      the same signature. */
  lemma OneRunPerLeaf(v: View, b: Body)
    requires v.nextSubcaseStack == []
    ensures Distinct(b) <==> exists k :: Produces(v, b, k)
  {
    hide Distinct, Clear, SiftLoops, Loops, Trace, Paths, Prune;
    var f := Filters(_ => true, 0);
    PrunesNothing(f, b, 0);
    FiltersPrune(f, v, b);
    forall i: nat | i < |Paths(b)|
      ensures Clear(f, b, 0, i)
    {
      NothingUnclear(f, b, 0, i);
    }
    forall k: nat
      ensures Produces(v, b, k) <==> Sifts(f, v, b, k)
    {
      SameLoop(f, v.(fullyTraversedSubcases := {}).Told(CaseStart), b, k);
    }
    assert (exists k :: Sifts(f, v, b, k)) <==> exists k :: Produces(v, b, k);
  }

  lemma {:induction false} NothingUnclear(f: Filters, b: Body, d: nat, i: nat)
    requires f.levels == 0
    ensures Clear(f, b, d, i)
    decreases b
  {
    if b.Done? {
    } else {
      var n := |Paths(Prune(f, b.inside, d + 1))|;
      if i >= n {
        NothingUnclear(f, b.rest, d, i - n);
      } else {
        NothingUnclear(f, b.inside, d + 1, i);
      }
    }
  }

  lemma {:induction false} SameLoop(f: Filters, v: View, b: Body, k: nat)
    requires f.levels == 0
    ensures SiftLoops(f, v, b, k) == Loops(v, b, k)
  {
    hide Sift, Go;
    if k == 0 {
    } else {
      SameLoop(f, v, b, k - 1);
      if Loops(v, b, k - 1).Going? {
        NothingSifted(f, Loops(v, b, k - 1).v.Reset(), b);
      }
    }
  }

  /** Two subcases, of which the second is filtered out on the one level that is filtered: the loop never ends. */
  lemma {:induction false} Hangs(f: Filters, v: View, a: Signature, x: Signature, k: nat)
    requires f.levels == 1 && f.keep(a.name) && !f.keep(x.name) && v.nextSubcaseStack == []
    ensures var l := SiftCase(f, v, Meet(a, Done, Meet(x, Done, Done)), k);
      && l.Going? && (k > 0 ==> l.v.nextSubcaseStack == [x])
      && l.v.events == v.events + if k == 0 then [CaseStart]
           else [CaseStart, SubcaseStart(a), SubcaseEnd, CaseReenter] + Repeated(CaseReenter, k - 1)
  {
    hide Sift;
    var b, w := Meet(a, Done, Meet(x, Done, Done)), v.(fullyTraversedSubcases := {}).Told(CaseStart);
    if k == 0 {
    } else {
      Hangs(f, v, a, x, k - 1);
      var u := SiftLoops(f, w, b, k - 1).v;
      SiftNext(f, w, b, k - 1);
      if k == 1 {
        HangsFirst(f, u.Reset(), a, x);
      } else {
        HangsAgain(f, u.Reset(), a, x);
      }
    }
  }

  lemma {:induction false} HangsFirst(f: Filters, u: View, a: Signature, x: Signature)
    requires f.levels == 1 && f.keep(a.name) && !f.keep(x.name) && u == u.Reset()
    requires u.nextSubcaseStack == [] && u.fullyTraversedSubcases == {}
    ensures var r := Sift(f, u, Meet(a, Done, Meet(x, Done, Done)));
      r.Through? && r.v.nextSubcaseStack == [x] && r.v.events == u.events + [SubcaseStart(a), SubcaseEnd]
  {
    hide Sift;
    SiftStep(f, u, Meet(a, Done, Meet(x, Done, Done)));
    NothingToDo(f, u.Entered(a));
    var w := u.Entered(a).Left();
    SiftStep(f, w, Meet(x, Done, Done));
    assert w.Held(f, x).nextSubcaseStack == [x];
    NothingToDo(f, w.Held(f, x));
  }

  lemma {:induction false} HangsAgain(f: Filters, u: View, a: Signature, x: Signature)
    requires f.levels == 1 && f.keep(a.name) && !f.keep(x.name) && u == u.Reset() && u.nextSubcaseStack == [x]
    ensures Sift(f, u, Meet(a, Done, Meet(x, Done, Done))) == Through(u)
  {
    hide Sift;
    SiftStep(f, u, Meet(a, Done, Meet(x, Done, Done)));
    SiftStep(f, u, Meet(x, Done, Done));
    NothingToDo(f, u);
  }

  function Repeated(e: Event, n: nat): seq<Event> {
    if n == 0 then [] else Repeated(e, n - 1) + [e]
  }

  // ----- the methods

  /** Runs one test case until no goal is left, but no more than `limit` times. */
  method RunTestCase(g: ContextState, f: Filters, test: Body, limit: nat) returns (l: Loop)
    modifies g
    ensures l == SiftCase(f, old(g.Now()), test, limit) && (!l.Failed? ==> g.Now() == l.v)
  {
    hide Sift, SiftLoops;
    g.fullyTraversedSubcases := {};
    g.events := g.events + [CaseStart];
    ghost var v := g.Now();
    var runs: nat := 0;
    var runTest := true;
    NoRuns(f, v, test);
    while runTest
      invariant runs <= limit
      invariant SiftLoops(f, v, test, runs) == if runTest then Going(g.Now()) else Stopped(g.Now().Told(CaseEnd), runs)
      decreases limit - runs, runTest
    {
      if runs == limit {
        return Going(g.Now());
      }
      g.reachedLeaf := false;
      g.subcaseStack := [];
      g.currentSubcaseDepth := 0;
      SiftNext(f, v, test, runs);
      var ok := Execute(g, f, test);
      runs := runs + 1;
      if !ok {
        SiftSettled(f, v, test, runs, limit);
        return Failed;
      }
      if g.nextSubcaseStack != [] && runTest {
        g.events := g.events + [CaseReenter];
      }
      if g.nextSubcaseStack == [] {
        runTest := false;
      }
    }
    SiftSettled(f, v, test, runs, limit);
    g.events := g.events + [CaseEnd];
    l := Stopped(g.Now(), runs);
  }

  function Traces(f: Filters, tests: seq<Body>): seq<Event> {
    if tests == [] then [] else Traces(f, tests[..|tests| - 1]) + Trace(Prune(f, tests[|tests| - 1], 0))
  }

  /** Runs the test cases one after the other with the same state, each for as many runs as it has leaves. */
  method RunAll(f: Filters, tests: seq<Body>) returns (g: ContextState, ok: bool)
    ensures fresh(g)
    ensures (forall i :: 0 <= i < |tests| ==> Distinct(Prune(f, tests[i], 0)) && AllClear(f, tests[i])) ==>
      ok && g.events == Traces(f, tests)
  {
    hide Sift, SiftCase, Distinct, AllClear, Trace, Paths, Prune;
    g := new ContextState();
    ok := true;
    for i := 0 to |tests|
      invariant fresh(g)
      invariant (forall j :: 0 <= j < i ==> Distinct(Prune(f, tests[j], 0)) && AllClear(f, tests[j])) ==>
        ok && g.nextSubcaseStack == [] && g.events == Traces(f, tests[..i])
    {
      var limit := |Paths(Prune(f, tests[i], 0))|;
      if Distinct(Prune(f, tests[i], 0)) && AllClear(f, tests[i]) && g.nextSubcaseStack == [] {
        SiftedCase(f, g.Now(), tests[i], limit);
      }
      var l := RunTestCase(g, f, tests[i], limit);
      if !l.Stopped? {
        return g, false;
      }
      assert tests[..i + 1][..i] == tests[..i];
    }
    assert tests[..|tests|] == tests;
  }
}
