/** doctest's subcases: a test function is run again and again, each time down another path of its
    tree of subcases, until every leaf has been reached. */
module Subcases {
  datatype Signature = Signature(name: string, file: string, line: int)

  type Path = seq<Signature>

  /** What a test function does, as far as subcases matter: it meets a subcase with the code inside it,
      then the rest. */
  datatype Body = Done | Meet(sig: Signature, inside: Body, rest: Body)

  /** What the reporters are told. */
  datatype Event = CaseStart | CaseReenter | CaseEnd | SubcaseStart(sig: Signature) | SubcaseEnd

  /** The name filters: which names they let through, and on how many levels they are applied. */
  datatype Filters = Filters(keep: string -> bool, levels: nat) {
    /** A subcase is filtered out when so many are on the stack. */
    predicate Stops(sig: Signature, stack: nat) {
      stack < levels && !keep(sig.name)
    }
  }

  // ----- the tree

  function Prefixed(sig: Signature, ps: seq<Path>): (r: seq<Path>)
    ensures |r| == |ps| && forall i :: 0 <= i < |ps| ==> r[i] == [sig] + ps[i]
  {
    seq(|ps|, i requires 0 <= i < |ps| => [sig] + ps[i])
  }

  /** The root paths of the leaves, in preorder; a body without subcases is a leaf itself. */
  function Paths(b: Body): (ps: seq<Path>)
    ensures |ps| > 0
  {
    match b
    case Done => [[]]
    case Meet(sig, inside, rest) => Prefixed(sig, Paths(inside)) + if rest.Done? then [] else Paths(rest)
  }

  predicate Among(sig: Signature, b: Body) {
    b.Meet? && (b.sig == sig || Among(sig, b.rest))
  }

  /** No two subcases side by side have the same signature. */
  predicate Distinct(b: Body) {
    b.Meet? ==> !Among(b.sig, b.rest) && Distinct(b.inside) && Distinct(b.rest)
  }

  /** The first leaf at or below the node with root path n has number i. */
  predicate Aims(b: Body, n: Path, i: nat) {
    match b
    case Done => n == [] && i == 0
    case Meet(sig, inside, rest) =>
      var k := |Paths(inside)|;
      if n == [] then i == 0
      else if n[0] == sig then i < k && Aims(inside, n[1..], i)
      else i >= k && rest.Meet? && Aims(rest, n, i - k)
  }

  lemma {:induction false} AimsAmong(b: Body, n: Path, i: nat)
    requires Aims(b, n, i) && n != []
    ensures Among(n[0], b)
  {
    if n[0] == b.sig {
    } else {
      AimsAmong(b.rest, n, i - |Paths(b.inside)|);
    }
  }

  lemma {:induction false} AimsUnique(b: Body, n: Path, i: nat, j: nat)
    requires Aims(b, n, i) && Aims(b, n, j)
    ensures i == j < |Paths(b)|
  {
    if n == [] {
    } else {
      if n[0] == b.sig {
        AimsUnique(b.inside, n[1..], i, j);
      } else {
        AimsUnique(b.rest, n, i - |Paths(b.inside)|, j - |Paths(b.inside)|);
      }
    }
  }

  /** A leaf's own path aims at it. */
  lemma {:induction false} AimsSelf(b: Body, i: nat)
    requires Distinct(b) && i < |Paths(b)|
    ensures Aims(b, Paths(b)[i], i)
    ensures b.Meet? ==> Paths(b)[i] != [] && Among(Paths(b)[i][0], b)
  {
    if !b.Meet? {
    } else {
      var k := |Paths(b.inside)|;
      if i < k {
        AimsSelf(b.inside, i);
        assert Paths(b)[i] == [b.sig] + Paths(b.inside)[i];
      } else {
        AimsSelf(b.rest, i - k);
      }
    }
  }

  // ----- one run

  /** The events of entering and leaving the subcases of a path. */
  function Visit(p: Path): seq<Event> {
    if p == [] then [] else [SubcaseStart(p[0])] + Visit(p[1..]) + [SubcaseEnd]
  }

  /** The scheduler's fields. */
  datatype View = View(reachedLeaf: bool, subcaseStack: Path, nextSubcaseStack: Path,
                       fullyTraversedSubcases: set<Path>, currentSubcaseDepth: nat, events: seq<Event>)
  {
    /** The stack may be looked up at the current depth. */
    predicate InBounds() {
      reachedLeaf ==> currentSubcaseDepth < |subcaseStack|
    }

    /** Whether a subcase met now is entered. */
    predicate Enters(sig: Signature)
      requires InBounds()
    {
      if reachedLeaf then subcaseStack[currentSubcaseDepth] == sig
      else |nextSubcaseStack| <= |subcaseStack| || nextSubcaseStack[|subcaseStack|] == sig
    }

    /** After the leaf, whether a subcase met but not entered becomes the goal of the next run. */
    predicate Notes(sig: Signature)
      requires InBounds()
    {
      reachedLeaf && |nextSubcaseStack| <= currentSubcaseDepth
      && subcaseStack[..currentSubcaseDepth] + [sig] !in fullyTraversedSubcases
    }

    /** With filters, whether a subcase met now is entered: one on the stack is not looked at again. */
    predicate Lets(f: Filters, sig: Signature)
      requires InBounds()
    {
      Enters(sig) && (reachedLeaf || !f.Stops(sig, |subcaseStack|))
    }

    /** With filters, what becomes of the state when a subcase is not entered. */
    function Held(f: Filters, sig: Signature): View
      requires InBounds()
    {
      if f.Stops(sig, |subcaseStack|) then this else NotEntered(sig)
    }

    function Entered(sig: Signature): View {
      this.(subcaseStack := if reachedLeaf then subcaseStack else subcaseStack + [sig],
            currentSubcaseDepth := currentSubcaseDepth + 1, events := events + [SubcaseStart(sig)])
    }

    function NotEntered(sig: Signature): View
      requires InBounds()
    {
      if Notes(sig) then this.(nextSubcaseStack := subcaseStack[..currentSubcaseDepth] + [sig]) else this
    }

    function Left(): View
      requires currentSubcaseDepth > 0
    {
      var next := if reachedLeaf then nextSubcaseStack else [];
      View(true, subcaseStack, next, fullyTraversedSubcases + if next == [] then {subcaseStack} else {},
           currentSubcaseDepth - 1, events + [SubcaseEnd])
    }

    /** Before a run all fields but the goal and the finished paths are reset. */
    function Reset(): View {
      this.(reachedLeaf := false, subcaseStack := [], currentSubcaseDepth := 0)
    }

    function Told(e: Event): View {
      this.(events := events + [e])
    }
  }

  /** What becomes of a run: the stack was looked up past its end, or it went through. */
  datatype Outcome = OutOfRange | Through(v: View)

  /** A run of the code b, whatever the state. */
  function Go(v: View, b: Body): (r: Outcome)
    ensures r.Through? ==> r.v.currentSubcaseDepth == v.currentSubcaseDepth && v.subcaseStack <= r.v.subcaseStack
    ensures r.Through? ==> v.events <= r.v.events && (v.reachedLeaf ==> r.v.reachedLeaf)
    decreases b
  {
    match b
    case Done => Through(v)
    case Meet(sig, inside, rest) =>
      if !v.InBounds() then OutOfRange
      else if v.Enters(sig) then
        match Go(v.Entered(sig), inside)
        case OutOfRange => OutOfRange
        case Through(w) => Go(w.Left(), rest)
      else Go(v.NotEntered(sig), rest)
  }

  class ContextState {
    var reachedLeaf: bool
    var subcaseStack: Path
    var nextSubcaseStack: Path
    var fullyTraversedSubcases: set<Path>
    var currentSubcaseDepth: nat
    var events: seq<Event>

    constructor ()
      ensures nextSubcaseStack == [] && events == []
    {
      reachedLeaf, subcaseStack, nextSubcaseStack, currentSubcaseDepth := false, [], [], 0;
      fullyTraversedSubcases, events := {}, [];
    }

    function Now(): View
      reads this
    {
      View(reachedLeaf, subcaseStack, nextSubcaseStack, fullyTraversedSubcases, currentSubcaseDepth, events)
    }
  }

  class Subcase {
    const signature: Signature
    var entered: bool

    constructor (g: ContextState, sig: Signature, f: Filters)
      requires g.Now().InBounds()
      modifies g
      ensures entered <==> old(g.Now()).Lets(f, sig)
      ensures g.Now() == if entered then old(g.Now()).Entered(sig) else old(g.Now()).Held(f, sig)
    {
      signature := sig;
      entered := false;
      new;
      if !g.reachedLeaf {
        if |g.nextSubcaseStack| <= |g.subcaseStack| || g.nextSubcaseStack[|g.subcaseStack|] == sig {
          if f.Stops(sig, |g.subcaseStack|) {
            return;
          }
          g.subcaseStack := g.subcaseStack + [sig];
          g.currentSubcaseDepth := g.currentSubcaseDepth + 1;
          entered := true;
          g.events := g.events + [SubcaseStart(sig)];
        }
      } else {
        if g.subcaseStack[g.currentSubcaseDepth] == sig {
          g.currentSubcaseDepth := g.currentSubcaseDepth + 1;
          entered := true;
          g.events := g.events + [SubcaseStart(sig)];
        } else if |g.nextSubcaseStack| <= g.currentSubcaseDepth
                  && g.subcaseStack[..g.currentSubcaseDepth] + [sig] !in g.fullyTraversedSubcases {
          if f.Stops(sig, |g.subcaseStack|) {
            return;
          }
          g.nextSubcaseStack := g.subcaseStack[..g.currentSubcaseDepth];
          g.nextSubcaseStack := g.nextSubcaseStack + [sig];
        }
      }
    }

    method Destroy(g: ContextState)
      requires entered ==> g.currentSubcaseDepth > 0
      modifies g
      ensures g.Now() == if entered then old(g.Now()).Left() else old(g.Now())
    {
      if entered {
        g.currentSubcaseDepth := g.currentSubcaseDepth - 1;
        if !g.reachedLeaf {
          g.fullyTraversedSubcases := g.fullyTraversedSubcases + {g.subcaseStack};
          g.nextSubcaseStack := [];
          g.reachedLeaf := true;
        } else if g.nextSubcaseStack == [] {
          g.fullyTraversedSubcases := g.fullyTraversedSubcases + {g.subcaseStack};
        }
        g.events := g.events + [SubcaseEnd];
      }
    }
  }

  // ----- the state on the way down and on the way back

  /** On the way down with s entered, to leaf i of b, the first below the node with path n from here. */
  ghost predicate Descending(v: View, s: Path, b: Body, n: Path, i: nat) {
    && !v.reachedLeaf && v.subcaseStack == s && v.currentSubcaseDepth == |s|
    && (if n == [] then |v.nextSubcaseStack| <= |s| else v.nextSubcaseStack == s + n)
    && Aims(b, n, i)
    && Unseen(v.fullyTraversedSubcases, s, b, i)
  }

  /** Back at the level of s, after the leaf with path s + p, with the code b still to come. */
  ghost predicate Ascending(v: View, s: Path, b: Body, p: Path) {
    && v.reachedLeaf && p != [] && v.subcaseStack == s + p && v.currentSubcaseDepth == |s|
    && !Among(p[0], b)
    && (if v.nextSubcaseStack == [] then b.Meet? ==> s + [b.sig] !in v.fullyTraversedSubcases
        else |v.nextSubcaseStack| > |s|)
  }

  /** Nothing ahead of leaf i in b has been marked as traversed. */
  ghost predicate Unseen(seen: set<Path>, s: Path, b: Body, i: nat) {
    forall n, k :: k > i && n != [] && Aims(b, n, k) ==> s + n !in seen
  }

  /** After leaf i of b: the node to go for next, if there is one. */
  ghost predicate AimsNext(next: Path, s: Path, b: Body, i: nat) {
    if i + 1 < |Paths(b)| then s < next && s == next[..|s|] && Aims(b, next[|s|..], i + 1) else next == []
  }

  /** Leaf i of b has been reached and all of b is done. */
  ghost predicate Visited(v: View, w: View, s: Path, b: Body, i: nat) {
    && b.Meet? && i < |Paths(b)|
    && w.reachedLeaf && w.subcaseStack == s + Paths(b)[i] && w.currentSubcaseDepth == |s|
    && w.fullyTraversedSubcases == v.fullyTraversedSubcases + {s + Paths(b)[i]}
    && w.events == v.events + Visit(Paths(b)[i])
    && AimsNext(w.nextSubcaseStack, s, b, i)
  }

  /** The code b was passed on the way back: its first subcase is the next goal if there was none. */
  ghost predicate Passed(v: View, w: View, s: Path, b: Body) {
    w == if v.nextSubcaseStack == [] && b.Meet? then v.(nextSubcaseStack := s + [b.sig]) else v
  }

  lemma UnseenInside(seen: set<Path>, s: Path, b: Body, i: nat)
    requires b.Meet? && Unseen(seen, s, b, i)
    ensures Unseen(seen, s + [b.sig], b.inside, i)
  {
    forall n, j | j > i && n != [] && Aims(b.inside, n, j)
      ensures s + [b.sig] + n !in seen
    {
      AimsUnique(b.inside, n, j, j);
      assert ([b.sig] + n)[1..] == n;
      assert Aims(b, [b.sig] + n, j);
      assert s + [b.sig] + n == s + ([b.sig] + n);
    }
  }

  lemma UnseenRest(seen: set<Path>, s: Path, b: Body, i: nat)
    requires b.Meet? && Distinct(b) && i >= |Paths(b.inside)| && Unseen(seen, s, b, i)
    ensures Unseen(seen, s, b.rest, i - |Paths(b.inside)|)
  {
    var k := |Paths(b.inside)|;
    forall n, j | j > i - k && n != [] && Aims(b.rest, n, j)
      ensures s + n !in seen
    {
      AimsAmong(b.rest, n, j);
      assert Aims(b, n, j + k);
    }
  }

  lemma UnseenNext(seen: set<Path>, s: Path, b: Body, i: nat)
    requires b.Meet? && b.rest.Meet? && Distinct(b) && i < |Paths(b.inside)| && Unseen(seen, s, b, i)
    ensures s + [b.rest.sig] !in seen
  {
    assert [b.rest.sig][1..] == [];
    assert Aims(b.rest, [b.rest.sig], 0);
    assert Aims(b, [b.rest.sig], |Paths(b.inside)|);
  }

  /** The goal set inside a subcase is kept by the code after it; without one, that code sets it. */
  lemma NextAfterInside(next0: Path, next: Path, s: Path, b: Body, i: nat)
    requires b.Meet? && Distinct(b) && i < |Paths(b.inside)|
    requires AimsNext(next0, s + [b.sig], b.inside, i)
    requires next == (if next0 == [] && b.rest.Meet? then s + [b.rest.sig] else next0)
    ensures AimsNext(next, s, b, i)
  {
    var k := |Paths(b.inside)|;
    if i + 1 < k {
      assert next[|s|..] == [b.sig] + next[|s| + 1..];
      assert next[..|s|] == (s + [b.sig])[..|s|] == s;
    } else if b.rest.Meet? {
      assert [b.rest.sig][1..] == [];
      assert Aims(b.rest, [b.rest.sig], 0);
      assert next[|s|..] == [b.rest.sig] && next[..|s|] == s;
    }
  }

  lemma MorePaths(b: Body)
    requires b.Meet? && b.rest.Meet?
    ensures |Paths(b)| == |Paths(b.inside)| + |Paths(b.rest)|
  {
  }

  lemma FirstApart(b: Body)
    requires b.Meet? && Distinct(b)
    ensures !Among(b.sig, b.rest)
  {
  }

  lemma NextAfterRest(next: Path, s: Path, b: Body, i: nat)
    requires b.Meet? && Distinct(b) && i >= |Paths(b.inside)| && b.rest.Meet?
    requires AimsNext(next, s, b.rest, i - |Paths(b.inside)|)
    ensures AimsNext(next, s, b, i)
  {
    hide Paths, Distinct;
    MorePaths(b);
    assert !Among(b.sig, b.rest) by { FirstApart(b); }
    if i + 1 < |Paths(b)| {
      AimsAmong(b.rest, next[|s|..], i + 1 - |Paths(b.inside)|);
    }
  }

  // ----- the three places a subcase can be met

  lemma EnterInside(v: View, s: Path, b: Body, n: Path, i: nat)
    requires b.Meet? && Descending(v, s, b, n, i) && (n == [] || n[0] == b.sig)
    ensures Descending(v.Entered(b.sig), s + [b.sig], b.inside, if n == [] then [] else n[1..], i)
    ensures i < |Paths(b.inside)|
  {
    UnseenInside(v.fullyTraversedSubcases, s, b, i);
    AimsUnique(b, n, i, i);
    if n != [] {
      assert n == [b.sig] + n[1..];
      assert s + n == s + [b.sig] + n[1..];
      AimsUnique(b.inside, n[1..], i, i);
    }
  }

  /** Nothing inside: this subcase is the leaf. */
  lemma LeaveLeaf(v: View, s: Path, b: Body, i: nat)
    requires b.Meet? && b.inside.Done? && Distinct(b) && i == 0
    requires v.subcaseStack == s && v.currentSubcaseDepth == |s| && !v.reachedLeaf
    requires Unseen(v.fullyTraversedSubcases, s, b, i)
    ensures Inside(v, v.Entered(b.sig).Left(), s, b, i)
  {
    assert Paths(b)[0] == [b.sig] + [];
    assert Visit([b.sig])[1..] == [SubcaseEnd];
  }

  /** Leaf i, inside the first subcase of b, has been visited and that subcase left. */
  ghost predicate Inside(v: View, w: View, s: Path, b: Body, i: nat) {
    && b.Meet? && i < |Paths(b.inside)|
    && w.reachedLeaf && w.subcaseStack == s + Paths(b)[i] && w.currentSubcaseDepth == |s|
    && w.fullyTraversedSubcases == v.fullyTraversedSubcases + {s + Paths(b)[i]}
    && w.events == v.events + Visit(Paths(b)[i])
    && AimsNext(w.nextSubcaseStack, s + [b.sig], b.inside, i)
  }

  lemma PathInside(b: Body, i: nat)
    requires b.Meet? && i < |Paths(b.inside)|
    ensures i < |Paths(b)| && Paths(b)[i] == [b.sig] + Paths(b.inside)[i]
    ensures Visit(Paths(b)[i]) == [SubcaseStart(b.sig)] + Visit(Paths(b.inside)[i]) + [SubcaseEnd]
  {
    assert ([b.sig] + Paths(b.inside)[i])[1..] == Paths(b.inside)[i];
  }

  lemma LeaveNode(v: View, w: View, s: Path, b: Body, i: nat)
    requires b.Meet? && Visited(v.Entered(b.sig), w, s + [b.sig], b.inside, i)
    ensures Inside(v, w.Left(), s, b, i)
  {
    hide Paths, Visit, AimsNext;
    PathInside(b, i);
    var p := Paths(b.inside)[i];
    assert s + [b.sig] + p == s + ([b.sig] + p);
    assert v.events + [SubcaseStart(b.sig)] + Visit(p) + [SubcaseEnd]
        == v.events + ([SubcaseStart(b.sig)] + Visit(p) + [SubcaseEnd]);
  }

  lemma InsideThenRest(v: View, w: View, s: Path, b: Body, n: Path, i: nat)
    requires Descending(v, s, b, n, i) && Inside(v, w, s, b, i) && Distinct(b)
    ensures Ascending(w, s, b.rest, Paths(b)[i])
  {
    assert Paths(b)[i] == [b.sig] + Paths(b.inside)[i];
    if b.rest.Meet? {
      UnseenNext(v.fullyTraversedSubcases, s, b, i);
      assert (s + [b.rest.sig])[|s|] != (s + Paths(b)[i])[|s|];
    }
  }

  lemma InsideAndRest(v: View, w: View, x: View, s: Path, b: Body, i: nat)
    requires Inside(v, w, s, b, i) && Passed(w, x, s, b.rest) && Distinct(b)
    ensures Visited(v, x, s, b, i)
  {
    NextAfterInside(w.nextSubcaseStack, x.nextSubcaseStack, s, b, i);
  }

  /** On the way down, a subcase that is not on the way. */
  lemma SkipBefore(v: View, s: Path, b: Body, n: Path, i: nat)
    requires b.Meet? && Descending(v, s, b, n, i) && Distinct(b) && n != [] && n[0] != b.sig
    ensures i >= |Paths(b.inside)| && b.rest.Meet? && Descending(v, s, b.rest, n, i - |Paths(b.inside)|)
  {
    UnseenRest(v.fullyTraversedSubcases, s, b, i);
  }

  lemma SkippedVisited(v: View, w: View, s: Path, b: Body, i: nat)
    requires b.Meet? && Distinct(b) && i >= |Paths(b.inside)| && Visited(v, w, s, b.rest, i - |Paths(b.inside)|)
    ensures Visited(v, w, s, b, i)
  {
    hide Visit, AimsNext, Distinct;
    NextAfterRest(w.nextSubcaseStack, s, b, i);
  }

  /** On the way back nothing is entered. */
  lemma SkipAfter(v: View, s: Path, b: Body, p: Path)
    requires b.Meet? && Ascending(v, s, b, p)
    ensures v.InBounds() && !v.Enters(b.sig) && Passed(v, v.NotEntered(b.sig), s, b)
    ensures Ascending(v.NotEntered(b.sig), s, b.rest, p) && v.NotEntered(b.sig).nextSubcaseStack != []
  {
    assert (s + p)[..|s|] == s;
  }

  lemma PassBoth(v: View, w: View, s: Path, b: Body)
    requires b.Meet? && v.InBounds() && Passed(v, v.NotEntered(b.sig), s, b)
    requires v.NotEntered(b.sig).nextSubcaseStack != [] && Passed(v.NotEntered(b.sig), w, s, b.rest)
    ensures Passed(v, w, s, b)
  {
  }

  // ----- running the test function

  ghost predicate Ready(v: View, s: Path, b: Body, n: Path, i: nat, p: Path) {
    Distinct(b) && if v.reachedLeaf then Ascending(v, s, b, p) else Descending(v, s, b, n, i)
  }

  ghost predicate Ran(v: View, w: View, s: Path, b: Body, i: nat) {
    if v.reachedLeaf then Passed(v, w, s, b)
    else if b.Done? then w == v
    else Visited(v, w, s, b, i)
  }

  /** On the way down to leaf i, a run of b at the level of s enters exactly the subcases of that leaf's
      path, and the goal left for the next run is the branch to leaf i + 1.  On the way back it enters
      nothing.  The stack is never looked up past its end. */
  lemma {:induction false} RunDown(v: View, s: Path, b: Body, n: Path, i: nat, p: Path)
    requires Ready(v, s, b, n, i, p)
    ensures Go(v, b).Through? && Ran(v, Go(v, b).v, s, b, i)
    decreases b
  {
    hide Inside, Visited, AimsNext;
    if b.Done? {
    } else if v.reachedLeaf {
      SkipAfter(v, s, b, p);
      RunDown(v.NotEntered(b.sig), s, b.rest, n, 0, p);
      PassBoth(v, Go(v, b).v, s, b);
    } else if n == [] || n[0] == b.sig {
      EnterInside(v, s, b, n, i);
      RunDown(v.Entered(b.sig), s + [b.sig], b.inside, if n == [] then [] else n[1..], i, p);
      var w := Go(v.Entered(b.sig), b.inside).v;
      if b.inside.Done? {
        LeaveLeaf(v, s, b, i);
      } else {
        LeaveNode(v, w, s, b, i);
      }
      InsideThenRest(v, w.Left(), s, b, n, i);
      RunDown(w.Left(), s, b.rest, n, 0, Paths(b)[i]);
      InsideAndRest(v, w.Left(), Go(v, b).v, s, b, i);
    } else {
      SkipBefore(v, s, b, n, i);
      RunDown(v, s, b.rest, n, i - |Paths(b.inside)|, p);
      SkippedVisited(v, Go(v, b).v, s, b, i);
    }
  }

  /** Number of subcases with no subcase inside. */
  function Leaves(b: Body): nat {
    match b
    case Done => 0
    case Meet(_, inside, rest) => (if inside.Done? then 1 else Leaves(inside)) + Leaves(rest)
  }

  lemma {:induction false} LeafCount(b: Body)
    ensures |Paths(b)| == if b.Done? then 1 else Leaves(b)
    ensures b.Meet? ==> Leaves(b) > 0
  {
    if !b.Meet? {
    } else {
      LeafCount(b.inside);
      LeafCount(b.rest);
    }
  }

  /** No two runs take the same path, nor one that goes on from another's. */
  lemma PathsApart(b: Body, i: nat, j: nat)
    requires Distinct(b) && i < j < |Paths(b)|
    ensures !(Paths(b)[i] <= Paths(b)[j]) && !(Paths(b)[j] <= Paths(b)[i])
  {
    AimsSelf(b, i);
    AimsSelf(b, j);
    if Paths(b)[i] <= Paths(b)[j] {
      LeafIsLast(b, i, j);
    } else if Paths(b)[j] <= Paths(b)[i] {
      LeafIsLast(b, j, i);
    }
  }

  lemma FirstStep(b: Body, i: nat)
    requires b.Meet? && Distinct(b) && i < |Paths(b)|
    ensures Paths(b)[i] != [] && (Paths(b)[i][0] == b.sig <==> i < |Paths(b.inside)|)
  {
    if i >= |Paths(b.inside)| {
      AimsSelf(b.rest, i - |Paths(b.inside)|);
    }
  }

  lemma {:induction false} LeafIsLast(b: Body, i: nat, j: nat)
    requires Distinct(b) && i < |Paths(b)| && j < |Paths(b)| && Paths(b)[i] <= Paths(b)[j]
    ensures i == j
  {
    if !b.Meet? {
    } else {
      var k := |Paths(b.inside)|;
      FirstStep(b, i);
      FirstStep(b, j);
      assert Paths(b)[i][0] == Paths(b)[j][0];
      if i < k {
        PathInside(b, i);
        PathInside(b, j);
        assert Paths(b)[i][1..] <= Paths(b)[j][1..];
        LeafIsLast(b.inside, i, j);
      } else {
        LeafIsLast(b.rest, i - k, j - k);
      }
    }
  }

  /** The events of the first n runs. */
  function Runs(b: Body, n: nat): seq<Event>
    requires n <= |Paths(b)|
  {
    if n == 0 then []
    else Runs(b, n - 1) + (if n == 1 then [] else [CaseReenter]) + Visit(Paths(b)[n - 1])
  }

  /** One run for each leaf, in preorder. */
  function Trace(b: Body): seq<Event> {
    [CaseStart] + Runs(b, |Paths(b)|) + [CaseEnd]
  }

  function Firsts(b: Body, n: nat): set<Path>
    requires n <= |Paths(b)|
  {
    set j | 0 <= j < n :: Paths(b)[j]
  }

  lemma FirstsUnseen(b: Body, i: nat)
    requires Distinct(b) && i < |Paths(b)|
    ensures Unseen(Firsts(b, i), [], b, i)
  {
    forall n, k | k > i && n != [] && Aims(b, n, k)
      ensures [] + n !in Firsts(b, i)
    {
      assert [] + n == n;
      if n in Firsts(b, i) {
        var j :| 0 <= j < i && Paths(b)[j] == n;
        AimsSelf(b, j);
        AimsUnique(b, n, j, k);
      }
    }
  }

  lemma FirstsSnoc(b: Body, i: nat)
    requires i < |Paths(b)|
    ensures Firsts(b, i + 1) == Firsts(b, i) + {[] + Paths(b)[i]}
  {
    assert [] + Paths(b)[i] == Paths(b)[i];
  }

  // ----- the loop over the runs

  /** The loop after some runs: a run has failed, a goal is left, or the loop has ended. */
  datatype Loop = Failed | Going(v: View) | Stopped(v: View, runs: nat)

  function Loops(v: View, b: Body, k: nat): Loop {
    if k == 0 then Going(v)
    else
      match Loops(v, b, k - 1)
      case Failed => Failed
      case Stopped(w, runs) => Stopped(w, runs)
      case Going(w) =>
        match Go(w.Reset(), b)
        case OutOfRange => Failed
        case Through(x) => if x.nextSubcaseStack == [] then Stopped(x.Told(CaseEnd), k) else Going(x.Told(CaseReenter))
  }

  /** A test case after at most k runs. */
  function TestCase(v: View, b: Body, k: nat): Loop {
    Loops(v.(fullyTraversedSubcases := {}).Told(CaseStart), b, k)
  }

  lemma {:induction false} Settled(v: View, b: Body, j: nat, k: nat)
    requires j <= k && !Loops(v, b, j).Going?
    ensures Loops(v, b, k) == Loops(v, b, j)
    decreases k
  {
    if j == k {
    } else {
      Settled(v, b, j, k - 1);
    }
  }

  function BeforeRun(b: Body, n: nat, more: bool): seq<Event>
    requires n <= |Paths(b)|
  {
    Runs(b, n) + if n > 0 && more then [CaseReenter] else []
  }

  lemma EventsSoFar(events0: seq<Event>, b: Body, n: nat, more: bool)
    requires n < |Paths(b)|
    ensures events0 + BeforeRun(b, n, true) + Visit(Paths(b)[n]) + (if more then [CaseReenter] else [])
         == events0 + BeforeRun(b, n + 1, more)
  {
    hide Visit, Paths;
  }

  lemma WholeTrace(events0: seq<Event>, b: Body)
    ensures events0 + [CaseStart] + BeforeRun(b, |Paths(b)|, false) + [CaseEnd] == events0 + Trace(b)
  {
    hide Runs, Paths;
  }

  lemma FirstGoal(b: Body)
    ensures BeforeRun(b, 0, true) == []
    ensures Aims(b, [], 0) && Firsts(b, 0) == {}
  {
  }

  /** What a run leaves behind for the next one. */
  lemma RunDone(v: View, w: View, b: Body, i: nat)
    requires i < |Paths(b)| && !v.reachedLeaf && Ran(v, w, [], b, i) && v.fullyTraversedSubcases == Firsts(b, i)
    requires Aims(b, v.nextSubcaseStack, i)
    ensures w.events == v.events + Visit(Paths(b)[i])
    ensures if i + 1 < |Paths(b)| then
              && w.nextSubcaseStack != [] && Aims(b, w.nextSubcaseStack, i + 1)
              && w.fullyTraversedSubcases == Firsts(b, i + 1)
            else w.nextSubcaseStack == []
  {
    FirstsSnoc(b, i);
    assert w.nextSubcaseStack[0..] == w.nextSubcaseStack;
  }

  /** With distinct siblings every run has its leaf, and the last leaf ends the loop. */
  lemma {:induction false} DistinctLoop(v: View, b: Body, k: nat)
    requires Distinct(b) && v.nextSubcaseStack == [] && v.fullyTraversedSubcases == {} && k <= |Paths(b)|
    ensures var l := Loops(v, b, k);
      if k < |Paths(b)| then
        && l.Going? && Aims(b, l.v.nextSubcaseStack, k) && l.v.fullyTraversedSubcases == Firsts(b, k)
        && l.v.events == v.events + BeforeRun(b, k, true)
      else
        && l.Stopped? && l.runs == k && l.v.nextSubcaseStack == []
        && l.v.events == v.events + BeforeRun(b, k, false) + [CaseEnd]
  {
    hide Go, Paths, Aims, Unseen, Runs, BeforeRun, Visit, Firsts, Ran, Distinct;
    if k == 0 {
      FirstGoal(b);
    } else {
      var i := k - 1;
      DistinctLoop(v, b, i);
      var w := Loops(v, b, i).v;
      var n := w.nextSubcaseStack;
      FirstsUnseen(b, i);
      assert [] + n == n;
      RunDown(w.Reset(), [], b, n, i, []);
      var x := Go(w.Reset(), b).v;
      RunDone(w.Reset(), x, b, i);
      EventsSoFar(v.events, b, i, x.nextSubcaseStack != []);
    }
  }

  lemma DistinctCase(v: View, b: Body, limit: nat)
    requires Distinct(b) && v.nextSubcaseStack == [] && limit >= |Paths(b)|
    ensures var l := TestCase(v, b, limit);
      l.Stopped? && l.runs == |Paths(b)| && l.v.nextSubcaseStack == [] && l.v.events == v.events + Trace(b)
  {
    hide Loops, Paths, Distinct, BeforeRun, Trace, Aims, Firsts;
    var w := v.(fullyTraversedSubcases := {}).Told(CaseStart);
    DistinctLoop(w, b, |Paths(b)|);
    Settled(w, b, |Paths(b)|, limit);
    WholeTrace(v.events, b);
  }

  // ----- only distinct siblings give one run per leaf

  /** Along the path no subcase has a later sibling of its own signature. */
  predicate Clean(b: Body, p: Path) {
    b.Meet? && p != [] ==>
      if p[0] == b.sig then !Among(b.sig, b.rest) && Clean(b.inside, p[1..]) else Clean(b.rest, p)
  }

  lemma {:induction false} CleanPaths(b: Body)
    requires forall i :: 0 <= i < |Paths(b)| ==> Clean(b, Paths(b)[i])
    ensures Distinct(b)
  {
    if b.Done? {
    } else {
      var k := |Paths(b.inside)|;
      forall i | 0 <= i < k
        ensures !Among(b.sig, b.rest) && Clean(b.inside, Paths(b.inside)[i])
      {
        PathInside(b, i);
        assert Clean(b, Paths(b)[i]) && Paths(b)[i][1..] == Paths(b.inside)[i];
      }
      assert !Among(b.sig, b.rest) by {
        assert Clean(b.inside, Paths(b.inside)[0]);
      }
      CleanPaths(b.inside);
      forall i | 0 <= i < |Paths(b.rest)|
        ensures Clean(b.rest, Paths(b.rest)[i])
      {
        if b.rest.Meet? {
          FirstAmong(b.rest, i);
          assert Paths(b)[k + i] == Paths(b.rest)[i];
        }
      }
      CleanPaths(b.rest);
    }
  }

  lemma {:induction false} FirstAmong(b: Body, i: nat)
    requires b.Meet? && i < |Paths(b)|
    ensures Paths(b)[i] != [] && Among(Paths(b)[i][0], b)
  {
    var k := |Paths(b.inside)|;
    if i < k {
      PathInside(b, i);
    } else {
      FirstAmong(b.rest, i - k);
    }
  }

  /** The events of a run. */
  function Happened(v: View, w: View): seq<Event>
    requires v.events <= w.events
  {
    w.events[|v.events|..]
  }

  /** What is told by a subcase that is entered, and after it. */
  lemma HappenedParts(v: View, sig: Signature, w: View, x: View)
    requires v.Entered(sig).events <= w.events && w.currentSubcaseDepth > 0 && w.Left().events <= x.events
    ensures v.events <= x.events
    ensures Happened(v, x) == [SubcaseStart(sig)] + Happened(v.Entered(sig), w) + [SubcaseEnd] + Happened(w.Left(), x)
  {
  }

  predicate Plain(e: seq<Event>) {
    forall i :: 0 <= i < |e| ==> e[i].SubcaseStart? || e[i].SubcaseEnd?
  }

  lemma NothingTold(v: View)
    ensures Happened(v, v) == [] && Plain([])
  {
  }

  lemma PlainParts(sig: Signature, e: seq<Event>, f: seq<Event>)
    requires Plain(e) && Plain(f)
    ensures Plain([SubcaseStart(sig)] + e + [SubcaseEnd] + f)
  {
  }

  /** First all subcases of the path begin, then all end. */
  lemma {:induction false} VisitAt(p: Path, i: nat)
    requires i < 2 * |p|
    ensures |Visit(p)| == 2 * |p| && Visit(p)[i] == if i < |p| then SubcaseStart(p[i]) else SubcaseEnd
  {
    VisitLength(p);
    if 0 < i < 2 * |p| - 1 {
      VisitLength(p[1..]);
      VisitAt(p[1..], i - 1);
    }
  }

  lemma {:induction false} VisitLength(p: Path)
    ensures |Visit(p)| == 2 * |p|
  {
    if p == [] {
    } else {
      VisitLength(p[1..]);
    }
  }

  /** If the events are those of a path, nothing was entered after the first end. */
  lemma VisitSplit(p: Path, sig: Signature, e: seq<Event>, f: seq<Event>)
    requires Visit(p) == [SubcaseStart(sig)] + e + [SubcaseEnd] + f && (f != [] ==> f[0].SubcaseStart?)
    ensures p != [] && p[0] == sig && f == [] && e == Visit(p[1..])
  {
    var k := |e| + 1;
    VisitLength(p);
    VisitAt(p, 0);
    VisitAt(p, k);
    assert Visit(p)[k] == SubcaseEnd;
    if f != [] {
      VisitAt(p, k + 1);
      assert false;
    }
    assert Visit(p)[1..|Visit(p)| - 1] == e;
    assert Visit(p)[1..|Visit(p)| - 1] == Visit(p[1..]);
  }

  /** Runs one after the other, with what is told between them. */
  function Joined(es: seq<seq<Event>>): seq<Event> {
    if es == [] then []
    else Joined(es[..|es| - 1]) + (if |es| == 1 then [] else [CaseReenter]) + es[|es| - 1]
  }

  predicate AllPlain(es: seq<seq<Event>>) {
    forall i :: 0 <= i < |es| ==> Plain(es[i])
  }

  /** What was told tells the runs apart. */
  lemma {:induction false} JoinedOnce(es: seq<seq<Event>>, fs: seq<seq<Event>>)
    requires es != [] && fs != [] && AllPlain(es) && AllPlain(fs) && Joined(es) == Joined(fs)
    ensures es == fs
    decreases |es|
  {
    var m, n := |es| - 1, |fs| - 1;
    var e, f, j := es[m], fs[n], Joined(es);
    var x, y := Joined(es[..m]), Joined(fs[..n]);
    assert es == es[..m] + [e] && fs == fs[..n] + [f];
    JoinedMore(es[..m], e);
    JoinedMore(fs[..n], f);
    NothingJoined();
    hide Joined;
    if m == 0 && n == 0 {
      assert es[..0] == [] && fs[..0] == [];
      assert j == e == f;
    } else if m == 0 {
      assert es[..0] == [] && e == j;
      NotBetween(e, y, f);
    } else if n == 0 {
      assert fs[..0] == [] && f == j;
      NotBetween(f, x, e);
    } else {
      SameLast(x, e, y, f);
      JoinedOnce(es[..m], fs[..n]);
    }
  }

  lemma NotBetween(e: seq<Event>, x: seq<Event>, f: seq<Event>)
    requires Plain(e)
    ensures e != x + [CaseReenter] + f
  {
    assert (x + [CaseReenter] + f)[|x|] == CaseReenter;
  }

  lemma NotLater(x: seq<Event>, e: seq<Event>, i: nat)
    requires Plain(e) && |x| < i <= |x| + |e|
    ensures (x + [CaseReenter] + e)[i] != CaseReenter
  {
    assert (x + [CaseReenter] + e)[i] == e[i - |x| - 1];
  }

  lemma SameLast(x: seq<Event>, e: seq<Event>, y: seq<Event>, f: seq<Event>)
    requires Plain(e) && Plain(f) && x + [CaseReenter] + e == y + [CaseReenter] + f
    ensures x == y && e == f
  {
    var j := x + [CaseReenter] + e;
    assert j[|x|] == CaseReenter && j[|y|] == CaseReenter;
    if |x| < |y| {
      NotLater(x, e, |y|);
      assert false;
    } else if |y| < |x| {
      NotLater(y, f, |x|);
      assert false;
    }
    assert x == j[..|x|] && e == j[|x| + 1..];
    assert y == j[..|x|] && f == j[|x| + 1..];
  }

  lemma NothingJoined()
    ensures Joined([]) == []
  {
  }

  lemma JoinedMore(es: seq<seq<Event>>, e: seq<Event>)
    ensures Joined(es + [e]) == Joined(es) + (if es == [] then [] else [CaseReenter]) + e
  {
    assert (es + [e])[..|es|] == es;
  }

  lemma TellMore(w: seq<Event>, x: seq<Event>, pre: seq<Event>, e: seq<Event>)
    requires w <= x && e == x[|w|..] && w == pre
    ensures x == pre + e
  {
  }

  lemma Regroup(a: seq<Event>, b: seq<Event>, c: seq<Event>, d: seq<Event>)
    ensures a + b + c + d == a + (b + c + d)
  {
  }

  function Visits(b: Body, n: nat): (es: seq<seq<Event>>)
    requires n <= |Paths(b)|
    ensures |es| == n && forall i :: 0 <= i < n ==> es[i] == Visit(Paths(b)[i])
  {
    seq(n, i requires 0 <= i < n => Visit(Paths(b)[i]))
  }

  lemma {:induction false} RunsJoined(b: Body, n: nat)
    requires n <= |Paths(b)|
    ensures Runs(b, n) == Joined(Visits(b, n)) && AllPlain(Visits(b, n))
  {
    hide Visit, Paths;
    if n == 0 {
    } else {
      RunsJoined(b, n - 1);
      assert Visits(b, n)[..n - 1] == Visits(b, n - 1);
      VisitPlain(Paths(b)[n - 1]);
    }
  }

  lemma {:induction false} VisitPlain(p: Path)
    ensures Plain(Visit(p))
  {
    if p == [] {
    } else {
      VisitPlain(p[1..]);
    }
  }

  lemma SameMiddle(pre: seq<Event>, v: seq<Event>, x: seq<Event>, y: seq<Event>)
    requires pre == v + [CaseStart] && pre + x + [CaseEnd] == v + ([CaseStart] + y + [CaseEnd])
    ensures x == y
  {
    assert v + ([CaseStart] + y + [CaseEnd]) == pre + y + [CaseEnd];
    assert (pre + x + [CaseEnd])[|pre|..|pre| + |x|] == x;
    assert |x| == |y|;
    assert (pre + y + [CaseEnd])[|pre|..|pre| + |y|] == y;
  }

  // ----- what happens otherwise

  lemma NextRun(v: View, b: Body, k: nat)
    requires k > 0 && Loops(v, b, k - 1).Going?
    ensures Loops(v, b, k) ==
      match Go(Loops(v, b, k - 1).v.Reset(), b)
      case OutOfRange => Failed
      case Through(x) => if x.nextSubcaseStack == [] then Stopped(x.Told(CaseEnd), k) else Going(x.Told(CaseReenter))
  {
  }

  /** Two leaves of one signature side by side are entered in the same run, which is the only one.  If the
      second has a subcase inside, the stack is looked up past its end. */
  lemma Twins(v: View, a: Signature, x: Signature)
    requires v.nextSubcaseStack == []
    ensures TestCase(v, Meet(a, Done, Meet(a, Meet(x, Done, Done), Done)), 1) == Failed
    ensures var l := TestCase(v, Meet(a, Done, Meet(a, Done, Done)), 1);
      && l.Stopped? && l.runs == 1
      && l.v.events == v.events + [CaseStart, SubcaseStart(a), SubcaseEnd, SubcaseStart(a), SubcaseEnd, CaseEnd]
  {
    var s := v.(fullyTraversedSubcases := {}).Told(CaseStart);
    NextRun(s, Meet(a, Done, Meet(a, Done, Done)), 1);
    NextRun(s, Meet(a, Done, Meet(a, Meet(x, Done, Done), Done)), 1);
    var u := s.Reset();
    var w := u.Entered(a).Left();
    assert Go(u.Entered(a), Done) == Through(u.Entered(a));
    assert w.Enters(a) && Go(w.Entered(a), Meet(x, Done, Done)) == OutOfRange;
    assert Go(w.Entered(a), Done) == Through(w.Entered(a));
    var one := Meet(a, Done, Done);
    assert Go(w.Entered(a).Left(), Done) == Through(w.Entered(a).Left());
    assert Go(w, one) == Through(w.Entered(a).Left());
    assert Go(u, Meet(a, Done, one)) == Through(w.Entered(a).Left());
    assert Go(w, Meet(a, Meet(x, Done, Done), Done)) == OutOfRange;
    assert Go(u, Meet(a, Done, Meet(a, Meet(x, Done, Done), Done))) == OutOfRange;
  }

  /** A tree for which the loop never ends: below the first of two siblings a there is x with a child y,
      and z with a child w; below the second there is x again. */
  function Restless(a: Signature, x: Signature, y: Signature, z: Signature, w: Signature): Body {
    Meet(a, Meet(x, Meet(y, Done, Done), Meet(z, Meet(w, Done, Done), Done)), Meet(a, Meet(x, Done, Done), Done))
  }

  /** The goal was x, or anything: the leaf y is reached, and z is the next goal. */
  lemma RunToY(v: View, a: Signature, x: Signature, y: Signature, z: Signature, w: Signature)
    requires x != z && (v.nextSubcaseStack == [] || v.nextSubcaseStack == [a, x])
    requires [a, z] !in v.fullyTraversedSubcases
    ensures var r := Go(v.Reset(), Restless(a, x, y, z, w));
      && r.Through? && r.v.nextSubcaseStack == [a, z]
      && r.v.fullyTraversedSubcases == v.fullyTraversedSubcases + {[a, x, y]}
  {
    var s1 := v.Reset().Entered(a).Entered(x);
    var s2 := s1.Entered(y).Left();
    LeafRun(s1, y);
    assert s1.Enters(y) && s2.subcaseStack == [a, x, y];
    var s3 := s2.Left();
    assert !s3.Enters(z);
    var s4 := s3.NotEntered(z);
    assert s3.subcaseStack[..1] + [z] == [a, z];
    assert s4.nextSubcaseStack == [a, z];
    var inside := Meet(x, Meet(y, Done, Done), Meet(z, Meet(w, Done, Done), Done));
    assert Go(s4, Done) == Through(s4);
    assert Go(s3, Meet(z, Meet(w, Done, Done), Done)) == Through(s4);
    assert v.Reset().Entered(a).Enters(x);
    assert Go(v.Reset().Entered(a), inside) == Through(s4);
    var s5 := s4.Left();
    TwinRun(s5, a, x);
    assert v.Reset().Enters(a);
    assert Go(v.Reset(), Restless(a, x, y, z, w)) == Go(s5, Meet(a, Meet(x, Done, Done), Done));
  }

  lemma LeafRun(v: View, sig: Signature)
    requires v.InBounds() && v.Enters(sig)
    ensures Go(v, Meet(sig, Done, Done)) == Through(v.Entered(sig).Left())
  {
    assert Go(v.Entered(sig), Done) == Through(v.Entered(sig));
  }

  /** The second a, on the way back from y: x is on the stack, and entered. */
  lemma TwinRun(v: View, a: Signature, x: Signature)
    requires v.reachedLeaf && v.currentSubcaseDepth == 0 && |v.subcaseStack| == 3 && v.subcaseStack[..2] == [a, x]
    requires v.nextSubcaseStack != []
    ensures var r := Go(v, Meet(a, Meet(x, Done, Done), Done));
      r.Through? && r.v.nextSubcaseStack == v.nextSubcaseStack && r.v.fullyTraversedSubcases == v.fullyTraversedSubcases
  {
    var u := v.Entered(a);
    assert v.subcaseStack[0] == a && v.subcaseStack[1] == x;
    LeafRun(u, x);
    var w := u.Entered(x).Left();
    assert Go(w.Left(), Done) == Through(w.Left());
  }

  /** The goal was z: the leaf w is reached, and the x below the second a is the next goal. */
  lemma RunToW(v: View, a: Signature, x: Signature, y: Signature, z: Signature, w: Signature)
    requires x != z && v.nextSubcaseStack == [a, z] && [a, x] !in v.fullyTraversedSubcases
    ensures var r := Go(v.Reset(), Restless(a, x, y, z, w));
      && r.Through? && r.v.nextSubcaseStack == [a, x]
      && r.v.fullyTraversedSubcases == v.fullyTraversedSubcases + {[a, z, w]}
  {
    var s0 := v.Reset().Entered(a);
    var s1 := s0.Entered(z);
    LeafRun(s1, w);
    var s2 := s1.Entered(w).Left();
    assert s2.subcaseStack == [a, z, w];
    var s3 := s2.Left();
    assert Go(s3, Done) == Through(s3);
    assert s0.Enters(z) && Go(s0, Meet(z, Meet(w, Done, Done), Done)) == Through(s3);
    assert !s0.Enters(x) && s0.NotEntered(x) == s0;
    var inside := Meet(x, Meet(y, Done, Done), Meet(z, Meet(w, Done, Done), Done));
    assert Go(s0, inside) == Through(s3);
    var s4 := s3.Left();
    var s5 := s4.Entered(a);
    assert s5.subcaseStack[..1] + [x] == [a, x];
    var s6 := s5.NotEntered(x);
    assert !s5.Enters(x) && s6.nextSubcaseStack == [a, x];
    assert Go(s6, Done) == Through(s6) && Go(s5, Meet(x, Done, Done)) == Through(s6);
    assert Go(s6.Left(), Done) == Through(s6.Left());
    assert s4.Enters(a) && Go(s4, Meet(a, Meet(x, Done, Done), Done)) == Through(s6.Left());
    assert v.Reset().Enters(a);
    assert Go(v.Reset(), Restless(a, x, y, z, w)) == Through(s6.Left());
  }

  /** With such a tree the loop goes on for ever, from one of two leaves to the other and back. */
  lemma {:induction false} NeverEnds(v: View, a: Signature, x: Signature, y: Signature, z: Signature, w: Signature,
                                     k: nat)
    requires x != z && v.nextSubcaseStack == []
    ensures var l := TestCase(v, Restless(a, x, y, z, w), k);
      && l.Going? && (forall p :: p in l.v.fullyTraversedSubcases ==> |p| == 3)
      && l.v.nextSubcaseStack == if k == 0 then [] else if k % 2 == 1 then [a, z] else [a, x]
  {
    hide Go, Restless;
    var s, b := v.(fullyTraversedSubcases := {}).Told(CaseStart), Restless(a, x, y, z, w);
    if k == 0 {
    } else {
      NeverEnds(v, a, x, y, z, w, k - 1);
      NextRun(s, b, k);
      var u := Loops(s, b, k - 1).v;
      assert |[a, z]| == 2 && |[a, x]| == 2;
      if k % 2 == 1 {
        RunToY(u, a, x, y, z, w);
      } else {
        RunToW(u, a, x, y, z, w);
      }
    }
  }
}
