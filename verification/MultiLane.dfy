/** The striped counter: each thread adds to a lane of its own, a load adds up the lanes one by one while
    other threads go on adding. */
module MultiLane {
  const LANES: nat := 32

  function Sum(s: seq<int>): int {
    if s == [] then 0 else s[0] + Sum(s[1..])
  }

  lemma {:induction false} SumSet(s: seq<int>, i: nat, arg: int)
    requires i < |s|
    ensures Sum(s[i := s[i] + arg]) == Sum(s) + arg
  {
    if i > 0 {
      SumSet(s[1..], i - 1, arg);
      assert s[i := s[i] + arg][1..] == s[1..][i - 1 := s[1..][i - 1] + arg];
    } else {
      assert s[i := s[i] + arg][1..] == s[1..];
    }
  }

  lemma {:induction false} SumSnoc(s: seq<int>, x: int)
    ensures Sum(s + [x]) == Sum(s) + x
  {
    if s == [] {
      assert Sum([x]) == x + Sum([]);
    } else {
      assert (s + [x])[1..] == s[1..] + [x];
      SumSnoc(s[1..], x);
    }
  }

  /** The lanes, and the lane each thread got when it first added. */
  datatype Shared = Shared(lanes: seq<int>, laneCounter: nat, laneOf: map<nat, nat>) {
    ghost predicate Valid() {
      |lanes| == LANES && forall t :: t in laneOf ==> laneOf[t] < LANES
    }

    function Total(): int {
      Sum(lanes)
    }

    /** The lane of a thread; a new thread gets the next one in turn. */
    function Assign(thread: nat): (s: Shared)
      requires Valid()
      ensures s.Valid() && s.lanes == lanes && thread in s.laneOf
      ensures s.laneOf == if thread in laneOf then laneOf else laneOf[thread := laneCounter % LANES]
    {
      if thread in laneOf then this
      else Shared(lanes, laneCounter + 1, laneOf[thread := laneCounter % LANES])
    }

    function FetchAdd(thread: nat, arg: int): (s: Shared)
      requires Valid()
      ensures s.Valid() && s.Total() == Total() + arg && s.laneOf == Assign(thread).laneOf
      ensures forall i :: 0 <= i < LANES && i != s.laneOf[thread] ==> s.lanes[i] == lanes[i]
    {
      var s := Assign(thread);
      var i := s.laneOf[thread];
      SumSet(lanes, i, arg);
      s.(lanes := lanes[i := lanes[i] + arg])
    }
  }

  // ----- interleavings

  /** A load in progress: the lanes before `next` have been added up. */
  datatype Load = Load(next: nat, result: int)

  datatype Step = Add(thread: nat, arg: int) | ReadLane

  datatype State = State(shared: Shared, load: Load) {
    ghost predicate Valid() {
      shared.Valid() && load.next <= LANES
    }

    function Next(step: Step): (s: State)
      requires Valid()
      ensures s.Valid()
    {
      match step
      case Add(thread, arg) => State(shared.FetchAdd(thread, arg), load)
      case ReadLane =>
        if load.next < LANES then State(shared, Load(load.next + 1, load.result + shared.lanes[load.next])) else this
    }

    /** What the load will return if nothing else happens. */
    function Promise(): int
      requires Valid()
    {
      load.result + Sum(shared.lanes[load.next..])
    }
  }

  function Run(s: State, steps: seq<Step>): (t: State)
    requires s.Valid()
    ensures t.Valid()
    decreases |steps|
  {
    if steps == [] then s else Run(s.Next(steps[0]), steps[1..])
  }

  /** What is added during the run. */
  function Added(steps: seq<Step>): int {
    if steps == [] then 0 else (if steps[0].Add? then steps[0].arg else 0) + Added(steps[1..])
  }

  /** What is added during the run to lanes that have not been read yet. */
  function Seen(s: State, steps: seq<Step>): int
    requires s.Valid()
    decreases |steps|
  {
    if steps == [] then 0
    else
      var now := match steps[0]
        case Add(thread, arg) => if s.shared.Assign(thread).laneOf[thread] >= s.load.next then arg else 0
        case ReadLane => 0;
      now + Seen(s.Next(steps[0]), steps[1..])
  }

  lemma FirstStep(s: State, step: Step, rest: seq<Step>)
    requires s.Valid()
    ensures Run(s, [step] + rest) == Run(s.Next(step), rest)
    ensures Seen(s, [step] + rest) == Seen(s.Next(step), rest) +
      if step.Add? && s.shared.Assign(step.thread).laneOf[step.thread] >= s.load.next then step.arg else 0
  {
    assert ([step] + rest)[1..] == rest;
  }

  /** One step keeps the promise, up to what it adds to the lanes still to be read. */
  lemma StepPromise(s: State, step: Step)
    requires s.Valid()
    ensures s.Next(step).Promise() == s.Promise() + Seen(s, [step])
  {
    FirstStep(s, step, []);
    assert [step] + [] == [step];
    hide Seen;
    match step
    case Add(thread, arg) => AddPromise(s, thread, arg);
    case ReadLane => ReadPromise(s);
  }

  lemma AddPromise(s: State, thread: nat, arg: int)
    requires s.Valid()
    ensures s.Next(Add(thread, arg)).Promise() ==
      s.Promise() + if s.shared.Assign(thread).laneOf[thread] >= s.load.next then arg else 0
  {
    hide Sum;
    var lanes, k := s.shared.lanes, s.load.next;
    var i := s.shared.Assign(thread).laneOf[thread];
    if i >= k {
      SumSet(lanes[k..], i - k, arg);
      assert lanes[i := lanes[i] + arg][k..] == lanes[k..][i - k := lanes[k..][i - k] + arg];
    } else {
      assert lanes[i := lanes[i] + arg][k..] == lanes[k..];
    }
  }

  lemma ReadPromise(s: State)
    requires s.Valid()
    ensures s.Next(ReadLane).Promise() == s.Promise()
  {
    var lanes, k := s.shared.lanes, s.load.next;
    if k < LANES {
      assert lanes[k..][1..] == lanes[k + 1..];
    }
  }

  lemma {:induction false} RunPromise(s: State, steps: seq<Step>)
    requires s.Valid()
    ensures Run(s, steps).Promise() == s.Promise() + Seen(s, steps)
    ensures Run(s, steps).shared.Total() == s.shared.Total() + Added(steps)
    decreases |steps|
  {
    if steps == [] {
    } else {
      StepPromise(s, steps[0]);
      FirstStep(s, steps[0], []);
      assert [steps[0]] + [] == [steps[0]];
      RunPromise(s.Next(steps[0]), steps[1..]);
    }
  }

  /** A load returns the total at its start and whatever was added, while it ran, to a lane it had not
      read yet; the total at its end counts everything that was added. */
  lemma LoadReturns(s: State, steps: seq<Step>)
    requires s.Valid() && s.load == Load(0, 0) && Run(s, steps).load.next == LANES
    ensures Run(s, steps).load.result == s.shared.Total() + Seen(s, steps)
    ensures Run(s, steps).shared.Total() == s.shared.Total() + Added(steps)
  {
    RunPromise(s, steps);
    assert s.shared.lanes[0..] == s.shared.lanes;
  }

  ghost predicate Increments(steps: seq<Step>) {
    forall i :: 0 <= i < |steps| && steps[i].Add? ==> steps[i].arg >= 0
  }

  lemma {:induction false} SeenBounds(s: State, steps: seq<Step>)
    requires s.Valid() && Increments(steps)
    ensures 0 <= Seen(s, steps) <= Added(steps)
    decreases |steps|
  {
    if steps == [] {
    } else {
      SeenBounds(s.Next(steps[0]), steps[1..]);
    }
  }

  /** While threads only count up, a load is between the total at its start and the total at its end;
      with no increment in between it is the total. */
  lemma LoadBetween(s: State, steps: seq<Step>)
    requires s.Valid() && s.load == Load(0, 0) && Run(s, steps).load.next == LANES && Increments(steps)
    ensures s.shared.Total() <= Run(s, steps).load.result <= Run(s, steps).shared.Total()
    ensures Added(steps) == 0 ==> Run(s, steps).load.result == s.shared.Total() == Run(s, steps).shared.Total()
  {
    LoadReturns(s, steps);
    SeenBounds(s, steps);
  }

  // ----- lanes of one's own

  /** The threads in the order in which they first added; each got the lane whose turn it was. */
  ghost predicate InTurn(s: Shared, order: seq<nat>) {
    && |order| == s.laneCounter
    && (forall i, j :: 0 <= i < j < |order| ==> order[i] != order[j])
    && (forall t :: t in s.laneOf <==> t in order)
    && (forall k :: 0 <= k < |order| ==> order[k] in s.laneOf && s.laneOf[order[k]] == k % LANES)
  }

  lemma AddInTurn(s: Shared, order: seq<nat>, thread: nat, arg: int) returns (order': seq<nat>)
    requires s.Valid() && InTurn(s, order)
    ensures InTurn(s.FetchAdd(thread, arg), order')
  {
    order' := if thread in s.laneOf then order else order + [thread];
    var n := |order|;
    assert thread !in s.laneOf ==> order'[n] == thread && forall k :: 0 <= k < n ==> order'[k] == order[k];
  }

  lemma {:induction false} RunInTurn(s: State, order: seq<nat>, steps: seq<Step>) returns (order': seq<nat>)
    requires s.Valid() && InTurn(s.shared, order)
    ensures InTurn(Run(s, steps).shared, order')
    decreases |steps|
  {
    order' := order;
    if steps == [] {
    } else {
      if steps[0].Add? {
        order' := AddInTurn(s.shared, order, steps[0].thread, steps[0].arg);
      }
      order' := RunInTurn(s.Next(steps[0]), order', steps[1..]);
    }
  }

  /** As long as there are no more threads than lanes, no two threads share one, in any run. */
  lemma OwnLanes(s: State, steps: seq<Step>, t: nat, u: nat)
    requires s.Valid() && s.shared.laneOf == map[] && s.shared.laneCounter == 0
    ensures var after := Run(s, steps).shared;
      |after.laneOf| == after.laneCounter
      && (after.laneCounter <= LANES && t != u && t in after.laneOf && u in after.laneOf ==>
            after.laneOf[t] != after.laneOf[u])
  {
    hide Run;
    var order := RunInTurn(s, [], steps);
    var after := Run(s, steps).shared;
    ThreadCount(after.laneOf, order);
    LanesApart(after, order, t, u);
  }

  lemma LanesApart(s: Shared, order: seq<nat>, t: nat, u: nat)
    requires InTurn(s, order)
    ensures s.laneCounter <= LANES && t != u && t in s.laneOf && u in s.laneOf ==> s.laneOf[t] != s.laneOf[u]
  {
    if s.laneCounter <= LANES && t != u && t in s.laneOf && u in s.laneOf {
      var i :| 0 <= i < |order| && order[i] == t;
      var j :| 0 <= j < |order| && order[j] == u;
      assert i % LANES == i && j % LANES == j;
    }
  }

  lemma {:induction false} ThreadCount(m: map<nat, nat>, order: seq<nat>)
    requires forall i, j :: 0 <= i < j < |order| ==> order[i] != order[j]
    requires forall t :: t in m <==> t in order
    ensures |m| == |order|
    decreases |order|
  {
    if order == [] {
      assert m == map[];
    } else {
      var n := |order| - 1;
      var last := order[n];
      assert last in m;
      var rest := m - {last};
      forall t
        ensures t in rest <==> t in order[..n]
      {
        if t in order[..n] {
          assert t in order;
        }
      }
      ThreadCount(rest, order[..n]);
      assert m == rest[last := m[last]];
    }
  }

  // ----- subtraction

  /** The amounts each thread adds, in its program order; negative ones are subtracted. */
  type Program = seq<seq<int>>

  /** A beginning of an interleaving of the threads and one load. */
  predicate Begins(steps: seq<Step>, prog: Program) {
    steps == [] ||
    match steps[0]
    case ReadLane => Begins(steps[1..], prog)
    case Add(t, arg) =>
      t < |prog| && prog[t] != [] && prog[t][0] == arg && Begins(steps[1..], prog[t := prog[t][1..]])
  }

  /** The load lies between the totals before and after, whichever is the larger. */
  ghost predicate Within(s: State, r: State) {
    || s.shared.Total() <= r.load.result <= r.shared.Total()
    || r.shared.Total() <= r.load.result <= s.shared.Total()
  }

  /** Whenever a load called in state s has been completed, and returns sooner or later, it lies between the
      totals at its call and at its return. */
  ghost predicate AlwaysWithin(s: State, prog: Program)
    requires s.Valid()
  {
    forall steps :: Begins(steps, prog) && Run(s, steps).load.next == LANES ==> Within(s, Run(s, steps))
  }

  ghost predicate NoneBelow(prog: Program) {
    forall t, k :: 0 <= t < |prog| && 0 <= k < |prog[t]| ==> prog[t][k] >= 0
  }

  ghost predicate NoneAbove(prog: Program) {
    forall t, k :: 0 <= t < |prog| && 0 <= k < |prog[t]| ==> prog[t][k] <= 0
  }

  // What a load sees

  predicate Cuts(prog: Program, ks: seq<nat>) {
    |ks| == |prog| && forall t :: 0 <= t < |prog| ==> ks[t] <= |prog[t]|
  }

  /** What each thread adds with its first ks[t] amounts. */
  function Parts(prog: Program, ks: seq<nat>): (s: seq<int>)
    requires Cuts(prog, ks)
    ensures |s| == |prog| && forall t :: 0 <= t < |prog| ==> s[t] == Sum(prog[t][..ks[t]])
  {
    seq(|prog|, t requires 0 <= t < |prog| => Sum(prog[t][..ks[t]]))
  }

  /** The lane of thread t has been read. */
  predicate LaneRead(s: State, t: nat) {
    t in s.shared.laneOf && s.shared.laneOf[t] < s.load.next
  }

  /** Of each thread, the first done[t] amounts are added and the first ks[t] are seen by the load: those up to
      the moment the thread's lane is read. */
  lemma {:induction false} SeenParts(s: State, steps: seq<Step>, prog: Program) returns (ks: seq<nat>, done: seq<nat>)
    requires s.Valid() && Begins(steps, prog)
    ensures Cuts(prog, ks) && Cuts(prog, done) && forall t :: 0 <= t < |prog| ==> ks[t] <= done[t]
    ensures Seen(s, steps) == Sum(Parts(prog, ks)) && Added(steps) == Sum(Parts(prog, done))
    ensures forall t: nat :: t < |prog| && LaneRead(s, t) ==> ks[t] == 0
    decreases |steps|
  {
    if steps == [] {
      ks := seq<nat>(|prog|, _ => 0);
      done := ks;
      Zeros(Parts(prog, ks));
    } else {
      match steps[0]
      case ReadLane =>
        ks, done := SeenParts(s.Next(ReadLane), steps[1..], prog);
      case Add(t, arg) =>
        var js, before := SeenParts(s.Next(steps[0]), steps[1..], prog[t := prog[t][1..]]);
        done := before[t := before[t] + 1];
        OnePart(prog, done, before, t);
        if s.shared.Assign(t).laneOf[t] >= s.load.next {
          ks := js[t := js[t] + 1];
          OnePart(prog, ks, js, t);
        } else {
          ks := js;
          assert LaneRead(s.Next(steps[0]), t);
          NoPart(prog, ks, t);
        }
    }
  }

  lemma NoPart(prog: Program, ks: seq<nat>, t: nat)
    requires t < |prog| && prog[t] != [] && Cuts(prog[t := prog[t][1..]], ks) && ks[t] == 0
    ensures Cuts(prog, ks) && Parts(prog, ks) == Parts(prog[t := prog[t][1..]], ks)
  {
    var rest := prog[t := prog[t][1..]];
    assert prog[t][..0] == rest[t][..0];
  }

  lemma OnePart(prog: Program, ks: seq<nat>, js: seq<nat>, t: nat)
    requires t < |prog| && prog[t] != [] && Cuts(prog[t := prog[t][1..]], js) && ks == js[t := js[t] + 1]
    ensures Cuts(prog, ks) && Sum(Parts(prog, ks)) == prog[t][0] + Sum(Parts(prog[t := prog[t][1..]], js))
  {
    var rest := prog[t := prog[t][1..]];
    assert prog[t][..ks[t]][1..] == rest[t][..js[t]];
    SumSet(Parts(rest, js), t, prog[t][0]);
    assert Parts(prog, ks) == Parts(rest, js)[t := Parts(rest, js)[t] + prog[t][0]];
  }

  // One direction only: the load stays within

  lemma {:induction false} OnlyUp(steps: seq<Step>, prog: Program)
    requires Begins(steps, prog) && NoneBelow(prog)
    ensures Increments(steps)
  {
    if steps == [] {
    } else {
      var rest := if steps[0].Add? then prog[steps[0].thread := prog[steps[0].thread][1..]] else prog;
      OnlyUp(steps[1..], rest);
      assert forall i :: 0 < i < |steps| ==> steps[i] == steps[1..][i - 1];
    }
  }

  lemma {:induction false} SeenDown(s: State, steps: seq<Step>, prog: Program)
    requires s.Valid() && Begins(steps, prog) && NoneAbove(prog)
    ensures Added(steps) <= Seen(s, steps) <= 0
    decreases |steps|
  {
    if steps == [] {
    } else {
      var rest := if steps[0].Add? then prog[steps[0].thread := prog[steps[0].thread][1..]] else prog;
      SeenDown(s.Next(steps[0]), steps[1..], rest);
    }
  }

  lemma OneWayWithin(s: State, prog: Program, steps: seq<Step>)
    requires s.Valid() && s.load == Load(0, 0) && (NoneBelow(prog) || NoneAbove(prog))
    requires Begins(steps, prog) && Run(s, steps).load.next == LANES
    ensures Within(s, Run(s, steps))
  {
    hide Seen, Added, Begins, Run, NoneBelow, NoneAbove, Increments;
    LoadReturns(s, steps);
    if NoneBelow(prog) {
      OnlyUp(steps, prog);
      SeenBounds(s, steps);
    } else {
      SeenDown(s, steps, prog);
    }
  }

  // Both directions: some amounts, a whole load, and an amount of the other sign

  function AddsOf(t: nat, list: seq<int>): seq<Step> {
    if list == [] then [] else [Add(t, list[0])] + AddsOf(t, list[1..])
  }

  function Reads(n: nat): seq<Step> {
    if n == 0 then [] else [ReadLane] + Reads(n - 1)
  }

  /** Additions by one thread, before a load reads anything or after it has read everything. */
  lemma {:induction false} AddsRun(s: State, t: nat, list: seq<int>, rest: seq<Step>)
    requires s.Valid() && s.load.next in {0, LANES}
    ensures var r := Run(s, AddsOf(t, list));
      && r.load == s.load && Run(s, AddsOf(t, list) + rest) == Run(r, rest)
      && Seen(s, AddsOf(t, list) + rest) == (if s.load.next == 0 then Sum(list) else 0) + Seen(r, rest)
    ensures Added(AddsOf(t, list) + rest) == Sum(list) + Added(rest)
    decreases |list|
  {
    if list == [] {
      assert [] + rest == rest;
    } else {
      hide Seen;
      var step, more := Add(t, list[0]), AddsOf(t, list[1..]);
      AddsRun(s.Next(step), t, list[1..], rest);
      assert ([step] + more) + rest == [step] + (more + rest);
      assert ([step] + more)[1..] == more && ([step] + (more + rest))[1..] == more + rest;
      FirstStep(s, step, more + rest);
    }
  }

  lemma {:induction false} ReadsRun(s: State, n: nat, rest: seq<Step>)
    requires s.Valid() && s.load.next + n == LANES
    ensures var r := Run(s, Reads(n));
      r.load.next == LANES && Run(s, Reads(n) + rest) == Run(r, rest) && Seen(s, Reads(n) + rest) == Seen(r, rest)
    ensures Added(Reads(n) + rest) == Added(rest)
    decreases n
  {
    if n == 0 {
      assert [] + rest == rest;
    } else {
      hide Seen;
      ReadsRun(s.Next(ReadLane), n - 1, rest);
      assert ([ReadLane] + Reads(n - 1)) + rest == [ReadLane] + (Reads(n - 1) + rest);
      assert ([ReadLane] + Reads(n - 1))[1..] == Reads(n - 1);
      assert ([ReadLane] + (Reads(n - 1) + rest))[1..] == Reads(n - 1) + rest;
      FirstStep(s, ReadLane, Reads(n - 1) + rest);
    }
  }

  lemma {:induction false} AddsBegin(t: nat, list: seq<int>, k: nat, rest: seq<Step>, prog: Program)
    requires t < |prog| && prog[t] == list && k <= |list| && Begins(rest, prog[t := list[k..]])
    ensures Begins(AddsOf(t, list[..k]) + rest, prog)
    decreases k
  {
    if k == 0 {
      assert [] + rest == rest && prog[t := list[0..]] == prog;
    } else {
      var next := prog[t := list[1..]];
      assert next[t := list[1..][k - 1..]] == prog[t := list[k..]];
      AddsBegin(t, list[1..], k - 1, rest, next);
      assert list[..k][1..] == list[1..][..k - 1];
      var step, more := Add(t, list[0]), AddsOf(t, list[1..][..k - 1]);
      assert ([step] + more) + rest == [step] + (more + rest);
    }
  }

  lemma {:induction false} ReadsBegin(n: nat, rest: seq<Step>, prog: Program)
    requires Begins(rest, prog)
    ensures Begins(Reads(n) + rest, prog)
  {
    if n == 0 {
      assert [] + rest == rest;
    } else {
      ReadsBegin(n - 1, rest, prog);
      assert ([ReadLane] + Reads(n - 1)) + rest == [ReadLane] + (Reads(n - 1) + rest);
    }
  }

  /** Thread u adds its first m amounts, a load reads all lanes, thread t adds its next n amounts. */
  function Around(prog: Program, u: nat, m: nat, t: nat, n: nat): seq<Step>
    requires u < |prog| && t < |prog| && m <= |prog[u]| && n <= |prog[u := prog[u][m..]][t]|
  {
    AddsOf(u, prog[u][..m]) + (Reads(LANES) + AddsOf(t, prog[u := prog[u][m..]][t][..n]))
  }

  lemma AroundLoad(s: State, prog: Program, u: nat, m: nat, t: nat, n: nat)
    requires s.Valid() && s.load == Load(0, 0)
    requires u < |prog| && t < |prog| && m <= |prog[u]| && n <= |prog[u := prog[u][m..]][t]|
    ensures var r := Run(s, Around(prog, u, m, t, n));
      var first, second := Sum(prog[u][..m]), Sum(prog[u := prog[u][m..]][t][..n]);
      && Begins(Around(prog, u, m, t, n), prog) && r.load.next == LANES
      && r.load.result == s.shared.Total() + first && r.shared.Total() == s.shared.Total() + first + second
  {
    hide Run, Seen, Added, Begins, Sum, AddsOf, Reads;
    var rest := prog[u := prog[u][m..]];
    var first, second := prog[u][..m], rest[t][..n];
    var last := AddsOf(t, second);
    assert last + [] == last;
    NoSteps(s, rest[t := rest[t][n..]]);
    AddsBegin(t, rest[t], n, [], rest);
    ReadsBegin(LANES, last, rest);
    AddsBegin(u, prog[u], m, Reads(LANES) + last, prog);
    AddsRun(s, u, first, Reads(LANES) + last);
    var r0 := Run(s, AddsOf(u, first));
    ReadsRun(r0, LANES, last);
    var r1 := Run(r0, Reads(LANES));
    AddsRun(r1, t, second, []);
    NoSteps(Run(r1, last), prog);
    LoadReturns(s, Around(prog, u, m, t, n));
  }

  lemma NoSteps(s: State, prog: Program)
    requires s.Valid()
    ensures Run(s, []) == s && Seen(s, []) == 0 && Added([]) == 0 && Begins([], prog)
  {
  }

  lemma TurnShows(s: State, prog: Program, u: nat, m: nat, t: nat, n: nat)
    requires s.Valid() && s.load == Load(0, 0)
    requires u < |prog| && t < |prog| && m <= |prog[u]| && n <= |prog[u := prog[u][m..]][t]|
    requires var first, second := Sum(prog[u][..m]), Sum(prog[u := prog[u][m..]][t][..n]);
      first < 0 < second || second < 0 < first
    ensures !AlwaysWithin(s, prog)
  {
    hide Run, Begins, Sum, Around;
    AroundLoad(s, prog, u, m, t, n);
    assert !Within(s, Run(s, Around(prog, u, m, t, n)));
  }

  lemma {:induction false} SumUp(list: seq<int>)
    requires forall i :: 0 <= i < |list| ==> list[i] >= 0
    ensures Sum(list) >= 0
    ensures forall i :: 0 <= i < |list| ==> list[i] <= Sum(list)
  {
    if list == [] {
    } else {
      var rest := list[1..];
      assert forall i :: 0 <= i < |rest| ==> rest[i] == list[i + 1];
      SumUp(rest);
      assert forall i :: 1 <= i < |list| ==> list[i] == rest[i - 1];
    }
  }

  lemma {:induction false} SumDown(list: seq<int>)
    requires forall i :: 0 <= i < |list| ==> list[i] <= 0
    ensures Sum(list) <= 0
    ensures forall i :: 0 <= i < |list| ==> Sum(list) <= list[i]
  {
    if list == [] {
    } else {
      var rest := list[1..];
      assert forall i :: 0 <= i < |rest| ==> rest[i] == list[i + 1];
      SumDown(rest);
      assert forall i :: 1 <= i < |list| ==> list[i] == rest[i - 1];
    }
  }

  /** Just the first amount of a list, or all up to a place. */
  lemma SumTo(list: seq<int>, k: nat)
    requires k < |list|
    ensures Sum(list[k..][..1]) == list[k]
    ensures Sum(list[..k + 1]) == Sum(list[..k]) + list[k]
  {
    assert list[k..][..1] == [list[k]];
    assert [list[k]][1..] == [];
    assert list[..k + 1] == list[..k] + [list[k]];
    SumSnoc(list[..k], list[k]);
  }

  lemma {:induction false} FirstBelow(list: seq<int>, k: nat) returns (j: nat)
    requires k < |list| && list[k] < 0
    ensures j <= k && list[j] < 0 && forall i :: 0 <= i < j ==> list[i] >= 0
  {
    if i: nat :| i < k && list[i] < 0 {
      j := FirstBelow(list, i);
    } else {
      j := k;
    }
  }

  lemma {:induction false} FirstAbove(list: seq<int>, k: nat) returns (j: nat)
    requires k < |list| && list[k] > 0
    ensures j <= k && list[j] > 0 && forall i :: 0 <= i < j ==> list[i] <= 0
  {
    if i: nat :| i < k && list[i] > 0 {
      j := FirstAbove(list, i);
    } else {
      j := k;
    }
  }

  /** A thread that both adds and subtracts has done the one when it first does the other. */
  lemma OneTurns(list: seq<int>, k: nat, j: nat)
    requires k < |list| && list[k] < 0 && forall i :: 0 <= i < k ==> list[i] >= 0
    requires j < |list| && list[j] > 0 && forall i :: 0 <= i < j ==> list[i] <= 0
    ensures Sum(list[..k]) > 0 || Sum(list[..j]) < 0
  {
    hide Sum;
    if k < j {
      SumDown(list[..j]);
      assert list[..j][k] < 0;
    } else {
      SumUp(list[..k]);
      assert list[..k][j] > 0;
    }
  }

  /** A negative and a positive amount, in one thread or in two, let a load leave the interval. */
  lemma BothWaysShow(s: State, prog: Program)
    requires s.Valid() && s.load == Load(0, 0) && !NoneBelow(prog) && !NoneAbove(prog)
    ensures !AlwaysWithin(s, prog)
  {
    hide Sum, AlwaysWithin;
    var t: nat, k: nat :| t < |prog| && k < |prog[t]| && prog[t][k] < 0;
    var u: nat, j: nat :| u < |prog| && j < |prog[u]| && prog[u][j] > 0;
    k := FirstBelow(prog[t], k);
    j := FirstAbove(prog[u], j);
    var up, down := prog[t][..k], prog[u][..j];
    SumUp(up);
    SumDown(down);
    SumTo(prog[t], k);
    SumTo(prog[u], j);
    if t == u {
      OneTurns(prog[t], k, j);
    }
    if Sum(up) > 0 {
      TurnShows(s, prog, t, k, t, 1);
    } else if Sum(down) < 0 {
      TurnShows(s, prog, u, j, u, 1);
    } else {
      TurnShows(s, prog, u, j + 1, t, k + 1);
    }
  }

  /** The exact condition: whatever the interleaving, a load lies between the totals at its call and at its
      return if and only if the threads do not both add and subtract. */
  lemma WithinExactly(s: State, prog: Program)
    requires s.Valid() && s.load == Load(0, 0)
    ensures AlwaysWithin(s, prog) <==> NoneBelow(prog) || NoneAbove(prog)
  {
    if NoneBelow(prog) || NoneAbove(prog) {
      forall steps | Begins(steps, prog) && Run(s, steps).load.next == LANES
        ensures Within(s, Run(s, steps))
      {
        OneWayWithin(s, prog, steps);
      }
    } else {
      BothWaysShow(s, prog);
    }
  }

  /** One thread doing 1, -1 and 5: a load between the first two returns one more than the total is, both when
      it is called and when it returns. */
  lemma BothSigns(s: State)
    requires s.Valid() && s.load == Load(0, 0)
    ensures var steps := [Add(0, 1)] + (Reads(LANES) + [Add(0, -1)]);
      var r := Run(s, steps);
      && Begins(steps, [[1, -1, 5]]) && r.load.next == LANES
      && r.load.result == s.shared.Total() + 1 && r.shared.Total() == s.shared.Total()
  {
    hide Run, Reads, Begins;
    var list: seq<int> := [1, -1, 5];
    var prog: Program := [list];
    AroundLoad(s, prog, 0, 1, 0, 1);
    assert prog[0][..1] == [1] && prog[0 := prog[0][1..]][0][..1] == [-1];
    OneAmount(1);
    OneAmount(-1);
  }

  lemma OneAmount(x: int)
    ensures Sum([x]) == x && forall t: nat :: AddsOf(t, [x]) == [Add(t, x)]
  {
    assert [x][1..] == [];
    forall t: nat
      ensures AddsOf(t, [x]) == [Add(t, x)]
    {
      assert AddsOf(t, [x][1..]) == [];
    }
  }

  // ----- one thread alone

  class MultiLaneAtomic {
    const atomics: array<int>

    ghost predicate Valid() {
      atomics.Length == LANES
    }

    constructor ()
      ensures Valid() && fresh(atomics) && Sum(atomics[..]) == 0
    {
      atomics := new int[LANES](_ => 0);
      new;
      Zeros(atomics[..]);
    }

    method FetchAdd(lane: nat, arg: int) returns (was: int)
      requires Valid() && lane < LANES
      modifies atomics
      ensures was == old(atomics[lane]) && atomics[..] == old(atomics[..])[lane := was + arg]
      ensures Sum(atomics[..]) == old(Sum(atomics[..])) + arg
    {
      was := atomics[lane];
      SumSet(atomics[..], lane, arg);
      ghost var before := atomics[..];
      atomics[lane] := was + arg;
      assert atomics[..] == before[lane := before[lane] + arg];
    }

    method Load() returns (result: int)
      requires Valid()
      ensures result == Sum(atomics[..])
    {
      result := 0;
      for i := 0 to atomics.Length
        invariant result == Sum(atomics[..i])
      {
        SumSnoc(atomics[..i], atomics[i]);
        assert atomics[..i + 1] == atomics[..i] + [atomics[i]];
        result := result + atomics[i];
      }
      assert atomics[..atomics.Length] == atomics[..];
    }

    /** The first lane becomes the value, all others zero. */
    method Store(value: int)
      requires Valid()
      modifies atomics
      ensures Sum(atomics[..]) == value
    {
      var desired := value;
      for i := 0 to atomics.Length
        invariant desired == if i == 0 then value else 0
        invariant i > 0 ==> atomics[0] == value && forall k :: 0 < k < i ==> atomics[k] == 0
      {
        atomics[i] := desired;
        desired := 0;
      }
      Zeros(atomics[..][1..]);
    }
  }

  lemma {:induction false} Zeros(s: seq<int>)
    requires forall i :: 0 <= i < |s| ==> s[i] == 0
    ensures Sum(s) == 0
  {
    if s == [] {
    } else {
      Zeros(s[1..]);
    }
  }
}
