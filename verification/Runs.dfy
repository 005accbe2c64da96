/** Runs of a machine that reads one block after another: `can(p, b)` says block b is what comes next
    at place p, `next(p, b)` is the place after it. */
module Runs {

  ghost predicate Run<P(!new), B(!new)>(can: (P, B) -> bool, next: (P, B) -> P, p: P, bs: seq<B>)
    decreases |bs|
  {
    bs == [] ||
    (Run(can, next, p, bs[..|bs| - 1]) && can(End(can, next, p, bs[..|bs| - 1]), bs[|bs| - 1]))
  }

  ghost function End<P(!new), B(!new)>(can: (P, B) -> bool, next: (P, B) -> P, p: P, bs: seq<B>): P
    decreases |bs|
  {
    if bs == [] then p else next(End(can, next, p, bs[..|bs| - 1]), bs[|bs| - 1])
  }

  lemma RunSnoc<P(!new), B(!new)>(can: (P, B) -> bool, next: (P, B) -> P, p: P, bs: seq<B>, b: B)
    requires Run(can, next, p, bs) && can(End(can, next, p, bs), b)
    ensures Run(can, next, p, bs + [b])
    ensures End(can, next, p, bs + [b]) == next(End(can, next, p, bs), b)
  {
    assert (bs + [b])[..|bs|] == bs;
  }

  lemma {:induction false} RunCons<P(!new), B(!new)>(can: (P, B) -> bool, next: (P, B) -> P, p: P, b: B, bs: seq<B>)
    requires can(p, b) && Run(can, next, next(p, b), bs)
    ensures Run(can, next, p, [b] + bs)
    ensures End(can, next, p, [b] + bs) == End(can, next, next(p, b), bs)
    decreases |bs|
  {
    if bs == [] {
      assert [b] + bs == [b] && [b][..0] == [];
    } else {
      var n := |bs| - 1;
      RunCons(can, next, p, b, bs[..n]);
      assert ([b] + bs)[..n + 1] == [b] + bs[..n];
    }
  }

  /** At most one block comes next anywhere. */
  ghost predicate Deterministic<P(!new), B(!new)>(can: (P, B) -> bool) {
    forall p, a, b :: can(p, a) && can(p, b) ==> a == b
  }

  /** The order le is kept by every step. */
  ghost predicate Progresses<P(!new), B(!new)>(can: (P, B) -> bool, next: (P, B) -> P, le: (P, P) -> bool) {
    && (forall p :: le(p, p))
    && (forall p, q, r :: le(p, q) && le(q, r) ==> le(p, r))
    && (forall p, b :: can(p, b) ==> le(p, next(p, b)))
  }

  /** A beginning of a run is a run, and what follows it in the run comes next. */
  lemma {:induction false} RunPrefix<P(!new), B(!new)>(can: (P, B) -> bool, next: (P, B) -> P, le: (P, P) -> bool, p: P,
                                                       bs: seq<B>, k: nat)
    requires Run(can, next, p, bs) && k <= |bs| && Progresses(can, next, le)
    ensures Run(can, next, p, bs[..k])
    ensures le(End(can, next, p, bs[..k]), End(can, next, p, bs))
    ensures k < |bs| ==> can(End(can, next, p, bs[..k]), bs[k])
    ensures k < |bs| ==> le(next(End(can, next, p, bs[..k]), bs[k]), End(can, next, p, bs))
    decreases |bs|
  {
    if k == |bs| {
      assert bs[..k] == bs;
    } else {
      var n := |bs| - 1;
      if k < n {
        RunPrefix(can, next, le, p, bs[..n], k);
        assert bs[..n][..k] == bs[..k];
      }
    }
  }

  /** A run ends no later than any run after which nothing comes next. */
  lemma {:induction false} RunIsPrefix<P(!new), B(!new)>(can: (P, B) -> bool, next: (P, B) -> P, le: (P, P) -> bool,
                                                         p: P, part: seq<B>, bs: seq<B>)
    requires Deterministic(can) && Progresses(can, next, le)
    requires Run(can, next, p, part) && Run(can, next, p, bs)
    requires forall b :: !can(End(can, next, p, bs), b)
    ensures part <= bs
    decreases |part|
  {
    if part == [] {
    } else {
      var n := |part| - 1;
      RunIsPrefix(can, next, le, p, part[..n], bs);
      assert part[..n] == bs[..n];
      assert bs[..|bs|] == bs;
      if n < |bs| {
        RunPrefix(can, next, le, p, bs, n);
        assert part[n] == bs[n];
        assert part == part[..n] + [part[n]];
        assert bs[..n + 1] == bs[..n] + [bs[n]];
      }
    }
  }
}
