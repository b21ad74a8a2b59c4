/**
 * What the join path executor of MonetDB5/optimizer/opt_joinpath.c
 * (ALGjoinPathBody) computes, round by round, as a function of the
 * operand list: pick the cheapest adjacent pair, run the join kernel on
 * it, and either splice the result in or postpone the pair.
 *
 * Reference counting is bookkeeping: every handle the executor gives up
 * (BBPdecref, BBPreleaseref) is appended to `released`, every BAT a
 * kernel builds to `created`.
 */
module PathRun {
  import opened Util
  import opened JoinCost

  datatype JoinOp = LeftJoinOp | InnerJoinOp | SemiJoinOp

  /**
   * The join kernels BATleftjoin, BATjoin and BATsemijoin as an oracle:
   * given the operator, both operands and the size hint it yields a new
   * BAT or nothing (NULL, for instance on a Cartesian blow-up).
   */
  type Kernel = (JoinOp, Bat, Bat, nat) -> Option<Bat>

  /** The kernel used for pair j of a path (the switch of lines 465-476):
      only pair 0 of a left join path uses the left join; flag 0 at j > 0
      falls through to the plain join. */
  function KernelOp(kind: PathKind, j: nat): (op: JoinOp)
    ensures op == LeftJoinOp <==> kind == LeftPath && j == 0
    ensures op == SemiJoinOp <==> kind == SemiPath
    ensures op == InnerJoinOp <==> kind == InnerPath || (kind == LeftPath && j > 0)
  {
    match kind
    case LeftPath => if j == 0 then LeftJoinOp else InnerJoinOp
    case InnerPath => InnerJoinOp
    case SemiPath => SemiJoinOp
  }

  /** The size hint passed to the kernel; BATsemijoin takes none (0 here). */
  function SizeHint(op: JoinOp, l: Bat, r: Bat): nat
  {
    match op
    case LeftJoinOp => l.count
    case InnerJoinOp => Min(l.count, r.count)
    case SemiJoinOp => 0
  }

  /** Run the kernel on pair j of the operand list. */
  function RunPair(kernel: Kernel, kind: PathKind, ops: seq<Bat>, j: nat): Option<Bat>
    requires j + 1 < |ops|
  {
    var op := KernelOp(kind, j);
    kernel(op, ops[j], ops[j + 1], SizeHint(op, ops[j], ops[j + 1]))
  }

  /** The estimate of pair i: the capped estimate, not the wrapping one of opt_joinpath.c:361. */
  function PairCost(ops: seq<Bat>, i: nat, kind: PathKind): nat
    requires i + 1 < |ops|
  {
    Cost(ops[i], ops[i + 1], kind)
  }

  /** Pair j has the least estimate, and every earlier pair a larger one. */
  predicate IsCheapest(ops: seq<Bat>, kind: PathKind, j: nat)
  {
    && j + 1 < |ops|
    && (forall i :: 0 <= i < |ops| - 1 ==> PairCost(ops, j, kind) <= PairCost(ops, i, kind))
    && (forall i :: 0 <= i < j ==> PairCost(ops, j, kind) < PairCost(ops, i, kind))
  }

  /** At most one pair is the cheapest: selection is a function of the operands. */
  lemma CheapestIsUnique(ops: seq<Bat>, kind: PathKind, j1: nat, j2: nat)
    requires IsCheapest(ops, kind, j1) && IsCheapest(ops, kind, j2)
    ensures j1 == j2
  {
    assert PairCost(ops, j1, kind) == PairCost(ops, j2, kind);
  }

  /** The first pair of least estimate among pairs 0 .. n-1. */
  function CheapestBelow(ops: seq<Bat>, kind: PathKind, n: nat): (j: nat)
    requires 1 <= n < |ops|
    ensures j < n
  {
    if n == 1 then 0
    else
      var k := CheapestBelow(ops, kind, n - 1);
      if PairCost(ops, n - 1, kind) < PairCost(ops, k, kind) then n - 1 else k
  }

  lemma {:induction false} CheapestBelowIsLeast(ops: seq<Bat>, kind: PathKind, n: nat)
    requires 1 <= n < |ops|
    ensures var j := CheapestBelow(ops, kind, n);
      && (forall i :: 0 <= i < n ==> PairCost(ops, j, kind) <= PairCost(ops, i, kind))
      && (forall i :: 0 <= i < j ==> PairCost(ops, j, kind) < PairCost(ops, i, kind))
  {
    if n > 1 {
      CheapestBelowIsLeast(ops, kind, n - 1);
    }
  }

  /** The pair a round joins: the first one of least estimate. */
  function Cheapest(ops: seq<Bat>, kind: PathKind): (j: nat)
    requires |ops| >= 2
    ensures j + 1 < |ops|
  {
    CheapestBelow(ops, kind, |ops| - 1)
  }

  /** The pair a round joins has the least estimate, and every earlier
      pair a larger one. */
  lemma CheapestIsCheapest(ops: seq<Bat>, kind: PathKind)
    requires |ops| >= 2
    ensures IsCheapest(ops, kind, Cheapest(ops, kind))
  {
    CheapestBelowIsLeast(ops, kind, |ops| - 1);
  }

  /** Number of set flags. */
  function CountTrue(s: seq<bool>): (n: nat)
    ensures n <= |s|
  {
    if s == [] then 0 else CountTrue(s[..|s| - 1]) + (if s[|s| - 1] then 1 else 0)
  }

  function Zeros(n: nat): (s: seq<bool>)
    ensures |s| == n && forall k :: 0 <= k < n ==> !s[k]
  {
    seq(n, _ => false)
  }

  lemma {:induction false} CountTrueNone(s: seq<bool>)
    requires forall k :: 0 <= k < |s| ==> !s[k]
    ensures CountTrue(s) == 0
  {
    if s != [] {
      CountTrueNone(s[..|s| - 1]);
    }
  }

  /** Setting one flag raises the count by one exactly when it was clear. */
  lemma {:induction false} CountTrueSet(s: seq<bool>, k: nat)
    requires k < |s|
    ensures CountTrue(s[k := true]) == CountTrue(s) + (if s[k] then 0 else 1)
  {
    var t := s[k := true];
    if k < |s| - 1 {
      assert t[..|t| - 1] == s[..|s| - 1][k := true];
      CountTrueSet(s[..|s| - 1], k);
    } else {
      assert t[..|t| - 1] == s[..|s| - 1];
    }
  }

  /** Postponing a pair that was not wholly postponed raises the count. */
  lemma CountTrueMark(s: seq<bool>, j: nat)
    requires j + 1 < |s| && !(s[j] && s[j + 1])
    ensures CountTrue(s[j := true][j + 1 := true]) > CountTrue(s)
  {
    CountTrueSet(s, j);
    CountTrueSet(s[j := true], j + 1);
  }

  /** The reversal of a list; the bail-out loops release the last handle first. */
  function Reversed(s: seq<Bat>): (r: seq<Bat>)
    ensures |r| == |s|
  {
    if s == [] then [] else Reversed(s[1..]) + [s[0]]
  }

  lemma {:induction false} ReversedElements(s: seq<Bat>)
    ensures multiset(Reversed(s)) == multiset(s)
    ensures forall k :: 0 <= k < |s| ==> Reversed(s)[k] == s[|s| - 1 - k]
  {
    if s != [] {
      ReversedElements(s[1..]);
      assert s == [s[0]] + s[1..];
    }
  }

  /** The operand list once pair j has been replaced by its join result b. */
  function Spliced(ops: seq<Bat>, j: nat, b: Bat): (r: seq<Bat>)
    requires j + 1 < |ops|
    ensures |r| == |ops| - 1 && r[j] == b
    ensures forall k :: 0 <= k < j ==> r[k] == ops[k]
    ensures forall k :: j < k < |r| ==> r[k] == ops[k + 1]
  {
    ops[..j] + [b] + ops[j + 2..]
  }

  /** The executor's state at the head of a round: the operands left, their
      postponement flags, and what has been given up, built and called. */
  datatype PathState = PathState(
    ops: seq<Bat>, flags: seq<bool>,
    released: seq<Bat>, created: seq<Bat>, calls: nat, failures: nat)

  /** What the executor returns: the result BAT or nothing, and the books. */
  datatype PathResult = PathResult(
    res: Option<Bat>, released: seq<Bat>, created: seq<Bat>, calls: nat, failures: nat)

  /** A state the loop can be in: at least one operand, one flag per
      operand, and not every operand postponed. */
  predicate Shaped(s: PathState)
  {
    1 <= |s.ops| && |s.flags| == |s.ops| && CountTrue(s.flags) < |s.ops|
  }

  function Start(ops: seq<Bat>): PathState
  {
    PathState(ops, Zeros(|ops|), [], [], 0, 0)
  }

  /** What one round leads to: the state of the next round, or the end. */
  datatype Round = Next(state: PathState) | Done(result: PathResult)

  /** The bail-out of lines 479-482 and 490-493: every handle still held
      is given up, the last one first, and nothing is returned. */
  function Bailout(s: PathState): (r: PathResult)
  {
    PathResult(None, s.released + Reversed(s.ops), s.created, s.calls + 1, s.failures + 1)
  }

  /**
   * One round of lines 437-527: run the kernel on the cheapest pair; on
   * success splice its result in and clear every flag, on failure stop if
   * the pair was already postponed or every operand now is, and otherwise
   * postpone it. A round that goes on either shortens the operand list or
   * postpones more operands.
   */
  function Step(s: PathState, kind: PathKind, kernel: Kernel): (o: Round)
    requires Shaped(s) && |s.ops| >= 2
    ensures o.Next? ==> Shaped(o.state)
    ensures o.Next? ==> || |o.state.ops| == |s.ops| - 1
                        || (o.state.ops == s.ops && CountTrue(o.state.flags) > CountTrue(s.flags))
  {
    var j := Cheapest(s.ops, kind);
    var b := RunPair(kernel, kind, s.ops, j);
    var flags := s.flags[j := true][j + 1 := true];
    if b.None? then
      if s.flags[j] && s.flags[j + 1] then Done(Bailout(s))
      else if CountTrue(flags) == |s.ops| then Done(Bailout(s))
      else
        CountTrueMark(s.flags, j);
        Next(PathState(s.ops, flags, s.released, s.created, s.calls + 1, s.failures + 1))
    else
      CountTrueNone(Zeros(|s.ops| - 1));
      Next(PathState(Spliced(s.ops, j, b.value), Zeros(|s.ops| - 1),
                     s.released + [s.ops[j], s.ops[j + 1]], s.created + [b.value],
                     s.calls + 1, s.failures))
  }

  /** A round whose pair fails while postponed, or leaves every operand
      postponed, ends the run. */
  lemma StepBailsOut(s: PathState, kind: PathKind, kernel: Kernel, j: nat)
    requires Shaped(s) && |s.ops| >= 2 && j == Cheapest(s.ops, kind)
    requires RunPair(kernel, kind, s.ops, j).None?
    requires (s.flags[j] && s.flags[j + 1]) || CountTrue(s.flags[j := true][j + 1 := true]) == |s.ops|
    ensures |s.ops| > 1 && Run(s, kind, kernel) == Bailout(s)
  {
    assert Step(s, kind, kernel) == Done(Bailout(s));
  }

  /** A round whose pair fails otherwise postpones the pair. */
  lemma StepPostpones(s: PathState, kind: PathKind, kernel: Kernel, j: nat, flags: seq<bool>)
    requires Shaped(s) && |s.ops| >= 2 && j == Cheapest(s.ops, kind)
    requires RunPair(kernel, kind, s.ops, j).None? && !(s.flags[j] && s.flags[j + 1])
    requires flags == s.flags[j := true][j + 1 := true] && CountTrue(flags) != |s.ops|
    ensures var next := PathState(s.ops, flags, s.released, s.created, s.calls + 1, s.failures + 1);
      Shaped(next) && Run(s, kind, kernel) == Run(next, kind, kernel)
  {
    assert Step(s, kind, kernel) == Next(PathState(s.ops, flags, s.released, s.created, s.calls + 1, s.failures + 1));
  }

  /** A round whose pair joins splices the result in and clears the flags. */
  lemma StepJoins(s: PathState, kind: PathKind, kernel: Kernel, j: nat, b: Bat)
    requires Shaped(s) && |s.ops| >= 2 && j == Cheapest(s.ops, kind)
    requires RunPair(kernel, kind, s.ops, j) == Some(b)
    ensures var next := PathState(Spliced(s.ops, j, b), Zeros(|s.ops| - 1),
                                  s.released + [s.ops[j], s.ops[j + 1]], s.created + [b],
                                  s.calls + 1, s.failures);
      Shaped(next) && Run(s, kind, kernel) == Run(next, kind, kernel)
  {
    CountTrueNone(Zeros(|s.ops| - 1));
    assert Step(s, kind, kernel) == Next(PathState(Spliced(s.ops, j, b), Zeros(|s.ops| - 1),
                                                   s.released + [s.ops[j], s.ops[j + 1]], s.created + [b],
                                                   s.calls + 1, s.failures));
  }

  /** The state after a round whose pair joins, as the loop holds it. */
  lemma JoinedState(s: PathState, kind: PathKind, kernel: Kernel, j: nat, b: Bat, next: PathState)
    requires Shaped(s) && |s.ops| >= 2 && j == Cheapest(s.ops, kind)
    requires RunPair(kernel, kind, s.ops, j) == Some(b)
    requires next == PathState(Spliced(s.ops, j, b), Zeros(|s.ops| - 1),
                               s.released + [s.ops[j], s.ops[j + 1]], s.created + [b],
                               s.calls + 1, s.failures)
    ensures Shaped(next) && Run(next, kind, kernel) == Run(s, kind, kernel) && CountTrue(next.flags) == 0
  {
    StepJoins(s, kind, kernel, j, b);
    CountTrueNone(next.flags);
  }

  /** The rounds from state s on, until one operand is left or a round ends the run. */
  function Run(s: PathState, kind: PathKind, kernel: Kernel): PathResult
    requires Shaped(s)
    decreases |s.ops|, |s.ops| - CountTrue(s.flags)
  {
    if |s.ops| == 1 then PathResult(Some(s.ops[0]), s.released, s.created, s.calls, s.failures)
    else
      match Step(s, kind, kernel)
      case Done(r) => r
      case Next(n) => Run(n, kind, kernel)
  }

  /** The executor on a non-empty operand list. */
  function JoinPathRun(ops: seq<Bat>, kind: PathKind, kernel: Kernel): PathResult
    requires |ops| >= 1
  {
    CountTrueNone(Zeros(|ops|));
    Run(Start(ops), kind, kernel)
  }

  // ---------------------------------------------------------------------
  // Reference conservation

  /** The handles still held plus those given up are the initial ones plus
      those the kernels created. */
  ghost predicate Conserved(held: seq<Bat>, released: seq<Bat>, initial: seq<Bat>, created: seq<Bat>)
  {
    multiset(held) + multiset(released) == multiset(initial) + multiset(created)
  }

  /** Joining pair j trades its two operands, which are released, for the result. */
  lemma SpliceConserves(ops: seq<Bat>, released: seq<Bat>, initial: seq<Bat>, created: seq<Bat>, j: nat, b: Bat)
    requires j + 1 < |ops| && Conserved(ops, released, initial, created)
    ensures Conserved(Spliced(ops, j, b), released + [ops[j], ops[j + 1]], initial, created + [b])
  {
    var front, pair, back := multiset(ops[..j]), multiset{ops[j], ops[j + 1]}, multiset(ops[j + 2..]);
    assert ops == ops[..j] + [ops[j], ops[j + 1]] + ops[j + 2..];
    assert multiset(ops) == front + pair + back;
    assert multiset(released + [ops[j], ops[j + 1]]) == multiset(released) + pair;
    calc {
      multiset(Spliced(ops, j, b)) + multiset(released + [ops[j], ops[j + 1]]);
      front + multiset{b} + back + multiset(released) + pair;
      (front + pair + back + multiset(released)) + multiset{b};
      multiset(initial) + multiset(created) + multiset{b};
      multiset(initial) + multiset(created + [b]);
    }
  }

  /** Giving up every handle still held keeps the balance. */
  lemma BailoutConserves(s: PathState, initial: seq<Bat>)
    requires Conserved(s.ops, s.released, initial, s.created)
    ensures Conserved([], Bailout(s).released, initial, Bailout(s).created)
  {
    ReversedElements(s.ops);
  }

  /** The handles held at the end: the result, if any. */
  function Held(r: PathResult): seq<Bat>
  {
    if r.res.Some? then [r.res.value] else []
  }

  lemma {:induction false} RunConservesFrom(s: PathState, kind: PathKind, kernel: Kernel, initial: seq<Bat>)
    requires Shaped(s) && Conserved(s.ops, s.released, initial, s.created)
    ensures var r := Run(s, kind, kernel); Conserved(Held(r), r.released, initial, r.created)
    decreases |s.ops|, |s.ops| - CountTrue(s.flags)
  {
    if |s.ops| == 1 {
      assert s.ops == [s.ops[0]];
    } else {
      var j := Cheapest(s.ops, kind);
      var b := RunPair(kernel, kind, s.ops, j);
      var flags := s.flags[j := true][j + 1 := true];
      if b.Some? {
        StepJoins(s, kind, kernel, j, b.value);
        SpliceConserves(s.ops, s.released, initial, s.created, j, b.value);
        RunConservesFrom(PathState(Spliced(s.ops, j, b.value), Zeros(|s.ops| - 1),
                                   s.released + [s.ops[j], s.ops[j + 1]], s.created + [b.value],
                                   s.calls + 1, s.failures), kind, kernel, initial);
      } else if (s.flags[j] && s.flags[j + 1]) || CountTrue(flags) == |s.ops| {
        StepBailsOut(s, kind, kernel, j);
        BailoutConserves(s, initial);
      } else {
        StepPostpones(s, kind, kernel, j, flags);
        RunConservesFrom(PathState(s.ops, flags, s.released, s.created, s.calls + 1, s.failures + 1),
                         kind, kernel, initial);
      }
    }
  }

  /**
   * Every handle the executor is given, and every BAT a kernel builds, is
   * given up exactly once, except the result it hands back.
   */
  lemma RunConserves(ops: seq<Bat>, kind: PathKind, kernel: Kernel)
    requires |ops| >= 1
    ensures var r := JoinPathRun(ops, kind, kernel);
      && (r.res.Some? ==> Conserved([r.res.value], r.released, ops, r.created))
      && (r.res.None? ==> Conserved([], r.released, ops, r.created))
  {
    CountTrueNone(Zeros(|ops|));
    RunConservesFrom(Start(ops), kind, kernel, ops);
  }

  // ---------------------------------------------------------------------
  // Retries

  /**
   * The retry state of the loop: before any failure no operand is
   * postponed; after one, exactly the cheapest pair is postponed and it
   * is the pair that failed.
   */
  ghost predicate RetryState(s: PathState, kind: PathKind, kernel: Kernel)
    requires Shaped(s)
  {
    && |s.created| + s.failures == s.calls && s.failures <= 1
    && (s.failures == 0 ==> s.flags == Zeros(|s.ops|))
    && (s.failures == 1 ==>
          && |s.ops| >= 2
          && var j := Cheapest(s.ops, kind);
          && s.flags == Zeros(|s.ops|)[j := true][j + 1 := true]
          && RunPair(kernel, kind, s.ops, j).None?)
  }

  /** A round keeps the retry state; a round after a failure ends the run
      with a second failure. */
  lemma StepRetries(s: PathState, kind: PathKind, kernel: Kernel)
    requires Shaped(s) && |s.ops| >= 2 && RetryState(s, kind, kernel)
    ensures var o := Step(s, kind, kernel);
      && (o.Next? ==> RetryState(o.state, kind, kernel))
      && (o.Done? ==> && o.result.res.None? && 1 <= o.result.failures <= 2
                      && |o.result.created| + o.result.failures == o.result.calls)
  {
  }

  lemma {:induction false} RunRetriesFrom(s: PathState, kind: PathKind, kernel: Kernel)
    requires Shaped(s) && RetryState(s, kind, kernel)
    ensures var r := Run(s, kind, kernel);
      && |r.created| + r.failures == r.calls && r.failures <= 2
      && (r.res.Some? <==> r.failures == 0)
    decreases |s.ops|, |s.ops| - CountTrue(s.flags)
  {
    if |s.ops| > 1 {
      StepRetries(s, kind, kernel);
      var o := Step(s, kind, kernel);
      if o.Next? {
        RunRetriesFrom(o.state, kind, kernel);
      }
    }
  }

  /**
   * Every kernel call either builds a BAT or counts as a failure; a run
   * gives up after at most two failures, and a run that delivers a result
   * never had one: since the selection ignores postponement, a retry picks
   * the pair that just failed again.
   */
  lemma RunRetries(ops: seq<Bat>, kind: PathKind, kernel: Kernel)
    requires |ops| >= 1
    ensures var r := JoinPathRun(ops, kind, kernel);
      && |r.created| + r.failures == r.calls && r.failures <= 2
      && (r.res.Some? <==> r.failures == 0)
  {
    CountTrueNone(Zeros(|ops|));
    RunRetriesFrom(Start(ops), kind, kernel);
  }

  /** A single operand is handed back untouched, without any kernel call. */
  lemma RunSingle(ops: seq<Bat>, kind: PathKind, kernel: Kernel)
    requires |ops| == 1
    ensures JoinPathRun(ops, kind, kernel) == PathResult(Some(ops[0]), [], [], 0, 0)
  {
    CountTrueNone(Zeros(|ops|));
  }

  ghost predicate AlwaysSucceeds(kernel: Kernel)
  {
    forall op, l, r, h :: kernel(op, l, r, h).Some?
  }

  ghost predicate AlwaysFails(kernel: Kernel)
  {
    forall op, l, r, h :: kernel(op, l, r, h).None?
  }

  lemma {:induction false} RunSucceedsFrom(s: PathState, kind: PathKind, kernel: Kernel)
    requires Shaped(s) && AlwaysSucceeds(kernel)
    ensures var r := Run(s, kind, kernel);
      && r.res.Some? && r.calls == s.calls + |s.ops| - 1 && r.failures == s.failures
      && |r.released| == |s.released| + 2 * (|s.ops| - 1)
    decreases |s.ops|
  {
    if |s.ops| > 1 {
      var j := Cheapest(s.ops, kind);
      assert RunPair(kernel, kind, s.ops, j).Some?;
      var o := Step(s, kind, kernel);
      RunSucceedsFrom(o.state, kind, kernel);
    }
  }

  /** With kernels that never fail, n operands take n - 1 joins and give
      up 2(n - 1) handles. */
  lemma RunAlwaysSucceeds(ops: seq<Bat>, kind: PathKind, kernel: Kernel)
    requires |ops| >= 1 && AlwaysSucceeds(kernel)
    ensures var r := JoinPathRun(ops, kind, kernel);
      && r.res.Some? && r.calls == |ops| - 1 && r.failures == 0
      && |r.released| == 2 * (|ops| - 1)
  {
    CountTrueNone(Zeros(|ops|));
    RunSucceedsFrom(Start(ops), kind, kernel);
  }

  lemma {:induction false} CountTrueTwo(s: seq<bool>, j: nat)
    requires j + 1 < |s| && s[j] && s[j + 1]
    requires forall k :: 0 <= k < |s| && k != j && k != j + 1 ==> !s[k]
    ensures CountTrue(s) == 2
  {
    var init := s[..|s| - 1];
    if j + 2 < |s| {
      CountTrueTwo(init, j);
    } else {
      assert init[..|init| - 1] == s[..j];
      CountTrueNone(s[..j]);
    }
  }

  /** With failing kernels, a two-operand path gives up in its first round. */
  lemma FailsAtOnce(ops: seq<Bat>, kind: PathKind, kernel: Kernel)
    requires |ops| == 2 && AlwaysFails(kernel)
    ensures Shaped(Start(ops)) && Run(Start(ops), kind, kernel) == Bailout(Start(ops))
  {
    var s0 := Start(ops);
    CountTrueNone(s0.flags);
    var j := Cheapest(ops, kind);
    assert RunPair(kernel, kind, ops, j).None?;
    CountTrueTwo(s0.flags[j := true][j + 1 := true], j);
    StepBailsOut(s0, kind, kernel, j);
  }

  /** With failing kernels, a longer path postpones the cheapest pair, fails
      on it again and gives up in its second round. */
  lemma FailsTwice(ops: seq<Bat>, kind: PathKind, kernel: Kernel)
    requires |ops| > 2 && AlwaysFails(kernel)
    ensures var j := Cheapest(ops, kind);
      var s1 := PathState(ops, Zeros(|ops|)[j := true][j + 1 := true], [], [], 1, 1);
      Shaped(Start(ops)) && Shaped(s1) && Run(Start(ops), kind, kernel) == Run(s1, kind, kernel) == Bailout(s1)
  {
    var s0 := Start(ops);
    CountTrueNone(s0.flags);
    var j := Cheapest(ops, kind);
    assert RunPair(kernel, kind, ops, j).None?;
    var flags := s0.flags[j := true][j + 1 := true];
    CountTrueTwo(flags, j);
    StepPostpones(s0, kind, kernel, j, flags);
    StepBailsOut(PathState(ops, flags, [], [], 1, 1), kind, kernel, j);
  }

  /** With kernels that always fail, a two-operand path gives up after one
      call and a longer one after two, releasing every operand. */
  lemma RunAlwaysFails(ops: seq<Bat>, kind: PathKind, kernel: Kernel)
    requires |ops| >= 2 && AlwaysFails(kernel)
    ensures var r := JoinPathRun(ops, kind, kernel);
      && r.res.None? && r.calls == Min(|ops| - 1, 2) && r.created == []
      && r.released == Reversed(ops)
  {
    if |ops| == 2 {
      FailsAtOnce(ops, kind, kernel);
    } else {
      FailsTwice(ops, kind, kernel);
    }
  }
}
