/**
 * The run-time join path executor (ALGjoinPathBody) of
 * MonetDB5/optimizer/opt_joinpath.c over an array of BAT handles, proved
 * to compute what PathRun.JoinPathRun describes.
 */
module JoinExec {
  import opened Util
  import opened JoinCost
  import opened PathRun

  /**
   * The selection loop of lines 439-453. Its extra test on postponement
   * is written as in the source; since `postponed < top` always holds
   * there, the pair chosen is the cheapest one whatever is postponed.
   */
  method SelectPair(joins: seq<Bat>, kind: PathKind, postpone: seq<bool>, postponed: nat)
    returns (j: nat)
    requires |joins| >= 2 && |postpone| >= |joins| && postponed < |joins|
    ensures j == Cheapest(joins, kind) && IsCheapest(joins, kind, j)
  {
    j := 0;
    var estimate := PairCost(joins, 0, kind);
    var i := 1;
    while i < |joins| - 1
      invariant 1 <= i <= |joins| - 1
      invariant j < i && estimate == PairCost(joins, j, kind)
      invariant forall k :: 0 <= k < i ==> estimate <= PairCost(joins, k, kind)
      invariant forall k :: 0 <= k < j ==> estimate < PairCost(joins, k, kind)
    {
      var e := PairCost(joins, i, kind);
      if e < estimate && (!(postpone[i] && postpone[i + 1]) || postponed < |joins|) {
        estimate := e;
        j := i;
      }
      i := i + 1;
    }
    CheapestIsCheapest(joins, kind);
    CheapestIsUnique(joins, kind, j, Cheapest(joins, kind));
  }

  /** Release the first `top` handles, last one first (lines 479-480, 490-491). */
  method ReleaseAll(joins: array<Bat>, top: nat) returns (rel: seq<Bat>)
    requires top <= joins.Length
    ensures rel == Reversed(joins[..top])
  {
    rel := [];
    var t := top;
    while t > 0
      invariant 0 <= t <= top
      invariant rel == Reversed(joins[t..top])
    {
      t := t - 1;
      assert joins[t..top][1..] == joins[t + 1..top];
      rel := rel + [joins[t]];
    }
  }

  /** Count the postponed operands among the first `top` (lines 486-488). */
  method CountPostponed(postpone: array<bool>, top: nat) returns (n: nat)
    requires top <= postpone.Length
    ensures n == CountTrue(postpone[..top])
  {
    n := 0;
    var k := 0;
    while k < top
      invariant 0 <= k <= top
      invariant n == CountTrue(postpone[..k])
    {
      assert postpone[..k + 1][..k] == postpone[..k];
      if postpone[k] {
        n := n + 1;
      }
      k := k + 1;
    }
  }

  /** Mark both operands of pair j postponed and recount them (lines 484-488). */
  method PostponePair(postpone: array<bool>, top: nat, j: nat) returns (postponed: nat)
    requires j + 1 < top <= postpone.Length
    modifies postpone
    ensures postpone[..top] == old(postpone[..top])[j := true][j + 1 := true]
    ensures postponed == CountTrue(postpone[..top])
  {
    postpone[j] := true;
    postpone[j + 1] := true;
    postponed := CountPostponed(postpone, top);
  }

  /** Reset the postponement flags of the first `top` operands (lines 501-502). */
  method ClearPostponed(postpone: array<bool>, top: nat)
    requires top <= postpone.Length
    modifies postpone
    ensures forall k :: 0 <= k < top ==> !postpone[k]
  {
    var k := 0;
    while k < top
      invariant 0 <= k <= top
      invariant forall m :: 0 <= m < k ==> !postpone[m]
    {
      postpone[k] := false;
      k := k + 1;
    }
  }

  /** A flag sequence with no flag set is the cleared one. */
  lemma AllClear(flags: seq<bool>)
    requires forall k :: 0 <= k < |flags| ==> !flags[k]
    ensures flags == Zeros(|flags|)
  {
  }

  /** Operand k of `ops` while pair j is being replaced by b: the operands
      below i are already shifted down by one place. */
  function Shifting(ops: seq<Bat>, j: nat, b: Bat, i: nat, k: nat): Bat
    requires j < i < |ops| && k < |ops|
  {
    if k < j then ops[k] else if k == j then b else if k < i then ops[k + 1] else ops[k]
  }

  /** Replace pair j by its join result b and close the gap (lines 523-526). */
  method SplicePair(joins: array<Bat>, top: nat, j: nat, b: Bat)
    requires j + 1 < top <= joins.Length
    modifies joins
    ensures joins[..top - 1] == Spliced(old(joins[..top]), j, b)
  {
    ghost var before := joins[..top];
    joins[j] := b;
    var i := j + 1;
    while i < top - 1
      invariant j + 1 <= i <= top - 1
      invariant forall k :: 0 <= k < top ==> joins[k] == Shifting(before, j, b, i, k)
    {
      joins[i] := joins[i + 1];
      i := i + 1;
    }
    assert forall k :: 0 <= k < top - 1 ==> joins[..top - 1][k] == Spliced(before, j, b)[k];
  }

  /**
   * The failure branch of a round (lines 477-498) on the loop state s: stop
   * when the pair was postponed already or every operand now is, giving
   * up every handle; otherwise postpone the pair.
   */
  method FailRound(joins: array<Bat>, postpone: array<bool>, top: nat, j: nat, released: seq<Bat>,
                   ghost s: PathState, kind: PathKind, kernel: Kernel)
    returns (stop: bool, postponed: nat, released': seq<Bat>, ghost next: PathState)
    requires top <= joins.Length && top <= postpone.Length
    requires Shaped(s) && |s.ops| == top >= 2 && s.ops == joins[..top] && s.flags == postpone[..top]
    requires j == Cheapest(s.ops, kind) && RunPair(kernel, kind, s.ops, j).None? && released == s.released
    modifies postpone
    ensures joins[..top] == s.ops
    ensures stop ==> Run(s, kind, kernel) == PathResult(None, released', s.created, s.calls + 1, s.failures + 1)
    ensures !stop ==> && next == PathState(s.ops, postpone[..top], released', s.created, s.calls + 1, s.failures + 1)
                      && Shaped(next) && Run(next, kind, kernel) == Run(s, kind, kernel)
                      && CountTrue(s.flags) < postponed == CountTrue(next.flags)
  {
    if postpone[j] && postpone[j + 1] {
      StepBailsOut(s, kind, kernel, j);
      var rel := ReleaseAll(joins, top);
      return true, 0, released + rel, s;
    }
    CountTrueMark(s.flags, j);
    postponed := PostponePair(postpone, top, j);
    if postponed == top {
      StepBailsOut(s, kind, kernel, j);
      var rel := ReleaseAll(joins, top);
      return true, postponed, released + rel, s;
    }
    StepPostpones(s, kind, kernel, j, postpone[..top]);
    stop, released' := false, released;
    next := PathState(s.ops, postpone[..top], released', s.created, s.calls + 1, s.failures + 1);
  }

  /**
   * The success branch of a round (lines 499-526) on the loop state s:
   * clear the flags, give up the handles of pair j and splice the
   * result b in its place.
   */
  method JoinRound(joins: array<Bat>, postpone: array<bool>, top: nat, j: nat, b: Bat, released: seq<Bat>,
                   ghost s: PathState, kind: PathKind, kernel: Kernel)
    returns (released': seq<Bat>, ghost next: PathState)
    requires top <= joins.Length && top <= postpone.Length
    requires Shaped(s) && |s.ops| == top >= 2 && s.ops == joins[..top] && s.flags == postpone[..top]
    requires j == Cheapest(s.ops, kind) && RunPair(kernel, kind, s.ops, j) == Some(b) && released == s.released
    modifies joins, postpone
    ensures next == PathState(joins[..top - 1], postpone[..top - 1], released', s.created + [b], s.calls + 1, s.failures)
    ensures Shaped(next) && Run(next, kind, kernel) == Run(s, kind, kernel) && CountTrue(next.flags) == 0
  {
    released' := released + [joins[j], joins[j + 1]];
    SplicePair(joins, top, j, b);
    ClearPostponed(postpone, top);
    AllClear(postpone[..top - 1]);
    next := PathState(Spliced(s.ops, j, b), Zeros(top - 1), released', s.created + [b], s.calls + 1, s.failures);
    JoinedState(s, kind, kernel, j, b, next);
  }

  /**
   * The rest of one round of the loop of lines 437-527 on the loop state
   * s, once pair j is selected and its join gave b: the failure or the
   * success branch. `stop` says the round gave up every handle.
   */
  method Round(joins: array<Bat>, postpone: array<bool>, top: nat, postponed: nat, kind: PathKind, kernel: Kernel,
               j: nat, b: Option<Bat>, released: seq<Bat>, ghost created: seq<Bat>, calls: nat, failures: nat,
               ghost s: PathState)
    returns (stop: bool, top': nat, postponed': nat,
             released': seq<Bat>, ghost created': seq<Bat>, calls': nat, failures': nat, ghost next: PathState)
    requires 2 <= top <= joins.Length && top <= postpone.Length
    requires s == PathState(joins[..top], postpone[..top], released, created, calls, failures)
    requires Shaped(s) && postponed == CountTrue(s.flags)
    requires j == Cheapest(s.ops, kind) && b == RunPair(kernel, kind, s.ops, j)
    modifies joins, postpone
    ensures stop ==> Run(s, kind, kernel) == PathResult(None, released', created', calls', failures')
    ensures !stop ==> && 1 <= top' <= top && (top' < top || postponed' > postponed)
                      && next == PathState(joins[..top'], postpone[..top'], released', created', calls', failures')
                      && Shaped(next) && postponed' == CountTrue(next.flags)
                      && Run(next, kind, kernel) == Run(s, kind, kernel)
  {
    calls' := calls + 1;
    assert s.created == created && s.calls == calls && s.failures == failures && s.released == released;
    if b.None? {
      failures' := failures + 1;
      created' := created;
      top' := top;
      stop, postponed', released', next := FailRound(joins, postpone, top, j, released, s, kind, kernel);
      assert !stop ==> next == PathState(joins[..top'], postpone[..top'], released', created', calls', failures');
    } else {
      failures' := failures;
      created' := created + [b.value];
      released', next := JoinRound(joins, postpone, top, j, b.value, released, s, kind, kernel);
      stop, top', postponed' := false, top - 1, 0;
      assert next == PathState(joins[..top'], postpone[..top'], released', created', calls', failures');
    }
  }

  /**
   * ALGjoinPathBody on the first `top0` handles of `joins`: the rounds
   * PathRun.Run describes, with `released` the handles given up in
   * order, `calls` the kernel invocations and `failures` those that
   * returned nothing. A result is left in joins[0].
   */
  method JoinPathBody(joins: array<Bat>, top0: nat, kind: PathKind, kernel: Kernel)
    returns (res: Option<Bat>, released: seq<Bat>, ghost created: seq<Bat>, calls: nat, failures: nat)
    requires 1 <= top0 <= joins.Length
    modifies joins
    ensures PathResult(res, released, created, calls, failures) == JoinPathRun(old(joins[..top0]), kind, kernel)
    ensures res.Some? ==> res.value == joins[0]
  {
    var postpone := new bool[top0](_ => false);
    var postponed := 0;
    var top := top0;
    released, created, calls, failures := [], [], 0, 0;
    ghost var goal := JoinPathRun(joins[..top0], kind, kernel);
    assert postpone[..top] == Zeros(top0);
    CountTrueNone(postpone[..top]);
    ghost var s := Start(joins[..top0]);
    while top > 1
      invariant 1 <= top <= top0 == postpone.Length
      invariant s == PathState(joins[..top], postpone[..top], released, created, calls, failures)
      invariant Shaped(s) && postponed == CountTrue(s.flags)
      invariant Run(s, kind, kernel) == goal
      decreases top, top - postponed
    {
      var operands := joins[..top];
      var j := SelectPair(operands, kind, postpone[..top], postponed);
      var b := RunPair(kernel, kind, operands, j);
      var stop;
      stop, top, postponed, released, created, calls, failures, s :=
        Round(joins, postpone, top, postponed, kind, kernel, j, b, released, created, calls, failures, s);
      if stop {
        return None, released, created, calls, failures;
      }
    }
    res := Some(joins[0]);
  }
}
