/**
 * The join fusion pass of OPTjoinPathImplementation
 * (MonetDB5/optimizer/opt_joinpath.c), as a function of the old program:
 * each pairwise join whose argument is produced, by a join of the same
 * family used nowhere else, earlier in the new program absorbs that
 * join's arguments and becomes a join path.
 */
module JoinFusion {
  import opened Util
  import opened Mal

  /** The pass state after some instructions: the new program, the type
      table, the variables whose type was fixed, the index in the new
      program of each variable's last assignment, and the fusions. */
  datatype Pass = Pass(out: seq<Instr>, types: seq<VarType>, udf: set<VarId>, pc: map<VarId, nat>, actions: nat)

  /** A lookup in a zero-initialised table. */
  function Get(m: map<VarId, nat>, v: VarId): (n: nat)
    ensures v !in m ==> n == 0
  {
    if v in m then m[v] else 0
  }

  /** The argument part argv[retc..argc) of an instruction. */
  function Args(p: Instr): (a: seq<VarId>)
    ensures p.retc <= |p.argv| ==> a == p.argv[p.retc..]
    ensures p.retc > |p.argv| ==> a == []
  {
    if p.retc <= |p.argv| then p.argv[p.retc..] else []
  }

  /** How often v is used as an argument in prog (varcnt, lines 188-192). */
  function Uses(prog: seq<Instr>, v: VarId): nat
  {
    if |prog| == 0 then 0 else Uses(prog[..|prog| - 1], v) + multiset(Args(prog[|prog| - 1]))[v]
  }

  /** A join of p's family, pairwise or path, may be folded into p. */
  predicate SameFamily(f: FcnId, g: FcnId)
  {
    || (f == Join && (g == Join || g == JoinPath))
    || (f == LeftJoin && (g == LeftJoin || g == LeftJoinPath))
    || (f == SemiJoin && (g == SemiJoin || g == SemiJoinPath))
  }

  /**
   * The instruction the pass finds for v (line 205): the one at v's
   * last-assignment index in the new program. The index table starts
   * zeroed, so a variable not assigned yet finds the first new
   * instruction once there is one.
   */
  function Producer(out: seq<Instr>, pc: map<VarId, nat>, v: VarId): (r: Option<Instr>)
    ensures r.Some? <==> Get(pc, v) < |out|
    ensures r.Some? ==> r.value == out[Get(pc, v)]
  {
    if Get(pc, v) < |out| then Some(out[Get(pc, v)]) else None
  }

  /** Lines 205-244: a producer is folded in when v is used once and the
      producer is an algebra join of p's family. */
  predicate Inlinable(p: Instr, r: Option<Instr>, uses: nat)
  {
    r.Some? && uses <= 1 && r.value.modId == Algebra && SameFamily(p.fcn, r.value.fcn)
  }

  /** What argument v of p contributes to the expanded argument list. */
  function Contribution(p: Instr, v: VarId, out: seq<Instr>, pc: map<VarId, nat>, prog0: seq<Instr>): (c: seq<VarId>)
    ensures Inlinable(p, Producer(out, pc, v), Uses(prog0, v)) ==> c == Args(Producer(out, pc, v).value)
    ensures !Inlinable(p, Producer(out, pc, v), Uses(prog0, v)) ==> c == [v]
  {
    var r := Producer(out, pc, v);
    if Inlinable(p, r, Uses(prog0, v)) then Args(r.value) else [v]
  }

  /** The arguments pushed for p's arguments argv[retc..j). */
  function Pushed(p: Instr, out: seq<Instr>, pc: map<VarId, nat>, prog0: seq<Instr>, j: nat): seq<VarId>
    requires p.retc <= j <= |p.argv|
    decreases j
  {
    if j == p.retc then [] else Pushed(p, out, pc, prog0, j - 1) + Contribution(p, p.argv[j - 1], out, pc, prog0)
  }

  /** The expanded argument vector (lines 201-246): p's first result and
      the contribution of each argument. */
  function Expansion(p: Instr, out: seq<Instr>, pc: map<VarId, nat>, prog0: seq<Instr>): seq<VarId>
    requires 1 <= p.retc <= |p.argv|
  {
    [p.argv[0]] + Pushed(p, out, pc, prog0, |p.argv|)
  }

  /** Pushed arguments are variables of p or of the new program. */
  lemma {:induction false} PushedBelow(p: Instr, out: seq<Instr>, pc: map<VarId, nat>, prog0: seq<Instr>, j: nat, nvars: nat)
    requires WellFormed(p, nvars) && ProgramVarsBelow(out, nvars) && p.retc <= j <= |p.argv|
    ensures forall x :: x in Pushed(p, out, pc, prog0, j) ==> x < nvars
    decreases j
  {
    if j > p.retc {
      PushedBelow(p, out, pc, prog0, j - 1, nvars);
      ContributionBelow(p, out, pc, prog0, j - 1, nvars);
      var a := Pushed(p, out, pc, prog0, j - 1);
      var c := Contribution(p, p.argv[j - 1], out, pc, prog0);
      assert Pushed(p, out, pc, prog0, j) == a + c;
      ConcatBelow(a, c, nvars);
    }
  }

  /** Two sequences of existing variables concatenate to one. */
  lemma ConcatBelow(a: seq<VarId>, c: seq<VarId>, nvars: nat)
    requires forall x :: x in a ==> x < nvars
    requires forall x :: x in c ==> x < nvars
    ensures forall x :: x in a + c ==> x < nvars
  {
  }

  /** Each argument contributes existing variables only. */
  lemma ContributionBelow(p: Instr, out: seq<Instr>, pc: map<VarId, nat>, prog0: seq<Instr>, k: nat, nvars: nat)
    requires WellFormed(p, nvars) && ProgramVarsBelow(out, nvars) && k < |p.argv|
    ensures forall x :: x in Contribution(p, p.argv[k], out, pc, prog0) ==> x < nvars
  {
    var v := p.argv[k];
    if Foldable(p, out, pc, prog0, k) {
      var r := out[Get(pc, v)];
      assert WellFormed(r, nvars);
      forall x | x in Args(r) ensures x < nvars {
        var i :| 0 <= i < |Args(r)| && Args(r)[i] == x;
        assert x == r.argv[r.retc + i];
      }
    }
  }

  /** With no argument folded in, the pushed arguments are p's own. */
  lemma {:induction false} PushedPlain(p: Instr, out: seq<Instr>, pc: map<VarId, nat>, prog0: seq<Instr>, j: nat)
    requires p.retc <= j <= |p.argv|
    requires forall k :: p.retc <= k < j ==> !Foldable(p, out, pc, prog0, k)
    ensures Pushed(p, out, pc, prog0, j) == p.argv[p.retc..j]
    decreases j
  {
    if j > p.retc {
      PushedPlain(p, out, pc, prog0, j - 1);
      PlainContribution(p, out, pc, prog0, j - 1);
      PushedPlainSnoc(p, out, pc, prog0, j);
    }
  }

  /** One more argument contributing itself extends the plain prefix. */
  lemma PushedPlainSnoc(p: Instr, out: seq<Instr>, pc: map<VarId, nat>, prog0: seq<Instr>, j: nat)
    requires p.retc < j <= |p.argv|
    requires Pushed(p, out, pc, prog0, j - 1) == p.argv[p.retc..j - 1]
    requires Contribution(p, p.argv[j - 1], out, pc, prog0) == [p.argv[j - 1]]
    ensures Pushed(p, out, pc, prog0, j) == p.argv[p.retc..j]
  {
    assert p.argv[p.retc..j] == p.argv[p.retc..j - 1] + [p.argv[j - 1]];
  }

  /** An argument with no foldable producer contributes itself. */
  lemma PlainContribution(p: Instr, out: seq<Instr>, pc: map<VarId, nat>, prog0: seq<Instr>, k: nat)
    requires k < |p.argv| && !Foldable(p, out, pc, prog0, k)
    ensures Contribution(p, p.argv[k], out, pc, prog0) == [p.argv[k]]
  {
  }

  /** Argument k of p has a producer that may be folded in. */
  predicate Foldable(p: Instr, out: seq<Instr>, pc: map<VarId, nat>, prog0: seq<Instr>, k: nat)
    requires k < |p.argv|
  {
    Inlinable(p, Producer(out, pc, p.argv[k]), Uses(prog0, p.argv[k]))
  }

  /**
   * The type test of lines 256-261 for adjacent arguments t and u: the
   * tail of t must be the head of u. The exemption meant for void/oid
   * chaining compares the tail and the head of t itself.
   */
  predicate Breaks(t: VarType, u: VarType)
  {
    t.tail != u.head && !(t.tail == Oid && t.head == Void) && !(t.tail == Void && t.head == Oid)
  }

  /** No adjacent pair of a[1..] breaks the type test. */
  predicate Chains(types: seq<VarType>, a: seq<VarId>)
    requires forall k :: 0 <= k < |a| ==> a[k] < |types|
  {
    forall j :: 1 <= j < |a| - 1 ==> !Breaks(types[a[j]], types[a[j + 1]])
  }

  /** As written, the exemption lets a void/oid argument precede any
      argument at all, whatever its head type. */
  lemma ExemptionIgnoresNeighbour()
    ensures !Breaks(VarType(Void, Oid), VarType(OtherAtom(3), OtherAtom(4)))
    ensures Breaks(VarType(OtherAtom(1), Oid), VarType(OtherAtom(3), OtherAtom(4)))
  {
  }

  /** The renaming of lines 270-275. */
  function PathName(f: FcnId, argc: nat): (g: FcnId)
    ensures (f == Join || f == LeftJoin) && argc > 3 ==> g == PathFcn(f)
    ensures f == SemiJoin && argc > 2 ==> g == PathFcn(f)
    ensures !((f == Join || f == LeftJoin) && argc > 3) && !(f == SemiJoin && argc > 2) ==> g == f
  {
    if argc > 3 && f == Join then JoinPath
    else if argc > 3 && f == LeftJoin then LeftJoinPath
    else if argc > 2 && f == SemiJoin then SemiJoinPath
    else f
  }

  /** Record index idx as the last assignment of the results a[..n] (lines 283-284). */
  function SetPc(pc: map<VarId, nat>, a: seq<VarId>, n: nat, idx: nat): (pc': map<VarId, nat>)
    requires n <= |a|
    ensures forall v :: v in a[..n] ==> Get(pc', v) == idx
    ensures forall v :: v !in a[..n] ==> Get(pc', v) == Get(pc, v)
  {
    if n == 0 then pc
    else
      assert a[..n] == a[..n - 1] + [a[n - 1]];
      SetPc(pc, a, n - 1, idx)[a[n - 1] := idx]
  }

  /** The fused form of pair join p, if any (lines 197-279). */
  function Fused(st: Pass, p: Instr, prog0: seq<Instr>): (q: Option<Instr>)
    requires WellFormed(p, |st.types|) && ProgramVarsBelow(st.out, |st.types|)
    ensures q.Some? ==> && IsPairJoin(p) && q.value.argv == Expansion(p, st.out, st.pc, prog0)
                        && |q.value.argv| > |p.argv| && InstrVarsBelow(q.value, |st.types|)
                        && Chains(st.types, q.value.argv)
                        && q.value == Instr(p.modId, PathName(p.fcn, |q.value.argv|), p.retc, q.value.argv)
  {
    if !IsPairJoin(p) then None
    else
      var a := Expansion(p, st.out, st.pc, prog0);
      ExpansionBelow(p, st.out, st.pc, prog0, |st.types|);
      if |a| <= |p.argv| || !Chains(st.types, a) then None
      else Some(Instr(p.modId, PathName(p.fcn, |a|), p.retc, a))
  }

  /** The expanded argument vector mentions only existing variables. */
  lemma ExpansionBelow(p: Instr, out: seq<Instr>, pc: map<VarId, nat>, prog0: seq<Instr>, nvars: nat)
    requires WellFormed(p, nvars) && ProgramVarsBelow(out, nvars)
    ensures forall k :: 0 <= k < |Expansion(p, out, pc, prog0)| ==> Expansion(p, out, pc, prog0)[k] < nvars
  {
    var a := Expansion(p, out, pc, prog0);
    PushedBelow(p, out, pc, prog0, |p.argv|, nvars);
    forall k | 0 <= k < |a| ensures a[k] < nvars {
      if k > 0 { assert a[k] in Pushed(p, out, pc, prog0, |p.argv|); }
    }
  }

  /** The fusion decision of lines 247-278 in both directions: a pairwise
      algebra join is fused exactly when its expansion is longer than its
      argument vector and passes the type test. */
  lemma FusedExactly(st: Pass, p: Instr, prog0: seq<Instr>)
    requires WellFormed(p, |st.types|) && ProgramVarsBelow(st.out, |st.types|)
    ensures forall k :: 0 <= k < |Expansion(p, st.out, st.pc, prog0)| ==> Expansion(p, st.out, st.pc, prog0)[k] < |st.types|
    ensures Fused(st, p, prog0).Some? <==>
      && IsPairJoin(p) && |Expansion(p, st.out, st.pc, prog0)| > |p.argv|
      && Chains(st.types, Expansion(p, st.out, st.pc, prog0))
  {
    ExpansionBelow(p, st.out, st.pc, prog0, |st.types|);
  }

  /** The type a fused instruction's result gets (line 268): the head of
      its first argument and the tail of its last. */
  function PathType(types: seq<VarType>, q: Instr): VarType
    requires q.retc < |q.argv| && InstrVarsBelow(q, |types|)
  {
    VarType(types[q.argv[q.retc]].head, types[q.argv[|q.argv| - 1]].tail)
  }

  /** One round of the loop of lines 194-284. */
  function FuseStep(st: Pass, p: Instr, prog0: seq<Instr>): (st': Pass)
    requires WellFormed(p, |st.types|) && ProgramVarsBelow(st.out, |st.types|)
    ensures |st'.types| == |st.types| && |st'.out| == |st.out| + 1 && st'.out[..|st.out|] == st.out
    ensures ProgramVarsBelow(st'.out, |st'.types|)
  {
    match Fused(st, p, prog0)
      case None =>
        Pass(st.out + [p], st.types, st.udf, SetPc(st.pc, p.argv, p.retc, |st.out|), st.actions)
      case Some(q) =>
        Pass(st.out + [q], st.types[q.argv[0] := PathType(st.types, q)], st.udf + {q.argv[0]},
             SetPc(st.pc, q.argv, q.retc, |st.out|), st.actions + 1)
  }

  /** The pass after the first n prog0 instructions. */
  function FusePrefix(prog0: seq<Instr>, types0: seq<VarType>, udf0: set<VarId>, n: nat): (st: Pass)
    requires ProgramVarsBelow(prog0, |types0|) && n <= |prog0|
    ensures |st.out| == n && |st.types| == |types0| && ProgramVarsBelow(st.out, |st.types|)
  {
    if n == 0 then Pass([], types0, udf0, map[], 0)
    else FuseStep(FusePrefix(prog0, types0, udf0, n - 1), prog0[n - 1], prog0)
  }

  /** p is kept, or replaced by a join path of the same module, results
      and first result with more arguments. */
  predicate KeptOrFused(p: Instr, q: Instr)
  {
    || q == p
    || (&& IsPairJoin(p) && |p.argv| >= 1 && q.modId == p.modId && q.retc == p.retc && |q.argv| > |p.argv|
        && q.argv[0] == p.argv[0] && q.fcn == PathName(p.fcn, |q.argv|))
  }

  /** The number of positions below n where the two programs differ. */
  function Changed(a: seq<Instr>, b: seq<Instr>, n: nat): nat
    requires n <= |a| && n <= |b|
  {
    if n == 0 then 0 else Changed(a, b, n - 1) + (if a[n - 1] != b[n - 1] then 1 else 0)
  }

  /** One round pushes p or its fused form, and counts a fusion exactly
      when the pushed instruction differs from p. */
  lemma StepInPlace(st: Pass, p: Instr, prog0: seq<Instr>)
    requires WellFormed(p, |st.types|) && ProgramVarsBelow(st.out, |st.types|)
    ensures var st' := FuseStep(st, p, prog0);
      && KeptOrFused(p, st'.out[|st.out|])
      && st'.actions == st.actions + (if st'.out[|st.out|] != p then 1 else 0)
  {
    match Fused(st, p, prog0)
    case None =>
    case Some(q) =>
      assert q != p by { assert |q.argv| > |p.argv|; }
  }

  /** The pass keeps the instruction count and order: each instruction is
      kept or fused in place. */
  lemma {:induction false} FuseInPlace(prog0: seq<Instr>, types0: seq<VarType>, udf0: set<VarId>, n: nat)
    requires ProgramVarsBelow(prog0, |types0|) && n <= |prog0|
    ensures forall i :: 0 <= i < n ==> KeptOrFused(prog0[i], FusePrefix(prog0, types0, udf0, n).out[i])
    decreases n
  {
    if n > 0 {
      FuseInPlace(prog0, types0, udf0, n - 1);
      InPlaceStep(prog0, FusePrefix(prog0, types0, udf0, n - 1), FusePrefix(prog0, types0, udf0, n), n - 1);
    }
  }

  /** One round keeps every instruction so far kept or fused in place. */
  lemma InPlaceStep(prog0: seq<Instr>, prev: Pass, st: Pass, n: nat)
    requires n < |prog0| && |prev.out| == n
    requires WellFormed(prog0[n], |prev.types|) && ProgramVarsBelow(prev.out, |prev.types|)
    requires st == FuseStep(prev, prog0[n], prog0)
    requires forall i :: 0 <= i < n ==> KeptOrFused(prog0[i], prev.out[i])
    ensures forall i :: 0 <= i < n + 1 ==> KeptOrFused(prog0[i], st.out[i])
  {
    StepInPlace(prev, prog0[n], prog0);
    forall i | 0 <= i < n + 1 ensures KeptOrFused(prog0[i], st.out[i]) {
      if i < n {
        assert st.out[i] == st.out[..n][i] == prev.out[i];
      }
    }
  }

  /** `actions` counts the fused instructions. */
  lemma {:induction false} FuseCountsActions(prog0: seq<Instr>, types0: seq<VarType>, udf0: set<VarId>, n: nat)
    requires ProgramVarsBelow(prog0, |types0|) && n <= |prog0|
    ensures FusePrefix(prog0, types0, udf0, n).actions == Changed(prog0, FusePrefix(prog0, types0, udf0, n).out, n)
    decreases n
  {
    if n > 0 {
      FuseCountsActions(prog0, types0, udf0, n - 1);
      CountsStep(prog0, FusePrefix(prog0, types0, udf0, n - 1), FusePrefix(prog0, types0, udf0, n), n - 1);
    }
  }

  /** One round keeps `actions` equal to the number of changed positions. */
  lemma CountsStep(prog0: seq<Instr>, prev: Pass, st: Pass, n: nat)
    requires n < |prog0| && |prev.out| == n
    requires WellFormed(prog0[n], |prev.types|) && ProgramVarsBelow(prev.out, |prev.types|)
    requires st == FuseStep(prev, prog0[n], prog0)
    requires prev.actions == Changed(prog0, prev.out, n)
    ensures st.actions == Changed(prog0, st.out, n + 1)
  {
    StepInPlace(prev, prog0[n], prog0);
    assert st.out[..n] == prev.out == prev.out[..n];
    ChangedSame(prog0, prev.out, st.out, n);
  }

  /** Only the results of fused instructions get a new, fixed type. */
  lemma {:induction false} FuseTypesLocal(prog0: seq<Instr>, types0: seq<VarType>, udf0: set<VarId>, n: nat, v: VarId)
    requires ProgramVarsBelow(prog0, |types0|) && n <= |prog0| && v < |types0|
    requires forall i :: 0 <= i < n && FusePrefix(prog0, types0, udf0, n).out[i] != prog0[i] ==>
               FusePrefix(prog0, types0, udf0, n).out[i].argv[0] != v
    ensures FusePrefix(prog0, types0, udf0, n).types[v] == types0[v]
    ensures v in FusePrefix(prog0, types0, udf0, n).udf <==> v in udf0
    decreases n
  {
    if n > 0 {
      var prev := FusePrefix(prog0, types0, udf0, n - 1);
      TypesStep(prog0, prev, FusePrefix(prog0, types0, udf0, n), n - 1, v);
      FuseTypesLocal(prog0, types0, udf0, n - 1, v);
    }
  }

  /** The hypothesis of FuseTypesLocal passes to the previous round, and
      the round itself leaves v's type and mark alone. */
  lemma TypesStep(prog0: seq<Instr>, prev: Pass, st: Pass, n: nat, v: VarId)
    requires n < |prog0| && |prev.out| == n && v < |prev.types|
    requires WellFormed(prog0[n], |prev.types|) && ProgramVarsBelow(prev.out, |prev.types|)
    requires st == FuseStep(prev, prog0[n], prog0)
    requires forall i :: 0 <= i < n + 1 && st.out[i] != prog0[i] ==> st.out[i].argv[0] != v
    ensures forall i :: 0 <= i < n && prev.out[i] != prog0[i] ==> prev.out[i].argv[0] != v
    ensures st.types[v] == prev.types[v]
    ensures v in st.udf <==> v in prev.udf
  {
    forall i | 0 <= i < n && prev.out[i] != prog0[i] ensures prev.out[i].argv[0] != v {
      assert st.out[i] == st.out[..n][i] == prev.out[i];
    }
    assert st.out[n] != prog0[n] ==> st.out[n].argv[0] != v;
    StepTypesLocal(prev, prog0[n], prog0, v);
  }

  /** One round changes the type of v only when it fuses an instruction
      whose result is v. */
  lemma StepTypesLocal(st: Pass, p: Instr, prog0: seq<Instr>, v: VarId)
    requires WellFormed(p, |st.types|) && ProgramVarsBelow(st.out, |st.types|) && v < |st.types|
    requires var st' := FuseStep(st, p, prog0); st'.out[|st.out|] != p ==> st'.out[|st.out|].argv[0] != v
    ensures FuseStep(st, p, prog0).types[v] == st.types[v]
    ensures v in FuseStep(st, p, prog0).udf <==> v in st.udf
  {
    match Fused(st, p, prog0)
    case None =>
    case Some(q) =>
      assert q != p by { assert |q.argv| > |p.argv|; }
  }

  /** Changed only looks below n. */
  lemma {:induction false} ChangedSame(a: seq<Instr>, b: seq<Instr>, c: seq<Instr>, n: nat)
    requires n <= |a| && n <= |b| && n <= |c| && b[..n] == c[..n]
    ensures Changed(a, b, n) == Changed(a, c, n)
    decreases n
  {
    if n > 0 {
      assert b[..n - 1] == c[..n - 1] by {
        assert b[..n - 1] == b[..n][..n - 1] && c[..n - 1] == c[..n][..n - 1];
      }
      assert b[n - 1] == b[..n][n - 1] && c[n - 1] == c[..n][n - 1];
      ChangedSame(a, b, c, n - 1);
    }
  }

  /** An instruction that is not a pairwise algebra join, or none of whose
      arguments has a foldable producer, is pushed unchanged. */
  lemma KeptUnlessFoldable(st: Pass, p: Instr, prog0: seq<Instr>)
    requires WellFormed(p, |st.types|) && ProgramVarsBelow(st.out, |st.types|)
    requires !IsPairJoin(p) || forall k :: p.retc <= k < |p.argv| ==> !Foldable(p, st.out, st.pc, prog0, k)
    ensures var st' := FuseStep(st, p, prog0);
      st'.out == st.out + [p] && st'.types == st.types && st'.udf == st.udf && st'.actions == st.actions
  {
    if IsPairJoin(p) {
      PushedPlain(p, st.out, st.pc, prog0, |p.argv|);
      assert |Expansion(p, st.out, st.pc, prog0)| == 1 + |p.argv| - p.retc;
    }
  }

  /** A fused instruction passed the type test on the types before it and
      carries the path type of its first and last arguments. */
  lemma FusedTyped(st: Pass, p: Instr, prog0: seq<Instr>)
    requires WellFormed(p, |st.types|) && ProgramVarsBelow(st.out, |st.types|)
    requires Fused(st, p, prog0).Some?
    ensures var q := Fused(st, p, prog0).value; var st' := FuseStep(st, p, prog0);
      && Chains(st.types, q.argv) && q.argv == Expansion(p, st.out, st.pc, prog0)
      && st'.out == st.out + [q] && st'.actions == st.actions + 1
      && st'.types[q.argv[0]] == VarType(st.types[q.argv[p.retc]].head, st.types[q.argv[|q.argv| - 1]].tail)
      && q.argv[0] in st'.udf
      && forall v :: 0 <= v < |st.types| && v != q.argv[0] ==> st'.types[v] == st.types[v]
  {
  }
}
