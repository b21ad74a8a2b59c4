/**
 * The join path optimizer OPTjoinPathImplementation and its second phase
 * OPTjoinSubPath (MonetDB5/optimizer/opt_joinpath.c) as they run: a MAL
 * block whose instruction list, variable types and fixed-type flags the
 * passes rebuild, each loop proved against the pass functions of the
 * JoinFusion and SubPath modules.
 */
module Optimizer {
  import opened Util
  import opened Mal
  import opened JoinFusion
  import opened SubPath

  /** Record idx as the last assignment of a[..n] (lines 283-284). */
  method SetLast(pc: map<VarId, nat>, a: seq<VarId>, n: nat, idx: nat) returns (pc': map<VarId, nat>)
    requires n <= |a|
    ensures pc' == SetPc(pc, a, n, idx)
    ensures forall v :: v in a[..n] ==> Get(pc', v) == idx
    ensures forall v :: v !in a[..n] ==> Get(pc', v) == Get(pc, v)
  {
    pc' := pc;
    var j := 0;
    while j < n
      invariant j <= n && pc' == SetPc(pc, a, j, idx)
    {
      pc' := pc'[a[j] := idx];
      j := j + 1;
    }
  }

  /** The highest candidate with the key (the search of lines 73-78). */
  method FindCandidate(cands: seq<Candidate>, key: Key) returns (r: Option<nat>)
    ensures r == Search(cands, key, |cands|)
    ensures r.Some? ==> r.value < |cands| && cands[r.value].key == key
    ensures r.None? <==> forall i :: 0 <= i < |cands| ==> cands[i].key != key
  {
    var k: nat := |cands|;
    while k > 0 && cands[k - 1].key != key
      invariant k <= |cands| && Search(cands, key, |cands|) == Search(cands, key, k)
    {
      k := k - 1;
    }
    r := if k == 0 then None else Some(k - 1);
  }

  /** The highest candidate with the key and a count above one (the
      search of lines 103-104). */
  method FindSharedCandidate(cands: seq<Candidate>, key: Key) returns (r: Option<nat>)
    ensures r == SearchShared(cands, key, |cands|)
    ensures r.Some? ==> r.value < |cands| && cands[r.value].key == key && cands[r.value].cnt > 1
    ensures r.None? <==> forall i :: 0 <= i < |cands| ==> !(cands[i].key == key && cands[i].cnt > 1)
  {
    var k: nat := |cands|;
    while k > 0 && !(cands[k - 1].key == key && cands[k - 1].cnt > 1)
      invariant k <= |cands| && SearchShared(cands, key, |cands|) == SearchShared(cands, key, k)
    {
      k := k - 1;
    }
    r := if k == 0 then None else Some(k - 1);
  }

  /** The first pair of p whose candidate is shared, with that candidate
      (lines 101-104). */
  method FindShared(p: Instr, cands: seq<Candidate>) returns (r: Option<(nat, nat)>)
    ensures r == FirstShared(p, cands, p.retc)
    ensures r.Some? ==> p.retc <= r.value.0 < |p.argv| - 1 && r.value.1 < |cands|
                        && cands[r.value.1].key == Key(p.argv[r.value.0], p.argv[r.value.0 + 1], p.fcn)
                        && cands[r.value.1].cnt > 1
  {
    var j := p.retc;
    while j + 1 < |p.argv|
      invariant p.retc <= j && FirstShared(p, cands, p.retc) == FirstShared(p, cands, j)
      decreases |p.argv| - j
    {
      var k := FindSharedCandidate(cands, Key(p.argv[j], p.argv[j + 1], p.fcn));
      FirstSharedAt(p, cands, j);
      if k.Some? {
        r := Some((j, k.value));
        FirstSharedIs(p, cands, r);
        return;
      }
      j := j + 1;
    }
    FirstSharedAt(p, cands, j);
    return None;
  }

  /** One step of the search FirstShared. */
  lemma FirstSharedAt(p: Instr, cands: seq<Candidate>, j: nat)
    requires p.retc <= j
    ensures j + 1 >= |p.argv| ==> FirstShared(p, cands, j) == None
    ensures j + 1 < |p.argv| ==>
      FirstShared(p, cands, j) ==
        (var s := SearchShared(cands, Key(p.argv[j], p.argv[j + 1], p.fcn), |cands|);
         if s.Some? then Some((j, s.value)) else FirstShared(p, cands, j + 1))
  {
  }

  /** What a found shared pair of p satisfies. */
  lemma FirstSharedIs(p: Instr, cands: seq<Candidate>, r: Option<(nat, nat)>)
    requires p.retc <= |p.argv| && r == FirstShared(p, cands, p.retc) && r.Some?
    ensures p.retc <= r.value.0 < |p.argv| - 1 && r.value.1 < |cands|
    ensures cands[r.value.1].key == Key(p.argv[r.value.0], p.argv[r.value.0 + 1], p.fcn)
    ensures cands[r.value.1].cnt > 1
  {
  }

  /** Lines 70-85 for one pair: count it or add it while there is room. */
  method TallyOne(cands: seq<Candidate>, key: Key, cap: nat) returns (cands': seq<Candidate>)
    ensures cands' == Tally(cands, key, cap)
  {
    var k := FindCandidate(cands, key);
    match k
    case Some(x) =>
      cands' := cands[x := cands[x].(cnt := cands[x].cnt + 1)];
    case None =>
      cands' := cands;
      if |cands| < cap {
        cands' := cands + [Candidate(key, 1, None)];
      }
  }

  /** Tallying one more key extends the fold. */
  lemma CollectSnoc(done: seq<Key>, key: Key, cap: nat)
    ensures Collect(done + [key], cap) == Tally(Collect(done, cap), key, cap)
  {
    assert (done + [key])[..|done|] == done;
  }

  lemma PrefixSnoc<T>(done: seq<T>, ps: seq<T>, m: nat)
    requires m < |ps|
    ensures done + ps[..m + 1] == done + ps[..m] + [ps[m]]
  {
    assert ps[..m + 1] == ps[..m] + [ps[m]];
  }

  /** The table after one more key, ps[m]. */
  method TallyNext(cands: seq<Candidate>, key: Key, cap: nat, ghost done: seq<Key>, ghost ps: seq<Key>, ghost m: nat)
    returns (cands': seq<Candidate>)
    requires m < |ps| && ps[m] == key && cands == Collect(done + ps[..m], cap)
    ensures cands' == Collect(done + ps[..m + 1], cap)
  {
    PrefixSnoc(done, ps, m);
    CollectSnoc(done + ps[..m], key, cap);
    cands' := TallyOne(cands, key, cap);
  }

  /** The pairs of one join path tallied in order (lines 72-86). */
  method TallyPairs(cands: seq<Candidate>, p: Instr, cap: nat, ghost done: seq<Key>) returns (cands': seq<Candidate>)
    requires IsPathFcn(p.fcn) && p.retc <= |p.argv| && cands == Collect(done, cap)
    ensures cands' == Collect(done + PairsOf(p), cap)
  {
    cands' := cands;
    ghost var ps := PairsOf(p);
    assert done + ps[..0] == done;
    var j := p.retc;
    while j + 1 < |p.argv|
      invariant p.retc <= j && j - p.retc <= |ps|
      invariant cands' == Collect(done + ps[..j - p.retc], cap)
      decreases |p.argv| - j
    {
      cands' := TallyNext(cands', Key(p.argv[j], p.argv[j + 1], p.fcn), cap, done, ps, j - p.retc);
      j := j + 1;
    }
    assert ps[..j - p.retc] == ps;
  }

  /** The pairs of one instruction tallied; only join paths have any. */
  method TallyInstr(cands: seq<Candidate>, p: Instr, cap: nat, ghost done: seq<Key>) returns (cands': seq<Candidate>)
    requires p.retc <= |p.argv| && cands == Collect(done, cap)
    ensures cands' == Collect(done + PairsOf(p), cap)
  {
    if IsPathFcn(p.fcn) {
      cands' := TallyPairs(cands, p, cap, done);
    } else {
      assert done + PairsOf(p) == done;
      cands' := cands;
    }
  }

  /** The table after the pairs of instruction i (lines 66-86). */
  method CollectNext(cands: seq<Candidate>, prog: seq<Instr>, i: nat, cap: nat) returns (cands': seq<Candidate>)
    requires i < |prog| && prog[i].retc <= |prog[i].argv| && cands == Collect(AllPairs(prog[..i]), cap)
    ensures cands' == Collect(AllPairs(prog[..i + 1]), cap)
  {
    AllPairsSnoc(prog, i);
    cands' := TallyInstr(cands, prog[i], cap, AllPairs(prog[..i]));
  }

  /** varcnt holds the use count of every variable of prog. */
  ghost predicate CountsUses(varcnt: map<VarId, nat>, prog: seq<Instr>)
  {
    forall v :: Get(varcnt, v) == Uses(prog, v)
  }

  /** varcnt holds the uses in prefix plus the occurrences in s. */
  ghost predicate Counted(varcnt: map<VarId, nat>, prefix: seq<Instr>, s: seq<VarId>)
  {
    forall v :: Get(varcnt, v) == Uses(prefix, v) + multiset(s)[v]
  }

  /** One instruction's arguments counted (lines 190-191). */
  method CountArgs(varcnt: map<VarId, nat>, p: Instr, ghost prefix: seq<Instr>) returns (varcnt': map<VarId, nat>)
    requires p.retc <= |p.argv| && Counted(varcnt, prefix, [])
    ensures Counted(varcnt', prefix, Args(p))
  {
    varcnt' := varcnt;
    ghost var seen: seq<VarId> := [];
    var j := p.retc;
    while j < |p.argv|
      invariant p.retc <= j <= |p.argv|
      invariant seen == p.argv[p.retc..j] && Counted(varcnt', prefix, seen)
    {
      CountStep(varcnt', prefix, seen, p.argv[j]);
      varcnt' := varcnt'[p.argv[j] := Get(varcnt', p.argv[j]) + 1];
      seen := seen + [p.argv[j]];
      j := j + 1;
    }
    assert seen == Args(p);
  }

  /** Uses of a program extended by one instruction. */
  lemma UsesSnoc(prefix: seq<Instr>, p: Instr)
    ensures forall v :: Uses(prefix + [p], v) == Uses(prefix, v) + multiset(Args(p))[v]
  {
    assert (prefix + [p])[..|prefix|] == prefix;
  }

  /** The pairs of a program extended by one instruction. */
  lemma AllPairsSnoc(prog: seq<Instr>, i: nat)
    requires i < |prog|
    ensures AllPairs(prog[..i + 1]) == AllPairs(prog[..i]) + PairsOf(prog[i])
  {
    assert prog[..i + 1][..i] == prog[..i];
  }

  /** Counting one more use of x. */
  lemma CountStep(varcnt: map<VarId, nat>, prefix: seq<Instr>, s: seq<VarId>, x: VarId)
    requires Counted(varcnt, prefix, s)
    ensures Counted(varcnt[x := Get(varcnt, x) + 1], prefix, s + [x])
  {
    assert multiset(s + [x]) == multiset(s) + multiset{x};
  }

  /** What argument v of pair join p contributes: the arguments of its
      producer when that is a join of p's family used only here, or v
      itself (lines 205-244). */
  method Contribute(p: Instr, v: VarId, out: seq<Instr>, pc: map<VarId, nat>, varcnt: map<VarId, nat>, ghost prog0: seq<Instr>)
    returns (c: seq<VarId>)
    requires Get(varcnt, v) == Uses(prog0, v)
    ensures c == Contribution(p, v, out, pc, prog0)
  {
    var r: Option<Instr> := None;
    if Get(pc, v) < |out| {
      r := Some(out[Get(pc, v)]);
    }
    if r.Some? && Get(varcnt, v) > 1 {
      r := None;
    }
    if r.Some? && r.value.modId == Algebra && SameFamily(p.fcn, r.value.fcn) {
      c := Args(r.value);
    } else {
      c := [v];
    }
  }

  /** The expanded argument list of pair join p against the instructions
      out pushed so far (lines 202-246). */
  method ExpandArgs(p: Instr, out: seq<Instr>, pc: map<VarId, nat>, varcnt: map<VarId, nat>, ghost prog0: seq<Instr>)
    returns (a: seq<VarId>)
    requires 1 <= p.retc <= |p.argv| && CountsUses(varcnt, prog0)
    ensures a == Expansion(p, out, pc, prog0)
  {
    a := [p.argv[0]];
    var j := p.retc;
    while j < |p.argv|
      invariant p.retc <= j <= |p.argv| && a == [p.argv[0]] + Pushed(p, out, pc, prog0, j)
    {
      a := PushArg(p, j, out, pc, varcnt, prog0, a);
      j := j + 1;
    }
  }

  /** One step of the loop of lines 202-246: argument j of p appended. */
  method PushArg(p: Instr, j: nat, out: seq<Instr>, pc: map<VarId, nat>, varcnt: map<VarId, nat>,
                 ghost prog0: seq<Instr>, a: seq<VarId>) returns (a': seq<VarId>)
    requires 1 <= p.retc <= j < |p.argv| && CountsUses(varcnt, prog0)
    requires a == [p.argv[0]] + Pushed(p, out, pc, prog0, j)
    ensures a' == [p.argv[0]] + Pushed(p, out, pc, prog0, j + 1)
  {
    assert Get(varcnt, p.argv[j]) == Uses(prog0, p.argv[j]);
    var c := Contribute(p, p.argv[j], out, pc, varcnt, prog0);
    assert Pushed(p, out, pc, prog0, j + 1) == Pushed(p, out, pc, prog0, j) + c;
    a' := a + c;
  }

  /** A MAL block: its instructions, the type of each variable, and the
      variables whose type is fixed by the user or an optimizer. */
  class MalBlk {
    var stmt: seq<Instr>
    var types: seq<VarType>
    var udf: set<VarId>

    ghost predicate Valid()
      reads this
    {
      ProgramVarsBelow(stmt, |types|)
    }

    constructor(stmt0: seq<Instr>, types0: seq<VarType>)
      requires ProgramVarsBelow(stmt0, |types0|)
      ensures Valid() && stmt == stmt0 && types == types0 && udf == {}
    {
      stmt := stmt0;
      types := types0;
      udf := {};
    }

    /** The use counts of lines 184-192: how often each variable is an
        argument of an instruction. */
    method CountUses() returns (varcnt: map<VarId, nat>)
      requires Valid()
      ensures CountsUses(varcnt, stmt)
    {
      varcnt := map[];
      var i := 0;
      while i < |stmt|
        invariant i <= |stmt|
        invariant CountsUses(varcnt, stmt[..i])
      {
        assert WellFormed(stmt[i], |types|);
        assert Counted(varcnt, stmt[..i], []);
        varcnt := CountArgs(varcnt, stmt[i], stmt[..i]);
        UsesSnoc(stmt[..i], stmt[i]);
        assert stmt[..i + 1] == stmt[..i] + [stmt[i]];
        i := i + 1;
      }
      assert stmt[..|stmt|] == stmt;
    }

    /** The type test of lines 256-265 over the expanded list. */
    method TypeChains(a: seq<VarId>) returns (ok: bool)
      requires forall k :: 0 <= k < |a| ==> a[k] < |types|
      ensures ok == Chains(types, a)
    {
      var j := 1;
      while j < |a| - 1
        invariant 1 <= j
        invariant forall m :: 1 <= m < j && m < |a| - 1 ==> !Breaks(types[a[m]], types[a[m + 1]])
      {
        if Breaks(types[a[j]], types[a[j + 1]]) {
          return false;
        }
        j := j + 1;
      }
      return true;
    }

    /** The fusion loop of lines 194-284. */
    method FuseJoins() returns (actions: nat)
      requires Valid()
      modifies this
      ensures Valid()
      ensures var f := FusePrefix(old(stmt), old(types), old(udf), |old(stmt)|);
        stmt == f.out && types == f.types && udf == f.udf && actions == f.actions
    {
      var varcnt := CountUses();
      var prog0 := stmt;
      ghost var types0 := types;
      ghost var udf0 := udf;
      stmt := [];
      var pc: map<VarId, nat> := map[];
      actions := 0;
      var i := 0;
      while i < |prog0|
        invariant i <= |prog0| && ProgramVarsBelow(prog0, |types0|)
        invariant Pass(stmt, types, udf, pc, actions) == FusePrefix(prog0, types0, udf0, i)
        invariant CountsUses(varcnt, prog0)
      {
        assert WellFormed(prog0[i], |types|);
        pc, actions := FuseOne(prog0[i], pc, varcnt, prog0, actions);
        i := i + 1;
      }
    }

    /** One round of the fusion loop: push the fused form of p, with its
        result type fixed, or p itself (lines 196-284). */
    method FuseOne(p: Instr, pc: map<VarId, nat>, varcnt: map<VarId, nat>, ghost prog0: seq<Instr>, actions: nat)
      returns (pc': map<VarId, nat>, actions': nat)
      requires WellFormed(p, |types|) && ProgramVarsBelow(stmt, |types|)
      requires CountsUses(varcnt, prog0)
      modifies this
      ensures Pass(stmt, types, udf, pc', actions') == FuseStep(Pass(old(stmt), old(types), old(udf), pc, actions), p, prog0)
    {
      ghost var st := Pass(stmt, types, udf, pc, actions);
      var fused := TryFuse(p, pc, varcnt, prog0, st);
      var p' := p;
      actions' := actions;
      if fused.Some? {
        var q := fused.value;
        udf := udf + {q.argv[0]};
        types := types[q.argv[0] := PathType(types, q)];
        p' := q;
        actions' := actions + 1;
      }
      stmt := stmt + [p'];
      pc' := SetLast(pc, p'.argv, p'.retc, |stmt| - 1);
    }

    /** The fused form of p, if it is a pair join that grows and passes
        the type test (lines 196-278). */
    method TryFuse(p: Instr, pc: map<VarId, nat>, varcnt: map<VarId, nat>, ghost prog0: seq<Instr>, ghost st: Pass)
      returns (fused: Option<Instr>)
      requires st.out == stmt && st.types == types && st.pc == pc
      requires WellFormed(p, |types|) && ProgramVarsBelow(stmt, |types|)
      requires CountsUses(varcnt, prog0)
      ensures fused == Fused(st, p, prog0)
    {
      fused := None;
      if IsPairJoin(p) {
        var a := ExpandArgs(p, stmt, pc, varcnt, prog0);
        if |a| > |p.argv| {
          PushedBelow(p, stmt, pc, prog0, |p.argv|, |types|);
          assert forall k :: 0 <= k < |a| ==> a[k] < |types| by {
            forall k | 0 <= k < |a| ensures a[k] < |types| {
              if k > 0 { assert a[k] in Pushed(p, stmt, pc, prog0, |p.argv|); }
            }
          }
          var ok := TypeChains(a);
          if ok {
            fused := Some(Instr(p.modId, PathName(p.fcn, |a|), p.retc, a));
          }
        }
      }
    }

    /** The candidate collection of lines 66-86. */
    method CollectCandidates() returns (cands: seq<Candidate>)
      requires Valid()
      ensures cands == Collect(AllPairs(stmt), |stmt|)
    {
      var prog := stmt;
      cands := [];
      var i := 0;
      while i < |prog|
        invariant i <= |prog| && cands == Collect(AllPairs(prog[..i]), |prog|)
      {
        assert WellFormed(prog[i], |types|);
        cands := CollectNext(cands, prog, i, |prog|);
        i := i + 1;
      }
      assert prog[..|prog|] == prog;
    }

    /** The rewriting loop of lines 97-137 over a collected table. */
    method RewriteSubPaths(cands0: seq<Candidate>) returns (actions: nat)
      requires Valid() && KeysBelow(cands0, |types|)
      requires forall i :: 0 <= i < |cands0| ==> cands0[i].shared.None?
      modifies this
      ensures var r := RewritePrefix(old(stmt), cands0, old(types), |old(stmt)|);
        stmt == r.out && types == r.types && actions == r.actions && udf == old(udf)
    {
      var prog0 := stmt;
      ghost var types0 := types;
      var cands := cands0;
      stmt := [];
      actions := 0;
      var i := 0;
      while i < |prog0|
        invariant i <= |prog0| && ProgramVarsBelow(prog0, |types0|) && udf == old(udf)
        invariant Rewrite(stmt, cands, types, actions) == RewritePrefix(prog0, cands0, types0, i)
      {
        assert WellFormed(prog0[i], |types0|);
        cands, actions := RewriteOne(prog0[i], cands, actions);
        i := i + 1;
      }
    }

    /** One round of the rewriting loop (lines 97-137): p pushed, with its
        first shared pair replaced by the shared join. */
    method RewriteOne(p: Instr, cands: seq<Candidate>, actions: nat) returns (cands': seq<Candidate>, actions': nat)
      requires p.retc <= |p.argv|
      modifies this
      ensures Rewrite(stmt, cands', types, actions') == RewriteStep(Rewrite(old(stmt), cands, old(types), actions), p)
      ensures udf == old(udf)
    {
      var q := p;
      cands' := cands;
      actions' := actions;
      if IsPathFcn(p.fcn) {
        var found := FindShared(p, cands);
        if found.Some? {
          var (j, k) := found.value;
          var c := cands[k];
          var w: VarId;
          if c.shared.None? {
            w := |types|;
            types := types + [VarType(Any, Any)];
            stmt := stmt + [SharedJoin(c.key, w)];
          } else {
            w := c.shared.value;
          }
          cands' := cands[k := c.(shared := Some(w))];
          q := Replace(p, j, w);
          actions' := actions + 1;
        }
      }
      stmt := stmt + [q];
    }

    /** OPTjoinSubPath (lines 52-150). */
    method JoinSubPath() returns (actions: nat)
      requires Valid()
      modifies this
      ensures Valid() && udf == old(udf)
      ensures var r := SubPathPass(old(stmt), old(types));
        stmt == r.out && types == r.types && actions == r.actions
    {
      var cands := CollectCandidates();
      if |cands| == 0 {
        return 0;
      }
      CollectSpec(AllPairs(stmt), |stmt|);
      AllPairsBelow(stmt, |types|);
      SubPathSpec(stmt, types);
      actions := RewriteSubPaths(cands);
    }

    /**
     * OPTjoinPathImplementation (lines 152-297): nothing happens in an
     * inlined function; otherwise the fusion pass runs, and the subpath
     * pass follows when it fused anything.
     */
    method JoinPathImplementation(inlined: bool) returns (actions: nat)
      requires Valid()
      modifies this
      ensures Valid()
      ensures inlined ==> actions == 0 && stmt == old(stmt) && types == old(types) && udf == old(udf)
      ensures !inlined ==> var f := FusePrefix(old(stmt), old(types), old(udf), |old(stmt)|);
        && udf == f.udf
        && (f.actions == 0 ==> stmt == f.out && types == f.types && actions == 0)
        && (f.actions > 0 ==> var s := SubPathPass(f.out, f.types);
              stmt == s.out && types == s.types && actions == f.actions + s.actions)
    {
      if inlined {
        return 0;
      }
      actions := FuseJoins();
      if actions > 0 {
        var more := JoinSubPath();
        actions := actions + more;
      }
    }
  }
}
