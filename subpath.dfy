/**
 * The common-subpath pass OPTjoinSubPath (MonetDB5/optimizer/opt_joinpath.c):
 * a pair of adjacent join-path arguments that occurs more than once in the
 * program is computed once by a pairwise join placed before its first
 * use, and every path that uses it (one pair per path) takes the shared
 * result instead.
 */
module SubPath {
  import opened Util
  import opened Mal

  /** Two adjacent join-path arguments and the path function. */
  datatype Key = Key(lvar: VarId, rvar: VarId, fcn: FcnId)

  /** A candidate pair, its occurrence count, and the result of the
      pairwise join computing it once that join exists. */
  datatype Candidate = Candidate(key: Key, cnt: nat, shared: Option<VarId>)

  /** The pairs of adjacent arguments argv[j], argv[j+1] of a join path,
      for j in retc..argc-2. */
  function PairsOf(p: Instr): (ks: seq<Key>)
    ensures IsPathFcn(p.fcn) && p.retc < |p.argv| ==> |ks| == |p.argv| - 1 - p.retc
    ensures forall m :: 0 <= m < |ks| ==> p.retc + m + 1 < |p.argv| && ks[m] == Key(p.argv[p.retc + m], p.argv[p.retc + m + 1], p.fcn)
    ensures !IsPathFcn(p.fcn) ==> ks == []
  {
    if IsPathFcn(p.fcn) && p.retc < |p.argv| then
      seq(|p.argv| - 1 - p.retc, m requires 0 <= m < |p.argv| - 1 - p.retc => Key(p.argv[p.retc + m], p.argv[p.retc + m + 1], p.fcn))
    else []
  }

  /** All pairs of prog, in program order. */
  function AllPairs(prog: seq<Instr>): seq<Key>
  {
    if |prog| == 0 then [] else AllPairs(prog[..|prog| - 1]) + PairsOf(prog[|prog| - 1])
  }

  /** The highest candidate index below k with the given key. */
  function Search(cands: seq<Candidate>, key: Key, k: nat): (r: Option<nat>)
    requires k <= |cands|
    ensures r.Some? ==> r.value < k && cands[r.value].key == key
    ensures r.Some? ==> forall i :: r.value < i < k ==> cands[i].key != key
    ensures r.None? <==> forall i :: 0 <= i < k ==> cands[i].key != key
  {
    if k == 0 then None
    else if cands[k - 1].key == key then Some(k - 1)
    else Search(cands, key, k - 1)
  }

  /** Lines 70-85: count one more occurrence of key, or add it with count
      1 while fewer than cap candidates exist. */
  function Tally(cands: seq<Candidate>, key: Key, cap: nat): seq<Candidate>
  {
    match Search(cands, key, |cands|)
      case Some(i) => cands[i := cands[i].(cnt := cands[i].cnt + 1)]
      case None => if |cands| < cap then cands + [Candidate(key, 1, None)] else cands
  }

  /** The candidate table after tallying keys. */
  function Collect(keys: seq<Key>, cap: nat): seq<Candidate>
  {
    if |keys| == 0 then [] else Tally(Collect(keys[..|keys| - 1], cap), keys[|keys| - 1], cap)
  }

  predicate DistinctKeys(cands: seq<Candidate>)
  {
    forall a, b :: 0 <= a < b < |cands| ==> cands[a].key != cands[b].key
  }

  /** What collection establishes: distinct keys, each counted exactly
      as often as it occurs, no join created yet, at most cap
      candidates, and every key present unless the table is full. */
  predicate Collected(cands: seq<Candidate>, keys: seq<Key>, cap: nat)
  {
    && DistinctKeys(cands)
    && |cands| <= cap
    && (forall i :: 0 <= i < |cands| ==> cands[i].key in keys && cands[i].cnt == multiset(keys)[cands[i].key] && cands[i].shared.None?)
    && (|cands| < cap ==> forall key :: key in keys ==> exists i :: 0 <= i < |cands| && cands[i].key == key)
  }

  lemma {:induction false} CollectSpec(keys: seq<Key>, cap: nat)
    ensures Collected(Collect(keys, cap), keys, cap)
    decreases |keys|
  {
    if |keys| > 0 {
      var ks := keys[..|keys| - 1];
      var key := keys[|keys| - 1];
      assert keys == ks + [key];
      CollectSpec(ks, cap);
      TallySpec(Collect(ks, cap), ks, key, cap);
    }
  }

  lemma TallySpec(c: seq<Candidate>, ks: seq<Key>, key: Key, cap: nat)
    requires Collected(c, ks, cap)
    ensures Collected(Tally(c, key, cap), ks + [key], cap)
  {
    var c' := Tally(c, key, cap);
    assert multiset(ks + [key]) == multiset(ks) + multiset{key};
    match Search(c, key, |c|)
    case Some(i) =>
      assert forall a :: 0 <= a < |c| ==> c'[a].key == c[a].key;
    case None =>
      if |c| < cap {
        assert key !in ks;
        forall key' | key' in ks + [key] ensures exists i :: 0 <= i < |c'| && c'[i].key == key' {
          if key' == key {
            assert c'[|c|].key == key';
          } else {
            var i :| 0 <= i < |c| && c[i].key == key';
            assert c'[i].key == key';
          }
        }
      }
  }

  /** The state of the rewriting loop: the new program, the candidates,
      the type table (a created join adds a variable) and the rewrites. */
  datatype Rewrite = Rewrite(out: seq<Instr>, cands: seq<Candidate>, types: seq<VarType>, actions: nat)

  /** The highest candidate below k with the key and a count above one
      (the search of lines 103-104). */
  function SearchShared(cands: seq<Candidate>, key: Key, k: nat): (r: Option<nat>)
    requires k <= |cands|
    ensures r.Some? ==> r.value < k && cands[r.value].key == key && cands[r.value].cnt > 1
    ensures r.None? <==> forall i :: 0 <= i < k ==> !(cands[i].key == key && cands[i].cnt > 1)
  {
    if k == 0 then None
    else if cands[k - 1].key == key && cands[k - 1].cnt > 1 then Some(k - 1)
    else SearchShared(cands, key, k - 1)
  }

  /** The first position j' >= j of a join path whose pair is a shared
      candidate, with that candidate. */
  function FirstShared(p: Instr, cands: seq<Candidate>, j: nat): (r: Option<(nat, nat)>)
    requires p.retc <= j
    ensures r.Some? ==> && j <= r.value.0 < |p.argv| - 1 && r.value.1 < |cands|
                        && SearchShared(cands, Key(p.argv[r.value.0], p.argv[r.value.0 + 1], p.fcn), |cands|) == Some(r.value.1)
    ensures r.Some? ==> forall m :: j <= m < r.value.0 ==> SearchShared(cands, Key(p.argv[m], p.argv[m + 1], p.fcn), |cands|).None?
    ensures r.None? ==> forall m :: j <= m < |p.argv| - 1 ==> SearchShared(cands, Key(p.argv[m], p.argv[m + 1], p.fcn), |cands|).None?
    decreases |p.argv| - j
  {
    if j + 1 >= |p.argv| then None
    else match SearchShared(cands, Key(p.argv[j], p.argv[j + 1], p.fcn), |cands|)
      case Some(k) => Some((j, k))
      case None => FirstShared(p, cands, j + 1)
  }

  /** The pairwise join computing a shared pair into w. */
  function SharedJoin(key: Key, w: VarId): Instr
    requires IsPathFcn(key.fcn)
  {
    Instr(Algebra, PairFcn(key.fcn), 1, [w, key.lvar, key.rvar])
  }

  /** p with its pair at j replaced by w, renamed to the pairwise join
      when one pair is left (lines 116-125). */
  function Replace(p: Instr, j: nat, w: VarId): (q: Instr)
    requires IsPathFcn(p.fcn) && j + 1 < |p.argv|
    ensures |q.argv| == |p.argv| - 1 && q.modId == p.modId && q.retc == p.retc
    ensures q.argv == p.argv[..j] + [w] + p.argv[j + 2..]
    ensures q.fcn == (if |q.argv| == 3 then PairFcn(p.fcn) else p.fcn)
  {
    var argv := p.argv[..j] + [w] + p.argv[j + 2..];
    Instr(p.modId, if |argv| == 3 then PairFcn(p.fcn) else p.fcn, p.retc, argv)
  }

  /** One round of the loop of lines 97-137. */
  function RewriteStep(st: Rewrite, p: Instr): Rewrite
    requires p.retc <= |p.argv|
  {
    if !IsPathFcn(p.fcn) then st.(out := st.out + [p])
    else match FirstShared(p, st.cands, p.retc)
      case None => st.(out := st.out + [p])
      case Some((j, k)) =>
        var c := st.cands[k];
        var w := if c.shared.Some? then c.shared.value else |st.types|;
        var out := if c.shared.Some? then st.out else st.out + [SharedJoin(c.key, w)];
        var types := if c.shared.Some? then st.types else st.types + [VarType(Any, Any)];
        Rewrite(out + [Replace(p, j, w)], st.cands[k := c.(shared := Some(w))], types, st.actions + 1)
  }

  /** The rewriting after the first n instructions. */
  function RewritePrefix(prog: seq<Instr>, cands0: seq<Candidate>, types0: seq<VarType>, n: nat): Rewrite
    requires n <= |prog| && ProgramVarsBelow(prog, |types0|)
  {
    if n == 0 then Rewrite([], cands0, types0, 0)
    else
      assert WellFormed(prog[n - 1], |types0|);
      RewriteStep(RewritePrefix(prog, cands0, types0, n - 1), prog[n - 1])
  }

  /** The whole pass: the new program, the new types and the rewrites. */
  function SubPathPass(prog: seq<Instr>, types: seq<VarType>): (Rewrite)
    requires ProgramVarsBelow(prog, |types|)
  {
    var cands := Collect(AllPairs(prog), |prog|);
    if |cands| == 0 then Rewrite(prog, [], types, 0)
    else RewritePrefix(prog, cands, types, |prog|)
  }

  /**
   * The invariant of the rewriting, first half: candidates keep their keys
   * and counts; each created join is a fresh variable of the "any" type,
   * computed by a pairwise join already in the new program, one per
   * shared candidate.
   */
  ghost predicate SharedOk(st: Rewrite, cands0: seq<Candidate>, types0: seq<VarType>)
  {
    && |st.cands| == |cands0| && |types0| <= |st.types|
    && (forall i :: 0 <= i < |cands0| ==> st.cands[i].key == cands0[i].key && st.cands[i].cnt == cands0[i].cnt)
    && (forall i :: 0 <= i < |cands0| && st.cands[i].shared.Some? ==>
          var w := st.cands[i].shared.value;
          && cands0[i].cnt > 1 && |types0| <= w < |st.types| && st.types[w] == VarType(Any, Any)
          && IsPathFcn(cands0[i].key.fcn) && SharedJoin(cands0[i].key, w) in st.out)
    && (forall a, b :: 0 <= a < b < |cands0| && st.cands[a].shared.Some? && st.cands[b].shared.Some? ==>
          st.cands[a].shared != st.cands[b].shared)
  }

  /** Second half: the new program holds the n rewritten instructions and
      the created joins, uses declared variables only, and the old types
      are kept. */
  ghost predicate ShapeOk(st: Rewrite, types0: seq<VarType>, n: nat)
  {
    && |types0| <= |st.types|
    && |st.out| == n + (|st.types| - |types0|)
    && st.actions <= n
    && st.types[..|types0|] == types0
    && ProgramVarsBelow(st.out, |st.types|)
  }

  ghost predicate RewriteInv(st: Rewrite, cands0: seq<Candidate>, types0: seq<VarType>, n: nat)
  {
    SharedOk(st, cands0, types0) && ShapeOk(st, types0, n)
  }

  /** Candidate keys name declared variables. */
  predicate KeysBelow(cands: seq<Candidate>, nvars: nat)
  {
    forall i :: 0 <= i < |cands| ==> cands[i].key.lvar < nvars && cands[i].key.rvar < nvars
  }

  /**
   * One round keeps the whole invariant: the bookkeeping of RewriteInv,
   * and the placement of the created joins (one per shared candidate,
   * each defined before any instruction uses its result).
   */
  lemma RewriteStepInv(st: Rewrite, p: Instr, cands0: seq<Candidate>, types0: seq<VarType>, n: nat)
    requires WellFormed(p, |types0|) && RewriteInv(st, cands0, types0, n) && KeysBelow(cands0, |types0|)
    requires PlacedOk(st, |types0|)
    ensures RewriteInv(RewriteStep(st, p), cands0, types0, n + 1)
    ensures PlacedOk(RewriteStep(st, p), |types0|)
  {
    RewriteStepBook(st, p, cands0, types0, n);
    RewriteStepPlaced(st, p, |types0|);
  }

  lemma RewriteStepBook(st: Rewrite, p: Instr, cands0: seq<Candidate>, types0: seq<VarType>, n: nat)
    requires WellFormed(p, |types0|) && RewriteInv(st, cands0, types0, n) && KeysBelow(cands0, |types0|)
    ensures RewriteInv(RewriteStep(st, p), cands0, types0, n + 1)
  {
    if IsPathFcn(p.fcn) {
      match FirstShared(p, st.cands, p.retc)
      case None =>
        PushInv(st, p, cands0, types0, n);
      case Some((j, k)) =>
        var c := st.cands[k];
        if c.shared.None? {
          var w := |st.types|;
          assert WellFormed(Replace(p, j, w), w + 1);
          CreateInv(st, k, Replace(p, j, w), cands0, types0, n);
        } else {
          var w := c.shared.value;
          assert WellFormed(Replace(p, j, w), |st.types|);
          ReuseInv(st, k, Replace(p, j, w), cands0, types0, n);
        }
    } else {
      PushInv(st, p, cands0, types0, n);
    }
  }

  lemma RewriteStepPlaced(st: Rewrite, p: Instr, nvars: nat)
    requires WellFormed(p, nvars) && PlacedOk(st, nvars)
    ensures PlacedOk(RewriteStep(st, p), nvars)
  {
    if IsPathFcn(p.fcn) {
      match FirstShared(p, st.cands, p.retc)
      case None =>
        PushPlaced(st, p, nvars);
      case Some((j, k)) =>
        if st.cands[k].shared.None? {
          CreatePlaced(st, k, j, p, nvars);
        } else {
          ReusePlaced(st, k, j, p, nvars);
        }
    } else {
      PushPlaced(st, p, nvars);
    }
  }

  /** Pushing an instruction unchanged keeps the invariant. */
  lemma PushInv(st: Rewrite, p: Instr, cands0: seq<Candidate>, types0: seq<VarType>, n: nat)
    requires WellFormed(p, |types0|) && RewriteInv(st, cands0, types0, n)
    ensures RewriteInv(st.(out := st.out + [p]), cands0, types0, n + 1)
  {
    assert WellFormed(p, |st.types|);
    forall i | 0 <= i < |cands0| && st.cands[i].shared.Some?
      ensures SharedJoin(cands0[i].key, st.cands[i].shared.value) in st.out + [p]
    {
    }
  }

  /** A pair whose join does not exist yet: the join is created into a
      fresh variable and placed before the rewritten instruction q. */
  lemma CreateInv(st: Rewrite, k: nat, q: Instr, cands0: seq<Candidate>, types0: seq<VarType>, n: nat)
    requires RewriteInv(st, cands0, types0, n) && KeysBelow(cands0, |types0|)
    requires k < |st.cands| && st.cands[k].shared.None? && cands0[k].cnt > 1 && IsPathFcn(cands0[k].key.fcn)
    requires WellFormed(q, |st.types| + 1)
    ensures var w := |st.types|;
      RewriteInv(Rewrite(st.out + [SharedJoin(st.cands[k].key, w)] + [q], st.cands[k := st.cands[k].(shared := Some(w))],
                         st.types + [VarType(Any, Any)], st.actions + 1), cands0, types0, n + 1)
  {
    var w := |st.types|;
    var st' := Rewrite(st.out + [SharedJoin(st.cands[k].key, w)] + [q], st.cands[k := st.cands[k].(shared := Some(w))],
                       st.types + [VarType(Any, Any)], st.actions + 1);
    assert st'.out[|st.out|] == SharedJoin(cands0[k].key, w);
    forall i | 0 <= i < |cands0| && st'.cands[i].shared.Some?
      ensures SharedJoin(cands0[i].key, st'.cands[i].shared.value) in st'.out
    {
      if i != k { assert st'.out[..|st.out|] == st.out; }
    }
    assert SharedOk(st', cands0, types0);
    assert st'.types[..|types0|] == types0 by {
      assert st'.types[..|types0|] == st.types[..|types0|];
    }
    assert WellFormed(SharedJoin(cands0[k].key, w), |st'.types|);
    assert forall i :: 0 <= i < |st.out| ==> WellFormed(st.out[i], |st.types|);
    assert ShapeOk(st', types0, n + 1);
  }

  /** A pair whose join exists: the rewritten instruction q takes its result. */
  lemma ReuseInv(st: Rewrite, k: nat, q: Instr, cands0: seq<Candidate>, types0: seq<VarType>, n: nat)
    requires RewriteInv(st, cands0, types0, n)
    requires k < |st.cands| && st.cands[k].shared.Some? && WellFormed(q, |st.types|)
    ensures RewriteInv(Rewrite(st.out + [q], st.cands[k := st.cands[k].(shared := st.cands[k].shared)], st.types, st.actions + 1),
                       cands0, types0, n + 1)
  {
    var st' := Rewrite(st.out + [q], st.cands[k := st.cands[k].(shared := st.cands[k].shared)], st.types, st.actions + 1);
    assert st'.cands == st.cands;
    forall i | 0 <= i < |cands0| && st'.cands[i].shared.Some?
      ensures SharedJoin(cands0[i].key, st'.cands[i].shared.value) in st'.out
    {
      assert st'.out[..|st.out|] == st.out;
    }
  }

  // ---------------------------------------------------------------------
  // Where the created joins sit

  /** An instruction of the new program computing an old variable: a
      copied or rewritten instruction of the old program. The created
      joins compute fresh variables, numbered from nvars on. */
  predicate IsOld(q: Instr, nvars: nat)
  {
    |q.argv| > 0 && q.argv[0] < nvars
  }

  /** The instructions of out that compute old variables, in order. */
  function Originals(out: seq<Instr>, nvars: nat): seq<Instr>
  {
    if |out| == 0 then []
    else Originals(out[..|out| - 1], nvars) + (if IsOld(out[|out| - 1], nvars) then [out[|out| - 1]] else [])
  }

  /** The instructions of out that compute fresh variables, in order. */
  function Created(out: seq<Instr>, nvars: nat): seq<Instr>
  {
    if |out| == 0 then []
    else Created(out[..|out| - 1], nvars) + (if IsOld(out[|out| - 1], nvars) then [] else [out[|out| - 1]])
  }

  lemma OriginalsSnoc(out: seq<Instr>, q: Instr, nvars: nat)
    ensures Originals(out + [q], nvars) == Originals(out, nvars) + (if IsOld(q, nvars) then [q] else [])
    ensures Created(out + [q], nvars) == Created(out, nvars) + (if IsOld(q, nvars) then [] else [q])
  {
    assert (out + [q])[..|out|] == out;
  }

  lemma {:induction false} CreatedIn(out: seq<Instr>, nvars: nat)
    ensures forall q :: q in Created(out, nvars) ==> q in out
    decreases |out|
  {
    if |out| > 0 {
      CreatedIn(out[..|out| - 1], nvars);
      assert out == out[..|out| - 1] + [out[|out| - 1]];
    }
  }

  /** Some instruction of out has v as its first result. */
  ghost predicate Defines(out: seq<Instr>, v: VarId)
  {
    exists y :: 0 <= y < |out| && |out[y].argv| > 0 && out[y].argv[0] == v
  }

  /** Every fresh variable an instruction takes as an argument is computed
      by an instruction before it. */
  ghost predicate DefinedBefore(out: seq<Instr>, nvars: nat)
  {
    forall x, a :: 0 <= x < |out| && out[x].retc <= a < |out[x].argv| && out[x].argv[a] >= nvars ==>
      Defines(out[..x], out[x].argv[a])
  }

  /** The first candidate whose shared result is v, or |cands| if none. */
  function SharedOwner(cands: seq<Candidate>, v: VarId): (r: nat)
    ensures r <= |cands|
    ensures r < |cands| ==> cands[r].shared == Some(v)
    ensures r == |cands| ==> forall i :: 0 <= i < |cands| ==> cands[i].shared != Some(v)
  {
    if |cands| == 0 then 0
    else if cands[0].shared == Some(v) then 0
    else 1 + SharedOwner(cands[1..], v)
  }

  /** Sharing one more candidate under a new name w leaves the owner of
      every other name alone. */
  lemma {:induction false} OwnerKept(cands: seq<Candidate>, k: nat, w: VarId, v: VarId)
    requires k < |cands| && cands[k].shared.None? && v != w
    ensures SharedOwner(cands[k := cands[k].(shared := Some(w))], v) == SharedOwner(cands, v)
  {
    var cands' := cands[k := cands[k].(shared := Some(w))];
    if k == 0 {
      assert cands'[1..] == cands[1..];
    } else if cands[0].shared != Some(v) {
      assert cands'[1..] == cands[1..][k - 1 := cands[k].(shared := Some(w))];
      OwnerKept(cands[1..], k - 1, w, v);
    }
  }

  /**
   * The created joins: the x-th one computes fresh variable nvars + x and
   * is the pairwise join of the candidate owning that variable; every
   * shared candidate owns its own variable, so no two candidates share
   * one join and each shared candidate has exactly one.
   */
  ghost predicate CreatedMatch(created: seq<Instr>, cands: seq<Candidate>, ntypes: nat, nvars: nat)
  {
    && nvars <= ntypes
    && |created| == ntypes - nvars
    && (forall x :: 0 <= x < |created| ==> JoinOfOwner(created, cands, nvars, x))
    && (forall i :: 0 <= i < |cands| && cands[i].shared.Some? ==> OwnsFresh(cands, ntypes, nvars, i))
  }

  /** The x-th created join is the pairwise join of the owner of fresh
      variable nvars + x. */
  ghost predicate JoinOfOwner(created: seq<Instr>, cands: seq<Candidate>, nvars: nat, x: nat)
    requires x < |created|
  {
    && SharedOwner(cands, nvars + x) < |cands| && IsPathFcn(cands[SharedOwner(cands, nvars + x)].key.fcn)
    && created[x] == SharedJoin(cands[SharedOwner(cands, nvars + x)].key, nvars + x)
  }

  /** Shared candidate i holds a fresh variable, and is its only owner. */
  ghost predicate OwnsFresh(cands: seq<Candidate>, ntypes: nat, nvars: nat, i: nat)
    requires i < |cands| && cands[i].shared.Some?
  {
    nvars <= cands[i].shared.value < ntypes && SharedOwner(cands, cands[i].shared.value) == i
  }

  ghost predicate CreatedOk(st: Rewrite, nvars: nat)
  {
    CreatedMatch(Created(st.out, nvars), st.cands, |st.types|, nvars)
  }

  ghost predicate PlacedOk(st: Rewrite, nvars: nat)
  {
    CreatedOk(st, nvars) && DefinedBefore(st.out, nvars)
  }

  lemma DefinedSnoc(out: seq<Instr>, q: Instr, nvars: nat)
    requires DefinedBefore(out, nvars)
    requires forall a :: q.retc <= a < |q.argv| && q.argv[a] >= nvars ==> Defines(out, q.argv[a])
    ensures DefinedBefore(out + [q], nvars)
  {
    var out' := out + [q];
    forall x, a | 0 <= x < |out'| && out'[x].retc <= a < |out'[x].argv| && out'[x].argv[a] >= nvars
      ensures Defines(out'[..x], out'[x].argv[a])
    {
      if x < |out| {
        assert out'[..x] == out[..x] && out'[x] == out[x];
      } else {
        assert out'[..x] == out;
      }
    }
  }

  /** A replaced path keeps its first result, and its only fresh argument
      is the shared result w. */
  lemma ReplaceArgs(p: Instr, j: nat, w: VarId, nvars: nat)
    requires WellFormed(p, nvars) && IsPathFcn(p.fcn) && p.retc <= j && j + 1 < |p.argv|
    ensures Replace(p, j, w).retc == p.retc && Replace(p, j, w).argv[0] == p.argv[0]
    ensures forall a :: p.retc <= a < |Replace(p, j, w).argv| ==> Replace(p, j, w).argv[a] < nvars || Replace(p, j, w).argv[a] == w
  {
    var q := Replace(p, j, w);
    forall a | p.retc <= a < |q.argv| ensures q.argv[a] < nvars || q.argv[a] == w {
      if a < j {
        assert q.argv[a] == p.argv[a];
      } else if a > j {
        assert q.argv[a] == p.argv[a + 1];
      }
    }
  }

  lemma PushPlaced(st: Rewrite, p: Instr, nvars: nat)
    requires PlacedOk(st, nvars) && WellFormed(p, nvars)
    ensures PlacedOk(st.(out := st.out + [p]), nvars)
  {
    OriginalsSnoc(st.out, p, nvars);
    assert IsOld(p, nvars);
    assert Created(st.out + [p], nvars) == Created(st.out, nvars);
    DefinedSnoc(st.out, p, nvars);
  }

  /** Appending the join of an unshared candidate k as the next fresh
      variable keeps the match. */
  lemma CreateMatch(created: seq<Instr>, cands: seq<Candidate>, ntypes: nat, nvars: nat, k: nat)
    requires CreatedMatch(created, cands, ntypes, nvars) && k < |cands| && cands[k].shared.None? && IsPathFcn(cands[k].key.fcn)
    ensures CreatedMatch(created + [SharedJoin(cands[k].key, ntypes)], cands[k := cands[k].(shared := Some(ntypes))], ntypes + 1, nvars)
  {
    var created' := created + [SharedJoin(cands[k].key, ntypes)];
    var cands' := cands[k := cands[k].(shared := Some(ntypes))];
    NewOwner(created, cands, ntypes, nvars, k);
    forall x | 0 <= x < |created'| ensures JoinOfOwner(created', cands', nvars, x) {
      if x < |created| {
        assert JoinOfOwner(created, cands, nvars, x);
        assert created'[x] == created[x];
        OwnerKept(cands, k, ntypes, nvars + x);
        assert cands'[SharedOwner(cands, nvars + x)] == cands[SharedOwner(cands, nvars + x)];
      } else {
        assert nvars + x == ntypes;
      }
    }
    forall i | 0 <= i < |cands'| && cands'[i].shared.Some? ensures OwnsFresh(cands', ntypes + 1, nvars, i) {
      if i != k {
        assert cands'[i] == cands[i];
        assert OwnsFresh(cands, ntypes, nvars, i);
        OwnerKept(cands, k, ntypes, cands[i].shared.value);
      }
    }
  }

  lemma NewOwner(created: seq<Instr>, cands: seq<Candidate>, ntypes: nat, nvars: nat, k: nat)
    requires CreatedMatch(created, cands, ntypes, nvars) && k < |cands| && cands[k].shared.None?
    ensures SharedOwner(cands[k := cands[k].(shared := Some(ntypes))], ntypes) == k
  {
    var cands' := cands[k := cands[k].(shared := Some(ntypes))];
    assert cands'[k].shared == Some(ntypes);
  }

  /** A created join goes right before its first user and takes the next
      fresh variable. */
  lemma CreatePlaced(st: Rewrite, k: nat, j: nat, p: Instr, nvars: nat)
    requires PlacedOk(st, nvars) && WellFormed(p, nvars) && IsPathFcn(p.fcn) && p.retc <= j && j + 1 < |p.argv|
    requires k < |st.cands| && st.cands[k].shared.None? && st.cands[k].key == Key(p.argv[j], p.argv[j + 1], p.fcn)
    ensures var w := |st.types|;
      PlacedOk(Rewrite(st.out + [SharedJoin(st.cands[k].key, w)] + [Replace(p, j, w)],
                       st.cands[k := st.cands[k].(shared := Some(w))], st.types + [VarType(Any, Any)], st.actions + 1), nvars)
  {
    var w := |st.types|;
    var sj := SharedJoin(st.cands[k].key, w);
    var q := Replace(p, j, w);
    ReplaceArgs(p, j, w, nvars);
    OriginalsSnoc(st.out, sj, nvars);
    OriginalsSnoc(st.out + [sj], q, nvars);
    assert !IsOld(sj, nvars) && IsOld(q, nvars);
    assert Created(st.out + [sj] + [q], nvars) == Created(st.out, nvars) + [sj];
    CreateMatch(Created(st.out, nvars), st.cands, |st.types|, nvars, k);
    DefinedSnoc(st.out, sj, nvars);
    assert Defines(st.out + [sj], w) by {
      assert (st.out + [sj])[|st.out|] == sj;
    }
    DefinedSnoc(st.out + [sj], q, nvars);
  }

  /** A reused join is already in the new program, before the rewritten
      instruction. */
  lemma ReusePlaced(st: Rewrite, k: nat, j: nat, p: Instr, nvars: nat)
    requires PlacedOk(st, nvars) && WellFormed(p, nvars) && IsPathFcn(p.fcn) && p.retc <= j && j + 1 < |p.argv|
    requires k < |st.cands| && st.cands[k].shared.Some?
    ensures var w := st.cands[k].shared.value;
      PlacedOk(Rewrite(st.out + [Replace(p, j, w)], st.cands[k := st.cands[k].(shared := st.cands[k].shared)],
                       st.types, st.actions + 1), nvars)
  {
    var w := st.cands[k].shared.value;
    var q := Replace(p, j, w);
    assert st.cands[k := st.cands[k].(shared := st.cands[k].shared)] == st.cands;
    ReplaceArgs(p, j, w, nvars);
    OriginalsSnoc(st.out, q, nvars);
    assert Created(st.out + [q], nvars) == Created(st.out, nvars);
    assert OwnsFresh(st.cands, |st.types|, nvars, k);
    var sj := Created(st.out, nvars)[w - nvars];
    assert JoinOfOwner(Created(st.out, nvars), st.cands, nvars, w - nvars);
    CreatedIn(st.out, nvars);
    assert sj in st.out;
    var y :| 0 <= y < |st.out| && st.out[y] == sj;
    assert Defines(st.out, w);
    DefinedSnoc(st.out, q, nvars);
  }

  // ---------------------------------------------------------------------
  // Which old instruction became what

  /** The shared-pair search reads only the keys and counts of the table. */
  lemma {:induction false} SearchSharedSame(c1: seq<Candidate>, c2: seq<Candidate>, key: Key, k: nat)
    requires k <= |c1| == |c2|
    requires forall i :: 0 <= i < |c1| ==> c1[i].key == c2[i].key && c1[i].cnt == c2[i].cnt
    ensures SearchShared(c1, key, k) == SearchShared(c2, key, k)
    decreases k
  {
    if k > 0 {
      SearchSharedSame(c1, c2, key, k - 1);
    }
  }

  lemma {:induction false} FirstSharedSame(p: Instr, c1: seq<Candidate>, c2: seq<Candidate>, j: nat)
    requires p.retc <= j && |c1| == |c2|
    requires forall i :: 0 <= i < |c1| ==> c1[i].key == c2[i].key && c1[i].cnt == c2[i].cnt
    ensures FirstShared(p, c1, j) == FirstShared(p, c2, j)
    decreases |p.argv| - j
  {
    if j + 1 < |p.argv| {
      SearchSharedSame(c1, c2, Key(p.argv[j], p.argv[j + 1], p.fcn), |c1|);
      FirstSharedSame(p, c1, c2, j + 1);
    }
  }

  /** q is what the pass makes of p under the table cands: p with its first
      shared pair replaced by the candidate's shared result, or p itself
      when it is no join path or none of its pairs is shared. */
  ghost predicate RewrittenAs(p: Instr, q: Instr, cands: seq<Candidate>)
  {
    && p.retc <= |p.argv|
    && if IsPathFcn(p.fcn) && FirstShared(p, cands, p.retc).Some? then
         var jk := FirstShared(p, cands, p.retc).value;
         cands[jk.1].shared.Some? && q == Replace(p, jk.0, cands[jk.1].shared.value)
       else q == p
  }

  /** After n rounds, the instructions computing old variables are the n
      first old instructions, in order, each as the pass makes it. */
  ghost predicate OrderOk(st: Rewrite, prog: seq<Instr>, nvars: nat, n: nat)
  {
    && n <= |prog| && |Originals(st.out, nvars)| == n
    && forall m :: 0 <= m < n ==> RewrittenAs(prog[m], Originals(st.out, nvars)[m], st.cands)
  }

  /** A change of table that keeps keys and counts and only sets the
      shared result of an unshared candidate keeps every earlier rewrite. */
  lemma RewrittenStable(p: Instr, q: Instr, c: seq<Candidate>, k: nat, w: VarId)
    requires k < |c| && c[k].shared.None? && RewrittenAs(p, q, c)
    ensures RewrittenAs(p, q, c[k := c[k].(shared := Some(w))])
  {
    FirstSharedSame(p, c, c[k := c[k].(shared := Some(w))], p.retc);
  }

  lemma OrderPush(st: Rewrite, prog: seq<Instr>, nvars: nat, n: nat)
    requires n < |prog| && WellFormed(prog[n], nvars) && OrderOk(st, prog, nvars, n)
    requires !IsPathFcn(prog[n].fcn) || FirstShared(prog[n], st.cands, prog[n].retc).None?
    ensures OrderOk(RewriteStep(st, prog[n]), prog, nvars, n + 1)
  {
    assert RewriteStep(st, prog[n]) == st.(out := st.out + [prog[n]]);
    OriginalsSnoc(st.out, prog[n], nvars);
  }

  /** Appending the image q of instruction n keeps the order, given that
      the earlier images still match under the new table. */
  lemma OrderSnoc(st: Rewrite, st': Rewrite, prog: seq<Instr>, nvars: nat, n: nat, q: Instr)
    requires n < |prog| && OrderOk(st, prog, nvars, n)
    requires Originals(st'.out, nvars) == Originals(st.out, nvars) + [q]
    requires forall m :: 0 <= m < n ==> RewrittenAs(prog[m], Originals(st.out, nvars)[m], st'.cands)
    requires RewrittenAs(prog[n], q, st'.cands)
    ensures OrderOk(st', prog, nvars, n + 1)
  {
  }

  lemma AllStable(st: Rewrite, prog: seq<Instr>, nvars: nat, n: nat, k: nat, w: VarId)
    requires OrderOk(st, prog, nvars, n) && k < |st.cands| && st.cands[k].shared.None?
    ensures forall m :: 0 <= m < n ==>
      RewrittenAs(prog[m], Originals(st.out, nvars)[m], st.cands[k := st.cands[k].(shared := Some(w))])
  {
    forall m | 0 <= m < n
      ensures RewrittenAs(prog[m], Originals(st.out, nvars)[m], st.cands[k := st.cands[k].(shared := Some(w))])
    {
      RewrittenStable(prog[m], Originals(st.out, nvars)[m], st.cands, k, w);
    }
  }

  lemma OrderCreate(st: Rewrite, prog: seq<Instr>, nvars: nat, n: nat, j: nat, k: nat)
    requires n < |prog| && WellFormed(prog[n], nvars) && nvars <= |st.types| && OrderOk(st, prog, nvars, n)
    requires IsPathFcn(prog[n].fcn) && FirstShared(prog[n], st.cands, prog[n].retc) == Some((j, k))
    requires st.cands[k].shared.None?
    ensures OrderOk(RewriteStep(st, prog[n]), prog, nvars, n + 1)
  {
    var p := prog[n];
    var w := |st.types|;
    var sj := SharedJoin(st.cands[k].key, w);
    var q := Replace(p, j, w);
    var cands' := st.cands[k := st.cands[k].(shared := Some(w))];
    AllStable(st, prog, nvars, n, k, w);
    FirstSharedSame(p, st.cands, cands', p.retc);
    assert RewrittenAs(p, q, cands');
    ReplaceArgs(p, j, w, nvars);
    OriginalsSnoc(st.out, sj, nvars);
    OriginalsSnoc(st.out + [sj], q, nvars);
    var st' := Rewrite(st.out + [sj] + [q], cands', st.types + [VarType(Any, Any)], st.actions + 1);
    assert RewriteStep(st, p) == st';
    OrderSnoc(st, st', prog, nvars, n, q);
  }

  lemma OrderReuse(st: Rewrite, prog: seq<Instr>, nvars: nat, n: nat, j: nat, k: nat)
    requires n < |prog| && WellFormed(prog[n], nvars) && OrderOk(st, prog, nvars, n)
    requires IsPathFcn(prog[n].fcn) && FirstShared(prog[n], st.cands, prog[n].retc) == Some((j, k))
    requires st.cands[k].shared.Some?
    ensures OrderOk(RewriteStep(st, prog[n]), prog, nvars, n + 1)
  {
    var p := prog[n];
    var q := Replace(p, j, st.cands[k].shared.value);
    assert st.cands[k := st.cands[k].(shared := st.cands[k].shared)] == st.cands;
    var st' := Rewrite(st.out + [q], st.cands, st.types, st.actions + 1);
    assert RewriteStep(st, p) == st';
    ReplaceArgs(p, j, st.cands[k].shared.value, nvars);
    OriginalsSnoc(st.out, q, nvars);
    OrderSnoc(st, st', prog, nvars, n, q);
  }

  lemma RewriteStepOrder(st: Rewrite, prog: seq<Instr>, nvars: nat, n: nat)
    requires n < |prog| && WellFormed(prog[n], nvars) && nvars <= |st.types| && OrderOk(st, prog, nvars, n)
    ensures OrderOk(RewriteStep(st, prog[n]), prog, nvars, n + 1)
  {
    var p := prog[n];
    if IsPathFcn(p.fcn) && FirstShared(p, st.cands, p.retc).Some? {
      var jk := FirstShared(p, st.cands, p.retc).value;
      if st.cands[jk.1].shared.None? {
        OrderCreate(st, prog, nvars, n, jk.0, jk.1);
      } else {
        OrderReuse(st, prog, nvars, n, jk.0, jk.1);
      }
    } else {
      OrderPush(st, prog, nvars, n);
    }
  }

  /** The rewriting only adds variables. */
  lemma TypesGrow(prog: seq<Instr>, cands0: seq<Candidate>, types0: seq<VarType>, n: nat)
    requires n <= |prog| && ProgramVarsBelow(prog, |types0|) && KeysBelow(cands0, |types0|)
    requires forall i :: 0 <= i < |cands0| ==> cands0[i].shared.None?
    ensures |types0| <= |RewritePrefix(prog, cands0, types0, n).types|
  {
    RewritePrefixInv(prog, cands0, types0, n);
  }

  lemma {:induction false} RewritePrefixOrder(prog: seq<Instr>, cands0: seq<Candidate>, types0: seq<VarType>, n: nat)
    requires n <= |prog| && ProgramVarsBelow(prog, |types0|) && KeysBelow(cands0, |types0|)
    requires forall i :: 0 <= i < |cands0| ==> cands0[i].shared.None?
    ensures OrderOk(RewritePrefix(prog, cands0, types0, n), prog, |types0|, n)
    decreases n, 0
  {
    if n > 0 {
      PrefixOrderStep(prog, cands0, types0, n - 1, RewritePrefix(prog, cands0, types0, n - 1));
    }
  }

  /** One step of the induction behind RewritePrefixOrder. */
  lemma {:induction false} PrefixOrderStep(prog: seq<Instr>, cands0: seq<Candidate>, types0: seq<VarType>, n: nat, st: Rewrite)
    requires n < |prog| && ProgramVarsBelow(prog, |types0|) && KeysBelow(cands0, |types0|)
    requires forall i :: 0 <= i < |cands0| ==> cands0[i].shared.None?
    requires st == RewritePrefix(prog, cands0, types0, n)
    ensures OrderOk(RewritePrefix(prog, cands0, types0, n + 1), prog, |types0|, n + 1)
    decreases n, 1
  {
    RewritePrefixOrder(prog, cands0, types0, n);
    assert WellFormed(prog[n], |types0|);
    TypesGrow(prog, cands0, types0, n);
    RewriteStepOrder(st, prog, |types0|, n);
  }

  /** The invariant holds throughout the rewriting. */
  lemma {:induction false} RewritePrefixInv(prog: seq<Instr>, cands0: seq<Candidate>, types0: seq<VarType>, n: nat)
    requires n <= |prog| && ProgramVarsBelow(prog, |types0|) && KeysBelow(cands0, |types0|)
    requires forall i :: 0 <= i < |cands0| ==> cands0[i].shared.None?
    ensures RewriteInv(RewritePrefix(prog, cands0, types0, n), cands0, types0, n)
    ensures PlacedOk(RewritePrefix(prog, cands0, types0, n), |types0|)
    decreases n
  {
    if n == 0 {
      assert types0[..|types0|] == types0;
    } else {
      RewritePrefixInv(prog, cands0, types0, n - 1);
      RewriteStepInv(RewritePrefix(prog, cands0, types0, n - 1), prog[n - 1], cands0, types0, n - 1);
    }
  }

  /**
   * A round that rewrites p: its first shared pair sits at j and belongs to
   * candidate k. If k was unshared, the round creates its pairwise join
   * into the next fresh variable, just before the rewritten p; otherwise
   * it reuses the variable k already holds, whose join is already out.
   */
  ghost predicate SharedStep(st: Rewrite, st': Rewrite, p: Instr, j: nat, k: nat)
  {
    && IsPathFcn(p.fcn) && p.retc <= j && j + 1 < |p.argv| && k < |st.cands| == |st'.cands|
    && st.cands[k].key == Key(p.argv[j], p.argv[j + 1], p.fcn) && st.cands[k].cnt > 1
    && (forall m :: p.retc <= m < j ==> SearchShared(st.cands, Key(p.argv[m], p.argv[m + 1], p.fcn), |st.cands|).None?)
    && (forall i :: 0 <= i < |st.cands| && i != k ==> st'.cands[i] == st.cands[i])
    && st'.cands[k].key == st.cands[k].key && st'.cands[k].cnt == st.cands[k].cnt
    && st'.cands[k].shared.Some? && st'.actions == st.actions + 1
    && var w := st'.cands[k].shared.value;
       if st.cands[k].shared.None? then
         && w == |st.types| && st'.types == st.types + [VarType(Any, Any)]
         && st'.out == st.out + [SharedJoin(st.cands[k].key, w), Replace(p, j, w)]
       else
         && st.cands[k].shared == Some(w) && st'.types == st.types
         && st'.out == st.out + [Replace(p, j, w)] && SharedJoin(st.cands[k].key, w) in st.out
  }

  /** A round either pushes p unchanged, when no pair of p is shared, or
      rewrites its first shared pair as SharedStep says. */
  lemma RewriteStepShape(st: Rewrite, p: Instr, cands0: seq<Candidate>, types0: seq<VarType>, n: nat)
    requires p.retc <= |p.argv| && RewriteInv(st, cands0, types0, n)
    ensures var st' := RewriteStep(st, p);
      || (&& st' == st.(out := st.out + [p])
          && (IsPathFcn(p.fcn) ==> forall m :: p.retc <= m < |p.argv| - 1 ==>
                SearchShared(st.cands, Key(p.argv[m], p.argv[m + 1], p.fcn), |st.cands|).None?))
      || (exists j: nat, k: nat :: SharedStep(st, st', p, j, k))
  {
    if IsPathFcn(p.fcn) {
      match FirstShared(p, st.cands, p.retc)
      case None =>
      case Some((j, k)) =>
        var st' := RewriteStep(st, p);
        var c := st.cands[k];
        if c.shared.Some? {
          assert SharedJoin(cands0[k].key, c.shared.value) in st.out;
          assert st.cands[k := c.(shared := c.shared)] == st.cands;
        }
        assert SharedStep(st, st', p, j, k);
    }
  }

  /** The pairs of a well-formed program name declared variables. */
  lemma {:induction false} AllPairsBelow(prog: seq<Instr>, nvars: nat)
    requires ProgramVarsBelow(prog, nvars)
    ensures forall key :: key in AllPairs(prog) ==> key.lvar < nvars && key.rvar < nvars
    decreases |prog|
  {
    if |prog| > 0 {
      AllPairsBelow(prog[..|prog| - 1], nvars);
      var p := prog[|prog| - 1];
      assert WellFormed(p, nvars);
      forall key | key in PairsOf(p) ensures key.lvar < nvars && key.rvar < nvars {
        var m :| 0 <= m < |PairsOf(p)| && PairsOf(p)[m] == key;
      }
    }
  }

  /**
   * The whole pass keeps the old instructions' variables and types, adds
   * one pairwise join per created variable, rewrites at most one pair per
   * instruction, and only creates joins for pairs that occur at least
   * twice in the old program.
   */
  lemma SubPathSpec(prog: seq<Instr>, types: seq<VarType>)
    requires ProgramVarsBelow(prog, |types|)
    ensures var r := SubPathPass(prog, types);
      && ProgramVarsBelow(r.out, |r.types|) && |types| <= |r.types| && r.types[..|types|] == types
      && |r.out| == |prog| + (|r.types| - |types|) && r.actions <= |prog|
      && forall i :: 0 <= i < |r.cands| && r.cands[i].shared.Some? ==>
           && multiset(AllPairs(prog))[r.cands[i].key] >= 2
           && IsPathFcn(r.cands[i].key.fcn) && SharedJoin(r.cands[i].key, r.cands[i].shared.value) in r.out
  {
    var cands := Collect(AllPairs(prog), |prog|);
    CollectSpec(AllPairs(prog), |prog|);
    if |cands| == 0 {
      assert types[..|types|] == types;
    } else {
      AllPairsBelow(prog, |types|);
      RewritePrefixInv(prog, cands, types, |prog|);
    }
  }

  /** An instruction computing an old variable is not a created join. */
  lemma {:induction false} AllOld(prog: seq<Instr>, nvars: nat)
    requires ProgramVarsBelow(prog, nvars)
    ensures Originals(prog, nvars) == prog && Created(prog, nvars) == []
    decreases |prog|
  {
    if |prog| > 0 {
      var init := prog[..|prog| - 1];
      AllOld(init, nvars);
      assert WellFormed(prog[|prog| - 1], nvars);
      assert prog == init + [prog[|prog| - 1]];
    }
  }

  /**
   * What the pass makes of the program. The instructions computing old
   * variables are the old instructions, in their order, each rewritten at
   * most once, at its first shared pair, with the shared result of the
   * candidate. The other instructions are the created joins: the x-th
   * computes fresh variable |types| + x and is the pairwise join of the
   * one candidate holding that variable, and each shared candidate has its
   * join. Every fresh variable is computed before its first use.
   */
  lemma SubPathRewrites(prog: seq<Instr>, types: seq<VarType>)
    requires ProgramVarsBelow(prog, |types|)
    ensures var r := SubPathPass(prog, types);
      && |Originals(r.out, |types|)| == |prog|
      && (forall m :: 0 <= m < |prog| ==> RewrittenAs(prog[m], Originals(r.out, |types|)[m], r.cands))
      && CreatedMatch(Created(r.out, |types|), r.cands, |r.types|, |types|)
      && DefinedBefore(r.out, |types|)
  {
    var cands := Collect(AllPairs(prog), |prog|);
    CollectSpec(AllPairs(prog), |prog|);
    if |cands| == 0 {
      AllOld(prog, |types|);
      forall m | 0 <= m < |prog| ensures RewrittenAs(prog[m], prog[m], []) {
        assert WellFormed(prog[m], |types|);
      }
    } else {
      AllPairsBelow(prog, |types|);
      RewritePrefixInv(prog, cands, types, |prog|);
      RewritePrefixOrder(prog, cands, types, |prog|);
    }
  }

  /** Without a pair counted twice, every instruction is pushed unchanged. */
  lemma {:induction false} NoRepeatNoChange(prog: seq<Instr>, cands0: seq<Candidate>, types0: seq<VarType>, n: nat)
    requires n <= |prog| && ProgramVarsBelow(prog, |types0|)
    requires forall i :: 0 <= i < |cands0| ==> cands0[i].cnt <= 1
    ensures var r := RewritePrefix(prog, cands0, types0, n);
      r.out == prog[..n] && r.actions == 0 && r.types == types0 && r.cands == cands0
    decreases n
  {
    if n > 0 {
      NoRepeatNoChange(prog, cands0, types0, n - 1);
      var st := RewritePrefix(prog, cands0, types0, n - 1);
      assert WellFormed(prog[n - 1], |types0|);
      PushUnshared(st, prog[n - 1]);
      assert prog[..n] == prog[..n - 1] + [prog[n - 1]];
    }
  }

  /** With every count at most one, a round pushes p unchanged. */
  lemma PushUnshared(st: Rewrite, p: Instr)
    requires p.retc <= |p.argv| && forall i :: 0 <= i < |st.cands| ==> st.cands[i].cnt <= 1
    ensures RewriteStep(st, p) == st.(out := st.out + [p])
  {
    if IsPathFcn(p.fcn) {
      assert FirstShared(p, st.cands, p.retc).None?;
    }
  }

  /** A program whose join-path pairs are all distinct is left unchanged. */
  lemma DistinctPairsUnchanged(prog: seq<Instr>, types: seq<VarType>)
    requires ProgramVarsBelow(prog, |types|)
    requires forall key :: multiset(AllPairs(prog))[key] <= 1
    ensures SubPathPass(prog, types).out == prog && SubPathPass(prog, types).actions == 0
  {
    var cands := Collect(AllPairs(prog), |prog|);
    CollectSpec(AllPairs(prog), |prog|);
    if |cands| > 0 {
      NoRepeatNoChange(prog, cands, types, |prog|);
      assert prog[..|prog|] == prog;
    }
  }
}
