/**
 * Column name tracing over a logical algebra DAG
 * (pathfinder/compiler/algebra/prop/prop_trace_names.c): a list of
 * (original name, current name) pairs is pushed from a start operator
 * down to a goal operator, renamed by projections, routed by joins and
 * invalidated where an operator generates the column; the goal's
 * collected list is then pruned to one pair per original name.
 */
module TraceNames {
  import opened Util

  /** Column names; att_NULL is 0 and marks a pair as invalid. */
  type Att = nat
  const NULL: Att := 0

  datatype NamePair = NamePair(ori: Att, cur: Att)

  /** One projection item: column `newName` is column `oldName` of the input. */
  datatype ProjItem = ProjItem(newName: Att, oldName: Att)

  /** The operator kinds, grouped by how name tracing treats them. */
  datatype Kind =
    | Plain                  // serialize, select, distinct, set operators, proxies, nil: pass the list on
    | BaseTable              // lit_tbl, empty_tbl, ref_tbl
    | Generates(res: Att)    // attach, fun_1to1, comparisons, aggregates, row numbering, casts, steps, ...
    | Project(items: seq<ProjItem>)
    | Join                   // cross, eqjoin, thetajoin
    | SemiJoin(att2: Att)
    | Fragment(absorbs: bool) // fragment, frag_union, empty_frag (false); frag_extract, fun_call, fun_param, fun_frag_param (true)
    | Trace                  // cond_err, trace, trace_msg, trace_map

  /** An operator with its (at most two) children and its output schema. */
  datatype Node = Node(kind: Kind, left: Option<nat>, right: Option<nat>, schema: seq<Att>)

  /** Children are numbered after their parents (a topological numbering
      of the DAG), and every operator has the children its case uses. */
  predicate NodeOk(nodes: seq<Node>, n: nat)
    requires n < |nodes|
  {
    var nd := nodes[n];
    && (nd.left.Some? ==> n < nd.left.value < |nodes|)
    && (nd.right.Some? ==> n < nd.right.value < |nodes|)
    && (nd.kind.Project? ==> nd.left.Some?)
    && (nd.kind.Join? || nd.kind.SemiJoin? || nd.kind.Trace? ==> nd.left.Some? && nd.right.Some?)
  }

  predicate Dag(nodes: seq<Node>)
  {
    forall n :: 0 <= n < |nodes| ==> NodeOk(nodes, n)
  }

  /** add_name_pair (lines 53-59). */
  function AddNamePair(np: seq<NamePair>, ori: Att, cur: Att): (r: seq<NamePair>)
    ensures |r| == |np| + 1 && r[..|np|] == np && r[|np|] == NamePair(ori, cur)
  {
    np + [NamePair(ori, cur)]
  }

  /** The pair-by-pair copy of a parent's list into a node's list (lines 98-101). */
  method AddAll(np: seq<NamePair>, par: seq<NamePair>) returns (r: seq<NamePair>)
    ensures r == np + par
  {
    r := np;
    var i := 0;
    while i < |par|
      invariant 0 <= i <= |par| && r == np + par[..i]
    {
      r := AddNamePair(r, par[i].ori, par[i].cur);
      assert par[..i + 1] == par[..i] + [par[i]];
      i := i + 1;
    }
    assert par[..i] == par;
  }

  /** diff_np (lines 65-74): the first pair whose current name is `cur` is
      marked invalid; nothing else changes. */
  function DiffNp(np: seq<NamePair>, cur: Att): (r: seq<NamePair>)
    ensures |r| == |np|
    ensures forall k :: 0 <= k < |np| && np[k].cur == cur && (forall i :: 0 <= i < k ==> np[i].cur != cur) ==>
              r == np[k := NamePair(np[k].ori, NULL)]
    ensures (forall k :: 0 <= k < |np| ==> np[k].cur != cur) ==> r == np
    ensures forall k :: 0 <= k < |np| ==> r[k].ori == np[k].ori
  {
    if |np| == 0 then []
    else if np[0].cur == cur then
      assert [NamePair(np[0].ori, NULL)] + np[1..] == np[0 := NamePair(np[0].ori, NULL)];
      [NamePair(np[0].ori, NULL)] + np[1..]
    else
      var rest := DiffNp(np[1..], cur);
      ConsFirstMatch(np, rest, cur);
      ConsNoMatch(np, rest, cur);
      ConsOris(np, rest);
      [np[0]] + rest
  }

  /** Invalidating the first pair named cur in t, whose first pair has
      another name, invalidates it in t's tail. */
  lemma ConsFirstMatch(t: seq<NamePair>, rs: seq<NamePair>, cur: Att)
    requires |t| > 0 && t[0].cur != cur && |rs| == |t| - 1
    requires forall k :: 0 <= k < |t[1..]| && t[1..][k].cur == cur && (forall i :: 0 <= i < k ==> t[1..][i].cur != cur) ==>
               rs == t[1..][k := NamePair(t[1..][k].ori, NULL)]
    ensures forall k :: 0 <= k < |t| && t[k].cur == cur && (forall i :: 0 <= i < k ==> t[i].cur != cur) ==>
              [t[0]] + rs == t[k := NamePair(t[k].ori, NULL)]
  {
    forall k | 0 <= k < |t| && t[k].cur == cur && (forall i :: 0 <= i < k ==> t[i].cur != cur)
      ensures [t[0]] + rs == t[k := NamePair(t[k].ori, NULL)]
    {
      forall i | 0 <= i < k - 1
        ensures t[1..][i].cur != cur
      {
        assert t[1..][i] == t[i + 1];
      }
      assert t[1..][k - 1] == t[k];
      assert rs == t[1..][k - 1 := NamePair(t[k].ori, NULL)];
      assert [t[0]] + rs == t[k := NamePair(t[k].ori, NULL)];
    }
  }

  /** Without a pair named cur in t, nothing is invalidated in its tail. */
  lemma ConsNoMatch(t: seq<NamePair>, rs: seq<NamePair>, cur: Att)
    requires |t| > 0
    requires (forall k :: 0 <= k < |t[1..]| ==> t[1..][k].cur != cur) ==> rs == t[1..]
    ensures (forall k :: 0 <= k < |t| ==> t[k].cur != cur) ==> [t[0]] + rs == t
  {
    if forall k :: 0 <= k < |t| ==> t[k].cur != cur {
      forall k | 0 <= k < |t[1..]|
        ensures t[1..][k].cur != cur
      {
        assert t[1..][k] == t[k + 1];
      }
      assert [t[0]] + t[1..] == t;
    }
  }

  /** A list that keeps the original names of t's tail keeps those of t
      once t's first pair is put in front. */
  lemma ConsOris(t: seq<NamePair>, rs: seq<NamePair>)
    requires |t| > 0 && |rs| == |t| - 1 && forall k :: 0 <= k < |t[1..]| ==> rs[k].ori == t[1..][k].ori
    ensures forall k :: 0 <= k < |t| ==> ([t[0]] + rs)[k].ori == t[k].ori
  {
    forall k | 0 <= k < |t|
      ensures ([t[0]] + rs)[k].ori == t[k].ori
    {
      if k > 0 {
        assert ([t[0]] + rs)[k] == rs[k - 1] && t[1..][k - 1] == t[k];
      }
    }
  }

  /** The loop of diff_np. */
  method MarkGenerated(np: seq<NamePair>, cur: Att) returns (r: seq<NamePair>)
    ensures r == DiffNp(np, cur)
  {
    r := np;
    var i := 0;
    while i < |r|
      invariant 0 <= i <= |r| && r == np
      invariant forall k :: 0 <= k < i ==> np[k].cur != cur
    {
      if r[i].cur == cur {
        r := r[i := NamePair(r[i].ori, NULL)];
        return;
      }
      i := i + 1;
    }
  }

  /** The `old` name of the first projection item whose `new` name is c,
      looking from item j on. */
  function FirstOldFrom(items: seq<ProjItem>, c: Att, j: nat): (f: Option<Att>)
    requires j <= |items|
    ensures f.None? <==> forall k :: j <= k < |items| ==> items[k].newName != c
    ensures f.Some? ==> exists k :: && j <= k < |items| && items[k].newName == c && f.value == items[k].oldName
                                    && forall i :: j <= i < k ==> items[i].newName != c
    decreases |items| - j
  {
    if j == |items| then None
    else if items[j].newName == c then Some(items[j].oldName)
    else FirstOldFrom(items, c, j + 1)
  }

  function FirstOld(items: seq<ProjItem>, c: Att): Option<Att>
  {
    FirstOldFrom(items, c, 0)
  }

  /** What a projection makes of one pair (lines 159-180): an invalid pair
      is kept, a pair naming a projected column is renamed to that item's
      input name, and any other pair is dropped. */
  function Renamed(p: NamePair, items: seq<ProjItem>): (q: Option<NamePair>)
    ensures p.cur == NULL ==> q == Some(p)
    ensures p.cur != NULL ==> match FirstOld(items, p.cur)
      case Some(o) => q == Some(NamePair(p.ori, o))
      case None => q == None
  {
    if p.cur == NULL then Some(p)
    else match FirstOld(items, p.cur)
      case Some(o) => Some(NamePair(p.ori, o))
      case None => None
  }

  /** The list a projection hands to its child. */
  function ProjectPairs(np: seq<NamePair>, items: seq<ProjItem>): seq<NamePair>
  {
    if |np| == 0 then []
    else
      var rest := ProjectPairs(np[..|np| - 1], items);
      match Renamed(np[|np| - 1], items)
        case Some(q) => rest + [q]
        case None => rest
  }

  /** A pair reaches a projection's child exactly when it is what the
      projection makes of one of the node's pairs. */
  lemma {:induction false} ProjectMembers(np: seq<NamePair>, items: seq<ProjItem>, q: NamePair)
    ensures q in ProjectPairs(np, items) <==> exists k :: 0 <= k < |np| && Renamed(np[k], items) == Some(q)
    decreases |np|
  {
    if |np| > 0 {
      var init := np[..|np| - 1];
      ProjectMembers(init, items, q);
      assert forall k :: 0 <= k < |init| ==> init[k] == np[k];
      if exists k :: 0 <= k < |np| && Renamed(np[k], items) == Some(q) {
        var k :| 0 <= k < |np| && Renamed(np[k], items) == Some(q);
        if k < |init| {
          assert Renamed(init[k], items) == Some(q);
        }
      }
    }
  }

  /** The projection loop of lines 159-181. */
  method ProjectLoop(np: seq<NamePair>, items: seq<ProjItem>) returns (r: seq<NamePair>)
    ensures r == ProjectPairs(np, items)
  {
    r := [];
    var i := 0;
    while i < |np|
      invariant 0 <= i <= |np| && r == ProjectPairs(np[..i], items)
    {
      assert np[..i + 1][..i] == np[..i];
      if np[i].cur == NULL {
        r := AddNamePair(r, np[i].ori, np[i].cur);
      } else {
        var j := 0;
        while j < |items| && items[j].newName != np[i].cur
          invariant 0 <= j <= |items|
          invariant FirstOldFrom(items, np[i].cur, j) == FirstOld(items, np[i].cur)
        {
          j := j + 1;
        }
        if j < |items| {
          r := AddNamePair(r, np[i].ori, items[j].oldName);
        }
      }
      i := i + 1;
    }
    assert np[..i] == np;
  }

  /** The list a join hands to the child with the given schema: invalid
      pairs and pairs naming a column of that schema. */
  function RoutePairs(np: seq<NamePair>, schema: seq<Att>): seq<NamePair>
  {
    if |np| == 0 then []
    else
      var rest := RoutePairs(np[..|np| - 1], schema);
      var p := np[|np| - 1];
      if p.cur == NULL || p.cur in schema then rest + [p] else rest
  }

  /** A join passes a child exactly the node's invalid pairs and its pairs
      whose current name is in the child's schema, in order. */
  lemma {:induction false} RouteMembers(np: seq<NamePair>, schema: seq<Att>, q: NamePair)
    ensures q in RoutePairs(np, schema) <==> q in np && (q.cur == NULL || q.cur in schema)
    decreases |np|
  {
    if |np| > 0 {
      RouteMembers(np[..|np| - 1], schema, q);
      assert np == np[..|np| - 1] + [np[|np| - 1]];
    }
  }

  /** The schema-routing loops of lines 191-211 and 228-246. */
  method RouteLoop(np: seq<NamePair>, schema: seq<Att>) returns (r: seq<NamePair>)
    ensures r == RoutePairs(np, schema)
  {
    r := [];
    var i := 0;
    while i < |np|
      invariant 0 <= i <= |np| && r == RoutePairs(np[..i], schema)
    {
      assert np[..i + 1][..i] == np[..i];
      if np[i].cur == NULL {
        r := AddNamePair(r, np[i].ori, np[i].cur);
      } else {
        var j := 0;
        while j < |schema| && schema[j] != np[i].cur
          invariant 0 <= j <= |schema| && np[i].cur !in schema[..j]
        {
          assert schema[..j + 1] == schema[..j] + [schema[j]];
          j := j + 1;
        }
        if j < |schema| {
          r := AddNamePair(r, np[i].ori, np[i].cur);
        } else {
          assert schema[..j] == schema;
        }
      }
      i := i + 1;
    }
    assert np[..i] == np;
  }

  /** The list a semijoin hands to its right child (lines 217-225): the
      first pair for the join column att2, if any. */
  function SemiPairs(np: seq<NamePair>, att2: Att): (r: seq<NamePair>)
    ensures r == [] <==> forall k :: 0 <= k < |np| ==> np[k].cur != att2
    ensures r != [] ==> exists k :: && 0 <= k < |np| && r == [np[k]] && np[k].cur == att2
                                    && forall i :: 0 <= i < k ==> np[i].cur != att2
  {
    if |np| == 0 then []
    else if np[0].cur == att2 then [np[0]]
    else
      var rest := SemiPairs(np[1..], att2);
      assert forall k :: 1 <= k < |np| ==> np[1..][k - 1] == np[k];
      rest
  }

  /** The loop of lines 217-225. */
  method SemiLoop(np: seq<NamePair>, att2: Att) returns (r: seq<NamePair>)
    ensures r == SemiPairs(np, att2)
  {
    var i := 0;
    while i < |np| && np[i].cur != att2
      invariant 0 <= i <= |np| && SemiPairs(np[i..], att2) == SemiPairs(np, att2)
    {
      assert np[i..][1..] == np[i + 1..];
      i := i + 1;
    }
    r := if i < |np| then [np[i]] else [];
  }

  /** The pairs a base table reports to the goal (lines 135-148): every
      original name it received, with an invalid current name. */
  function Nulled(np: seq<NamePair>): (r: seq<NamePair>)
    ensures |r| == |np| && forall k :: 0 <= k < |np| ==> r[k] == NamePair(np[k].ori, NULL)
  {
    seq(|np|, k requires 0 <= k < |np| => NamePair(np[k].ori, NULL))
  }

  /** A node's list once its parent's pairs are copied in (lines 90-101):
      fragment, frag_union and empty_frag take nothing over fragment edges. */
  function Absorb(kind: Kind, np: seq<NamePair>, par: seq<NamePair>): (r: seq<NamePair>)
    ensures kind == Fragment(false) ==> r == np
    ensures kind != Fragment(false) ==> r == np + par
  {
    if kind == Fragment(false) then np else np + par
  }

  /** A node's own list after it is processed (lines 115-441). */
  function Settled(kind: Kind, np: seq<NamePair>): (r: seq<NamePair>)
    ensures kind.Generates? ==> r == DiffNp(np, kind.res)
    ensures kind.Fragment? || kind.Trace? ==> r == []
    ensures !(kind.Generates? || kind.Fragment? || kind.Trace?) ==> r == np
  {
    match kind
      case Generates(res) => DiffNp(np, res)
      case Fragment(_) => []
      case Trace => []
      case _ => np
  }

  /** A node's hand-over list after it is processed: a projection appends
      its renamed pairs, a join empties it after each child. */
  function SettledHandOver(kind: Kind, np: seq<NamePair>, lp: seq<NamePair>): (r: seq<NamePair>)
    ensures kind.Project? ==> r == lp + ProjectPairs(np, kind.items)
    ensures kind.Join? || kind.SemiJoin? ==> r == []
    ensures !(kind.Project? || kind.Join? || kind.SemiJoin?) ==> r == lp
  {
    match kind
      case Project(items) => lp + ProjectPairs(np, items)
      case Join => []
      case SemiJoin(_) => []
      case _ => lp
  }

  /** Every pair of np has its original name in names. */
  predicate OrisIn(np: seq<NamePair>, names: set<Att>)
  {
    forall p :: p in np ==> p.ori in names
  }

  /**
   * No step of the tracing invents an original name: invalidating,
   * renaming, routing, the semijoin hand-over and the base-table report
   * all keep the original name of every pair they pass on.
   */
  lemma SettledOris(kind: Kind, np: seq<NamePair>, lp: seq<NamePair>, names: set<Att>)
    requires OrisIn(np, names) && OrisIn(lp, names)
    ensures OrisIn(Settled(kind, np), names) && OrisIn(SettledHandOver(kind, np, lp), names)
    ensures OrisIn(Nulled(np), names)
  {
    if kind.Generates? {
      var r := DiffNp(np, kind.res);
      forall p | p in r ensures p.ori in names {
        var k :| 0 <= k < |r| && r[k] == p;
        assert np[k] in np;
      }
    }
    if kind.Project? {
      forall q | q in ProjectPairs(np, kind.items) ensures q.ori in names {
        ProjectMembers(np, kind.items, q);
        var k :| 0 <= k < |np| && Renamed(np[k], kind.items) == Some(q);
        assert np[k] in np;
      }
    }
    forall q | q in Nulled(np) ensures q.ori in names {
      var k :| 0 <= k < |np| && Nulled(np)[k] == q;
      assert np[k] in np;
    }
  }

  lemma HandOverOris(np: seq<NamePair>, schema: seq<Att>, att2: Att, names: set<Att>)
    requires OrisIn(np, names)
    ensures OrisIn(RoutePairs(np, schema), names) && OrisIn(SemiPairs(np, att2), names)
  {
    forall q | q in RoutePairs(np, schema) ensures q.ori in names {
      RouteMembers(np, schema, q);
    }
  }

  /** One hand-over of map_names: the list passed to child. */
  datatype HandOver = HandOver(child: nat, list: seq<NamePair>)

  /** The starting list (lines 511-512): one pair (a, a) per name, in order. */
  function InitPairs(list: seq<Att>): (r: seq<NamePair>)
    ensures |r| == |list| && forall i :: 0 <= i < |list| ==> r[i] == NamePair(list[i], list[i])
  {
    seq(|list|, i requires 0 <= i < |list| => NamePair(list[i], list[i]))
  }

  predicate HasOri(m: seq<NamePair>, o: Att)
  {
    exists p :: p in m && p.ori == o
  }

  /** Every pair for original name o carries the same current name. */
  predicate Uniform(m: seq<NamePair>, o: Att)
  {
    forall x, y :: x in m && y in m && x.ori == o && y.ori == o ==> x.cur == y.cur
  }

  /** The current name of the first pair for o (NULL if there is none). */
  function FirstCur(m: seq<NamePair>, o: Att): (c: Att)
    ensures HasOri(m, o) ==> NamePair(o, c) in m
  {
    if |m| == 0 then NULL
    else if m[0].ori == o then m[0].cur
    else
      var c := FirstCur(m[1..], o);
      assert forall p :: p in m[1..] ==> p in m;
      assert HasOri(m, o) ==> HasOri(m[1..], o) by {
        if HasOri(m, o) {
          var p :| p in m && p.ori == o;
          assert p != m[0];
        }
      }
      c
  }

  /** The current name the pruning settles on for o: the one all its pairs
      agree on, or NULL when they conflict. */
  function Merged(m: seq<NamePair>, o: Att): Att
  {
    if Uniform(m, o) then FirstCur(m, o) else NULL
  }

  /** The traced name of a requested column: NULL when no pair names it. */
  function Resolve(m: seq<NamePair>, a: Att): Att
  {
    if HasOri(m, a) then Merged(m, a) else NULL
  }

  /** The traced name is collected for that column, or NULL. */
  lemma ResolveFound(m: seq<NamePair>, a: Att)
    ensures Resolve(m, a) != NULL ==> NamePair(a, Resolve(m, a)) in m && Uniform(m, a)
    ensures !HasOri(m, a) ==> Resolve(m, a) == NULL
    ensures HasOri(m, a) && Uniform(m, a) ==> forall p :: p in m && p.ori == a ==> p.cur == Resolve(m, a)
  {
  }

  /** Tracing a list through nothing gives back every name unchanged. */
  lemma ResolveInit(list: seq<Att>, i: nat)
    requires i < |list|
    ensures Resolve(InitPairs(list), list[i]) == list[i]
  {
    var m := InitPairs(list);
    assert m[i] in m;
    assert forall p :: p in m ==> p.cur == p.ori;
  }

  predicate Distinct(r: seq<NamePair>)
  {
    forall a, b :: 0 <= a < b < |r| ==> r[a].ori != r[b].ori
  }

  /** Delete entry j by moving the last entry into its place (lines 531-534). */
  function DeleteAt(r: seq<NamePair>, j: nat): (r': seq<NamePair>)
    requires j < |r|
    ensures |r'| == |r| - 1
    ensures forall k :: 0 <= k < |r'| ==> r'[k] == (if k == j then r[|r| - 1] else r[k])
  {
    r[j := r[|r| - 1]][..|r| - 1]
  }

  /** After deleting entry j, every entry from j on was already there, and
      every entry from j on other than the deleted one still is. */
  lemma DeleteAtMembers(r: seq<NamePair>, j: nat, from: nat)
    requires from <= j < |r|
    ensures forall p :: p in DeleteAt(r, j)[from..] ==> p in r[from..]
    ensures forall p :: p in r[from..] && p != r[j] ==> p in DeleteAt(r, j)[from..]
  {
    var r' := DeleteAt(r, j);
    forall p | p in r'[from..]
      ensures p in r[from..]
    {
      var k :| from <= k < |r'| && r'[k] == p;
      if k == j {
        assert r[|r| - 1] == r[from..][|r| - 1 - from];
      } else {
        assert r[k] == r[from..][k - from];
      }
    }
    forall p | p in r[from..] && p != r[j]
      ensures p in r'[from..]
    {
      var k :| from <= k < |r| && r[k] == p;
      if k == |r| - 1 {
        assert r'[j] == p;
        assert r'[from..][j - from] == p;
      } else {
        assert k != j;
        assert r'[from..][k - from] == p;
      }
    }
  }

  /** The state of the pruning after its first i rounds: the first i
      entries have distinct original names, `done`, each merged, and every
      pair of m for a name not yet done is still among the rest. */
  ghost predicate PruneInv(m: seq<NamePair>, r: seq<NamePair>, i: nat, done: set<Att>)
  {
    && i <= |r|
    && Distinct(r[..i])
    && (forall a :: 0 <= a < i ==> r[a].ori in done && r[a].cur == Merged(m, r[a].ori))
    && (forall k :: i <= k < |r| ==> r[k].ori !in done && r[k] in m)
    && (forall x :: x in done ==> HasOri(m, x) && exists a :: 0 <= a < i && r[a].ori == x)
    && (forall p :: p in m && p.ori !in done ==> p in r[i..])
  }

  /** The state of round i of the pruning, with later entries up to j
      inspected: `agree` says whether every pair for entry i's name
      merged so far had entry i's original current name. */
  ghost predicate MergeInv(m: seq<NamePair>, r0: seq<NamePair>, r: seq<NamePair>, i: nat, j: nat,
                           done: set<Att>, agree: bool)
    requires i < |r0|
  {
    var o, c0 := r0[i].ori, r0[i].cur;
    && i < j <= |r| <= |r0| && r[..i] == r0[..i] && r[i].ori == o
    && (forall k :: i < k < j ==> r[k].ori != o)
    && (forall k :: i < k < |r| ==> r[k].ori !in done && r[k] in m)
    && (forall p :: p in m && p.ori !in done && p.ori != o ==> p in r[i + 1..])
    && (agree ==> forall p :: p in m && p.ori == o && p !in r[j..] ==> p.cur == c0)
    && (!agree ==> exists p :: p in m && p.ori == o && p.cur != c0)
    && r[i].cur == (if agree then c0 else NULL)
  }

  lemma MergeStart(m: seq<NamePair>, r0: seq<NamePair>, i: nat, done: set<Att>)
    requires PruneInv(m, r0, i, done) && i < |r0|
    ensures MergeInv(m, r0, r0, i, i + 1, done, true)
  {
    assert r0[i..] == [r0[i]] + r0[i + 1..];
  }

  /** Merging entry j, which has entry i's original name, into entry i
      and deleting it keeps the round's state. */
  lemma MergeDuplicate(m: seq<NamePair>, r0: seq<NamePair>, r: seq<NamePair>, i: nat, j: nat,
                       done: set<Att>, agree: bool)
    requires i < |r0| && MergeInv(m, r0, r, i, j, done, agree) && j < |r| && r[j].ori == r0[i].ori
    ensures var r1 := if r[i].cur != r[j].cur then r[i := NamePair(r0[i].ori, NULL)] else r;
      MergeInv(m, r0, DeleteAt(r1, j), i, j, done, agree && r[j].cur == r0[i].cur)
  {
    var o, c0 := r0[i].ori, r0[i].cur;
    var r1 := if r[i].cur != r[j].cur then r[i := NamePair(o, NULL)] else r;
    DuplicateShape(r0, r, r1, i, j);
    DuplicateMembers(m, r, r1, i, j, done, o, c0, agree);
  }

  /** Deleting duplicate j keeps the entries up to i and the names
      inspected between them. */
  lemma DuplicateShape(r0: seq<NamePair>, r: seq<NamePair>, r1: seq<NamePair>, i: nat, j: nat)
    requires i < j < |r| && i < |r0| && r[..i] == r0[..i] && r[i].ori == r0[i].ori
    requires forall k :: i < k < j ==> r[k].ori != r0[i].ori
    requires r1 == if r[i].cur != r[j].cur then r[i := NamePair(r0[i].ori, NULL)] else r
    ensures |DeleteAt(r1, j)| == |r| - 1 && DeleteAt(r1, j)[..i] == r0[..i]
    ensures DeleteAt(r1, j)[i] == (if r[i].cur != r[j].cur then NamePair(r0[i].ori, NULL) else r[i])
    ensures forall k :: i < k < j ==> DeleteAt(r1, j)[k].ori != r0[i].ori
  {
    var r2 := DeleteAt(r1, j);
    forall a | 0 <= a < i
      ensures r2[a] == r0[a]
    {
      assert r[..i][a] == r0[..i][a];
    }
    assert r2[..i] == r0[..i];
  }

  /** Deleting duplicate j keeps the rest's members, and records whether
      its current name agreed. */
  lemma DuplicateMembers(m: seq<NamePair>, r: seq<NamePair>, r1: seq<NamePair>, i: nat, j: nat,
                         done: set<Att>, o: Att, c0: Att, agree: bool)
    requires i < j < |r| && r[j].ori == o
    requires r1 == if r[i].cur != r[j].cur then r[i := NamePair(o, NULL)] else r
    requires forall k :: i < k < |r| ==> r[k].ori !in done && r[k] in m
    requires forall p :: p in m && p.ori !in done && p.ori != o ==> p in r[i + 1..]
    requires agree ==> forall p :: p in m && p.ori == o && p !in r[j..] ==> p.cur == c0
    requires !agree ==> exists p :: p in m && p.ori == o && p.cur != c0
    ensures forall k :: i < k < |DeleteAt(r1, j)| ==> DeleteAt(r1, j)[k].ori !in done && DeleteAt(r1, j)[k] in m
    ensures forall p :: p in m && p.ori !in done && p.ori != o ==> p in DeleteAt(r1, j)[i + 1..]
    ensures agree && r[j].cur == c0 ==> forall p :: p in m && p.ori == o && p !in DeleteAt(r1, j)[j..] ==> p.cur == c0
    ensures !(agree && r[j].cur == c0) ==> exists p :: p in m && p.ori == o && p.cur != c0
  {
    assert r1[j..] == r[j..] && r1[i + 1..] == r[i + 1..] && r1[j] == r[j];
    DeleteAtMembers(r1, j, j);
    DeleteAtMembers(r1, j, i + 1);
  }

  lemma MergeSkip(m: seq<NamePair>, r0: seq<NamePair>, r: seq<NamePair>, i: nat, j: nat,
                  done: set<Att>, agree: bool)
    requires i < |r0| && MergeInv(m, r0, r, i, j, done, agree) && j < |r| && r[j].ori != r0[i].ori
    ensures MergeInv(m, r0, r, i, j + 1, done, agree)
  {
    assert r[j..] == [r[j]] + r[j + 1..];
  }

  /** At the end of round i, entry i holds the merged current name of its
      original name and no later entry shares it. */
  lemma MergeEnd(m: seq<NamePair>, r0: seq<NamePair>, r: seq<NamePair>, i: nat,
                 done: set<Att>, agree: bool)
    requires PruneInv(m, r0, i, done) && i < |r0| && MergeInv(m, r0, r, i, |r|, done, agree)
    ensures PruneInv(m, r, i + 1, done + {r[i].ori})
  {
    MergeEndPrefix(m, r0, r, i, done, agree);
    MergeEndNames(m, r0, r, i, done, agree);
  }

  /** The first i + 1 entries after round i are distinct and merged. */
  lemma MergeEndPrefix(m: seq<NamePair>, r0: seq<NamePair>, r: seq<NamePair>, i: nat,
                       done: set<Att>, agree: bool)
    requires PruneInv(m, r0, i, done) && i < |r0| && MergeInv(m, r0, r, i, |r|, done, agree)
    ensures Distinct(r[..i + 1])
    ensures forall a :: 0 <= a < i + 1 ==> r[a].ori in done + {r[i].ori} && r[a].cur == Merged(m, r[a].ori)
  {
    MergedEntry(m, r0, r, i, done, agree);
    PrefixKept(r0, r, i);
    MergeEndDistinct(m, r0, r, i, done, agree);
  }

  lemma PrefixKept(r0: seq<NamePair>, r: seq<NamePair>, i: nat)
    requires i <= |r| && i <= |r0| && r[..i] == r0[..i]
    ensures forall a :: 0 <= a < i ==> r[a] == r0[a]
  {
    forall a | 0 <= a < i ensures r[a] == r0[a] {
      assert r[..i][a] == r0[..i][a];
    }
  }

  lemma MergeEndDistinct(m: seq<NamePair>, r0: seq<NamePair>, r: seq<NamePair>, i: nat,
                         done: set<Att>, agree: bool)
    requires PruneInv(m, r0, i, done) && i < |r0| && MergeInv(m, r0, r, i, |r|, done, agree)
    requires forall a :: 0 <= a < i ==> r[a] == r0[a]
    ensures Distinct(r[..i + 1])
  {
    var head := r[..i + 1];
    forall a, b | 0 <= a < b < i + 1
      ensures head[a].ori != head[b].ori
    {
      assert head[a] == r[a] && head[b] == r[b];
      if b < i {
        assert r0[..i][a] == r0[a] && r0[..i][b] == r0[b];
      } else {
        assert r[a].ori in done && r0[i].ori !in done;
      }
    }
  }

  /** Every name done after round i is an original name of the list and
      held by one of its first i + 1 entries. */
  lemma MergeEndNames(m: seq<NamePair>, r0: seq<NamePair>, r: seq<NamePair>, i: nat,
                      done: set<Att>, agree: bool)
    requires PruneInv(m, r0, i, done) && i < |r0| && MergeInv(m, r0, r, i, |r|, done, agree)
    ensures forall x :: x in done + {r[i].ori} ==> HasOri(m, x) && exists a :: 0 <= a < i + 1 && r[a].ori == x
  {
    var o := r0[i].ori;
    forall x | x in done + {o}
      ensures HasOri(m, x) && exists a :: 0 <= a < i + 1 && r[a].ori == x
    {
      if x == o {
        assert r0[i] in m;
      } else {
        var a :| 0 <= a < i && r0[a].ori == x;
        assert r[..i][a] == r0[..i][a];
        assert r[a].ori == x;
      }
    }
  }

  /** Entry i ends its round with the merged current name of its name. */
  lemma MergedEntry(m: seq<NamePair>, r0: seq<NamePair>, r: seq<NamePair>, i: nat,
                    done: set<Att>, agree: bool)
    requires PruneInv(m, r0, i, done) && i < |r0| && MergeInv(m, r0, r, i, |r|, done, agree)
    ensures r[i].cur == Merged(m, r0[i].ori)
  {
    var o, c0 := r0[i].ori, r0[i].cur;
    assert r0[i] in m;
    if agree {
      assert forall p :: p in m && p.ori == o ==> p.cur == c0 by {
        assert r[|r|..] == [];
      }
      assert Uniform(m, o);
    } else {
      assert !Uniform(m, o);
    }
  }

  /**
   * The pruning loops of lines 522-536 on the goal's collected list m:
   * afterwards no two entries share an original name, every original
   * name of m survives, and a surviving current name is the one all of
   * its pairs agreed on, or NULL where they conflicted.
   */
  method Prune(m: seq<NamePair>) returns (r: seq<NamePair>)
    ensures Distinct(r)
    ensures forall o :: HasOri(r, o) <==> HasOri(m, o)
    ensures forall a :: 0 <= a < |r| ==> r[a].cur == Merged(m, r[a].ori)
  {
    r := m;
    ghost var done: set<Att> := {};
    var i := 0;
    while i < |r|
      invariant PruneInv(m, r, i, done)
      decreases |r| - i
    {
      ghost var r0 := r;
      r := PruneOne(m, r, i, done);
      done := done + {r[i].ori};
      i := i + 1;
    }
    PruneDone(m, r, done);
  }

  lemma PruneDone(m: seq<NamePair>, r: seq<NamePair>, done: set<Att>)
    requires PruneInv(m, r, |r|, done)
    ensures Distinct(r)
    ensures forall o :: HasOri(r, o) <==> HasOri(m, o)
    ensures forall a :: 0 <= a < |r| ==> r[a].cur == Merged(m, r[a].ori)
  {
    assert r[..|r|] == r;
    forall o | HasOri(m, o)
      ensures HasOri(r, o)
    {
      var p :| p in m && p.ori == o;
      var a :| 0 <= a < |r| && r[a].ori == o;
      assert r[a] in r;
    }
    forall o | HasOri(r, o)
      ensures HasOri(m, o)
    {
      var p :| p in r && p.ori == o;
      var a :| 0 <= a < |r| && r[a] == p;
      assert r[a].ori in done;
    }
  }

  /** Round i of the pruning (the inner loop of lines 524-535): merge every
      later entry with entry i's original name into entry i and delete it
      by moving the last entry into its place. */
  method PruneOne(m: seq<NamePair>, r0: seq<NamePair>, i: nat, ghost done: set<Att>) returns (r: seq<NamePair>)
    requires PruneInv(m, r0, i, done) && i < |r0|
    ensures i < |r| <= |r0| && PruneInv(m, r, i + 1, done + {r[i].ori})
  {
    r := r0;
    ghost var agree := true;
    MergeStart(m, r0, i, done);
    var j: nat := i + 1;
    while j < |r|
      invariant MergeInv(m, r0, r, i, j, done, agree)
      decreases |r| - j
    {
      if r[i].ori == r[j].ori {
        MergeDuplicate(m, r0, r, i, j, done, agree);
        agree := agree && r[j].cur == r0[i].cur;
        if r[i].cur != r[j].cur {
          r := r[i := NamePair(r[i].ori, NULL)];
        }
        r := DeleteAt(r, j);
      } else {
        MergeSkip(m, r0, r, i, j, done, agree);
        j := j + 1;
      }
    }
    MergeEnd(m, r0, r, i, done, agree);
  }

  /** The output loop of lines 539-553 over the pruned list r. */
  method Fill(r: seq<NamePair>, list: seq<Att>, ghost m: seq<NamePair>) returns (out: seq<Att>)
    requires Distinct(r)
    requires forall o :: HasOri(r, o) <==> HasOri(m, o)
    requires forall a :: 0 <= a < |r| ==> r[a].cur == Merged(m, r[a].ori)
    ensures |out| == |list| && forall i :: 0 <= i < |list| ==> out[i] == Resolve(m, list[i])
    ensures forall i, a :: 0 <= i < |list| && 0 <= a < |r| && r[a].ori == list[i] ==> out[i] == r[a].cur
    ensures forall i :: 0 <= i < |list| && !HasOri(r, list[i]) ==> out[i] == NULL
  {
    out := [];
    var i := 0;
    while i < |list|
      invariant 0 <= i <= |list| && |out| == i
      invariant forall k :: 0 <= k < i ==> out[k] == Resolve(m, list[k])
      invariant forall k, a :: 0 <= k < i && 0 <= a < |r| && r[a].ori == list[k] ==> out[k] == r[a].cur
      invariant forall k :: 0 <= k < i && !HasOri(r, list[k]) ==> out[k] == NULL
    {
      var j := 0;
      while j < |r| && list[i] != r[j].ori
        invariant 0 <= j <= |r|
        invariant forall k :: 0 <= k < j ==> r[k].ori != list[i]
      {
        j := j + 1;
      }
      if j < |r| {
        assert r[j] in r;
        out := out + [r[j].cur];
      } else {
        assert !HasOri(r, list[i]);
        out := out + [NULL];
      }
      i := i + 1;
    }
  }

  /**
   * The tracing state of one DAG: per operator the name pair list
   * (prop->name_pairs), the list handed to children (prop->l_name_pairs)
   * and the count of parents not yet seen (PFprop_refctr).
   */
  /** Two child calls after log0: the left child is called first, with
      left, and a later call hands right to the right child. */
  ghost predicate PairHandedOn(l: nat, r: nat, left: seq<NamePair>, right: seq<NamePair>,
                               log0: seq<HandOver>, log1: seq<HandOver>)
  {
    && log0 + [HandOver(l, left)] <= log1
    && exists m :: |log0| < m < |log1| && log1[m] == HandOver(r, right)
  }

  /** The generic end of map_names after log0: each present child, left
      first, is called with s; a leaf calls nothing. */
  ghost predicate ChildrenHandedOn(nd: Node, s: seq<NamePair>, log0: seq<HandOver>, log1: seq<HandOver>)
  {
    && (nd.left.Some? && nd.right.Some? ==> PairHandedOn(nd.left.value, nd.right.value, s, s, log0, log1))
    && (nd.left.Some? && nd.right.None? ==> log0 + [HandOver(nd.left.value, s)] <= log1)
    && (nd.left.None? && nd.right.Some? ==> log0 + [HandOver(nd.right.value, s)] <= log1)
    && (nd.left.None? && nd.right.None? ==> log1 == log0)
  }

  class NameTracer {
    const nodes: seq<Node>
    var pairs: seq<seq<NamePair>>
    var lpairs: seq<seq<NamePair>>
    var refctr: seq<int>
    /** Every call of map_names, in order: the operator and the list it got. */
    ghost var log: seq<HandOver>

    ghost predicate Valid()
      reads this
    {
      Dag(nodes) && |pairs| == |nodes| && |lpairs| == |nodes| && |refctr| == |nodes|
    }

    /** Every pair held anywhere has its original name in names. */
    ghost predicate Within(names: set<Att>)
      reads this
    {
      && (forall k :: 0 <= k < |pairs| ==> OrisIn(pairs[k], names))
      && (forall k :: 0 <= k < |lpairs| ==> OrisIn(lpairs[k], names))
    }

    constructor (nodes: seq<Node>)
      requires Dag(nodes)
      ensures Valid() && this.nodes == nodes && log == []
      ensures forall n :: 0 <= n < |nodes| ==> pairs[n] == [] && lpairs[n] == [] && refctr[n] == 0
    {
      this.nodes := nodes;
      pairs := seq(|nodes|, _ => []);
      lpairs := seq(|nodes|, _ => []);
      refctr := seq(|nodes|, _ => 0);
      log := [];
    }

    /**
     * What the children of n are handed once n settles with list p and
     * hand-over list lp, as logged between log0 and log1: a projection's
     * child gets the renamed pairs (lines 154-182), a join's children the
     * routed pairs (lines 184-248), a trace's left child the list and its
     * right child the emptied list (lines 403-410); every other kind hands
     * its settled list to each present child, left first (lines 445-446).
     */
    ghost predicate HandedOn(n: nat, p: seq<NamePair>, lp: seq<NamePair>, log0: seq<HandOver>, log1: seq<HandOver>)
      requires n < |nodes| && Dag(nodes)
    {
      var nd := nodes[n];
      assert NodeOk(nodes, n);
      match nd.kind
        case Project(items) => log0 + [HandOver(nd.left.value, lp + ProjectPairs(p, items))] <= log1
        case Join =>
          PairHandedOn(nd.left.value, nd.right.value, lp + RoutePairs(p, nodes[nd.left.value].schema),
                       RoutePairs(p, nodes[nd.right.value].schema), log0, log1)
        case SemiJoin(att2) =>
          PairHandedOn(nd.left.value, nd.right.value, lp + RoutePairs(p, nodes[nd.left.value].schema),
                       SemiPairs(p, att2), log0, log1)
        case Trace => PairHandedOn(nd.left.value, nd.right.value, p, [], log0, log1)
        case _ => ChildrenHandedOn(nd, Settled(nd.kind, p), log0, log1)
    }

    /**
     * map_names (lines 81-447) on operator n with the parent's list par.
     * Only n, the operators below it and the goal change. While parents
     * remain, and at the goal, n only takes over par (fragment edges
     * excepted) and counts the parent; otherwise n settles its own list,
     * hands lists to its children and recurses. The call is logged first,
     * and no original name outside names ever enters a list.
     */
    method MapNames(n: nat, goal: nat, par: seq<NamePair>, ghost names: set<Att>)
      requires Valid() && n < |nodes| && goal < |nodes|
      requires Within(names) && OrisIn(par, names)
      modifies this
      decreases |nodes| - n, 3
      ensures Valid() && Within(names)
      ensures old(log) + [HandOver(n, par)] <= log
      ensures forall k :: 0 <= k < n && k != goal ==>
        pairs[k] == old(pairs[k]) && lpairs[k] == old(lpairs[k]) && refctr[k] == old(refctr[k])
      ensures refctr[n] == old(refctr[n]) - 1
      ensures old(pairs[goal]) <= pairs[goal]
      ensures var absorbed := Absorb(nodes[n].kind, old(pairs[n]), par);
        (old(refctr[n]) > 1 || n == goal) ==>
          && pairs == old(pairs)[n := absorbed] && lpairs == old(lpairs)
          && refctr == old(refctr)[n := old(refctr[n]) - 1] && log == old(log) + [HandOver(n, par)]
      ensures var absorbed := Absorb(nodes[n].kind, old(pairs[n]), par);
        (old(refctr[n]) <= 1 && n != goal) ==>
          && pairs[n] == Settled(nodes[n].kind, absorbed)
          && lpairs[n] == SettledHandOver(nodes[n].kind, absorbed, old(lpairs[n]))
          && HandedOn(n, absorbed, old(lpairs[n]), old(log) + [HandOver(n, par)], log)
          && (nodes[n].kind.BaseTable? ==> old(pairs[goal]) + Nulled(absorbed) <= pairs[goal])
    {
      log := log + [HandOver(n, par)];
      if nodes[n].kind != Fragment(false) {
        var np := AddAll(pairs[n], par);
        pairs := pairs[n := np];
      }
      refctr := refctr[n := refctr[n] - 1];
      if refctr[n] > 0 || n == goal {
        return;
      }
      Settle(n, goal, names);
    }

    /**
     * The part of map_names after the reference count of n reached 0
     * (lines 115-446): the case for n's operator kind, then the children.
     */
    method Settle(n: nat, goal: nat, ghost names: set<Att>)
      requires Valid() && n < |nodes| && goal < |nodes| && n != goal && Within(names)
      modifies this
      decreases |nodes| - n, 2
      ensures Valid() && Within(names) && old(log) <= log
      ensures forall k :: 0 <= k < n && k != goal ==>
        pairs[k] == old(pairs[k]) && lpairs[k] == old(lpairs[k]) && refctr[k] == old(refctr[k])
      ensures refctr[n] == old(refctr[n]) && old(pairs[goal]) <= pairs[goal]
      ensures pairs[n] == Settled(nodes[n].kind, old(pairs[n]))
      ensures lpairs[n] == SettledHandOver(nodes[n].kind, old(pairs[n]), old(lpairs[n]))
      ensures HandedOn(n, old(pairs[n]), old(lpairs[n]), old(log), log)
      ensures nodes[n].kind.BaseTable? ==> old(pairs[goal]) + Nulled(old(pairs[n])) <= pairs[goal]
      ensures nodes[n].kind.BaseTable? && nodes[n].left.None? && nodes[n].right.None? ==>
        pairs[goal] == old(pairs[goal]) + Nulled(old(pairs[n]))
    {
      assert NodeOk(nodes, n);
      match nodes[n].kind {
        case Project(items) =>
          ProjectChild(n, goal, items, names);
        case Join =>
          JoinChildren(n, goal, None, names);
        case SemiJoin(att2) =>
          JoinChildren(n, goal, Some(att2), names);
        case Trace =>
          TraceChildren(n, goal, names);
        case _ =>
          SettleInPlace(n, goal, names);
      }
    }

    /**
     * The cases of map_names that change only n's own list or the goal's
     * (lines 119-152, 250-308, 385-399, 412-436), followed by the generic visit of
     * the children with the settled list (lines 445-446): a base table
     * reports its pairs to the goal with NULL current names, a generating
     * operator invalidates its column, a fragment operator empties its list.
     */
    method SettleInPlace(n: nat, goal: nat, ghost names: set<Att>)
      requires Valid() && n < |nodes| && goal < |nodes| && n != goal && Within(names)
      requires !(nodes[n].kind.Project? || nodes[n].kind.Join? || nodes[n].kind.SemiJoin? || nodes[n].kind.Trace?)
      modifies this
      decreases |nodes| - n, 1
      ensures Valid() && Within(names)
      ensures forall k :: 0 <= k < n && k != goal ==>
        pairs[k] == old(pairs[k]) && lpairs[k] == old(lpairs[k]) && refctr[k] == old(refctr[k])
      ensures pairs[n] == Settled(nodes[n].kind, old(pairs[n])) && lpairs[n] == old(lpairs[n])
      ensures refctr[n] == old(refctr[n])
      ensures ChildrenHandedOn(nodes[n], Settled(nodes[n].kind, old(pairs[n])), old(log), log)
      ensures !nodes[n].kind.BaseTable? ==> old(pairs[goal]) <= pairs[goal]
      ensures nodes[n].kind.BaseTable? ==> old(pairs[goal]) + Nulled(old(pairs[n])) <= pairs[goal]
      ensures nodes[n].kind.BaseTable? && nodes[n].left.None? && nodes[n].right.None? ==>
        pairs[goal] == old(pairs[goal]) + Nulled(old(pairs[n]))
    {
      var nd := nodes[n];
      assert NodeOk(nodes, n);
      SettledOris(nd.kind, pairs[n], lpairs[n], names);
      match nd.kind {
        case BaseTable =>
          pairs := pairs[goal := pairs[goal] + Nulled(pairs[n])];
        case Generates(res) =>
          var np := MarkGenerated(pairs[n], res);
          pairs := pairs[n := np];
        case Fragment(_) =>
          pairs := pairs[n := []];
        case Plain =>
      }
      Children(n, goal, names);
    }

    /** The generic recursion at the end of map_names (lines 445-446): both
        children get n's own list. */
    method Children(n: nat, goal: nat, ghost names: set<Att>)
      requires Valid() && n < |nodes| && goal < |nodes| && n != goal && NodeOk(nodes, n) && Within(names)
      modifies this
      decreases |nodes| - n, 0
      ensures Valid() && Within(names)
      ensures forall k :: 0 <= k < n && k != goal ==>
        pairs[k] == old(pairs[k]) && lpairs[k] == old(lpairs[k]) && refctr[k] == old(refctr[k])
      ensures pairs[n] == old(pairs[n]) && lpairs[n] == old(lpairs[n]) && refctr[n] == old(refctr[n])
      ensures old(pairs[goal]) <= pairs[goal]
      ensures nodes[n].left.Some? ==> old(log) + [HandOver(nodes[n].left.value, old(pairs[n]))] <= log
      ensures nodes[n].left.None? && nodes[n].right.Some? ==> old(log) + [HandOver(nodes[n].right.value, old(pairs[n]))] <= log
      ensures nodes[n].left.Some? && nodes[n].right.Some? ==>
        exists m :: |old(log)| < m < |log| && log[m] == HandOver(nodes[n].right.value, old(pairs[n]))
      ensures nodes[n].left.None? && nodes[n].right.None? ==>
        log == old(log) && pairs == old(pairs) && lpairs == old(lpairs) && refctr == old(refctr)
    {
      var nd := nodes[n];
      ghost var log0 := log;
      if nd.left.Some? {
        MapNames(nd.left.value, goal, pairs[n], names);
      }
      ghost var log1 := log;
      if nd.right.Some? {
        MapNames(nd.right.value, goal, pairs[n], names);
        assert log[|log1|] == HandOver(nd.right.value, old(pairs[n]));
      }
    }

    /** The projection case of map_names (lines 154-182): the renamed pairs
        are appended to the hand-over list, which the child then gets. */
    method ProjectChild(n: nat, goal: nat, items: seq<ProjItem>, ghost names: set<Att>)
      requires Valid() && n < |nodes| && goal < |nodes| && n != goal && Within(names)
      requires nodes[n].kind == Project(items) && NodeOk(nodes, n)
      modifies this
      decreases |nodes| - n, 0
      ensures Valid() && Within(names)
      ensures forall k :: 0 <= k < n && k != goal ==>
        pairs[k] == old(pairs[k]) && lpairs[k] == old(lpairs[k]) && refctr[k] == old(refctr[k])
      ensures pairs[n] == old(pairs[n]) && refctr[n] == old(refctr[n]) && old(pairs[goal]) <= pairs[goal]
      ensures lpairs[n] == old(lpairs[n]) + ProjectPairs(old(pairs[n]), items)
      ensures old(log) + [HandOver(nodes[n].left.value, old(lpairs[n]) + ProjectPairs(old(pairs[n]), items))] <= log
    {
      SettledOris(nodes[n].kind, pairs[n], lpairs[n], names);
      var lp := ProjectLoop(pairs[n], items);
      lpairs := lpairs[n := lpairs[n] + lp];
      MapNames(nodes[n].left.value, goal, lpairs[n], names);
    }

    /** The trace cases of map_names (lines 403-410): the left child gets
        the node's list, which is then emptied before the right child gets
        it. */
    method TraceChildren(n: nat, goal: nat, ghost names: set<Att>)
      requires Valid() && n < |nodes| && goal < |nodes| && n != goal && Within(names)
      requires nodes[n].kind.Trace? && NodeOk(nodes, n)
      modifies this
      decreases |nodes| - n, 0
      ensures Valid() && Within(names)
      ensures forall k :: 0 <= k < n && k != goal ==>
        pairs[k] == old(pairs[k]) && lpairs[k] == old(lpairs[k]) && refctr[k] == old(refctr[k])
      ensures pairs[n] == [] && lpairs[n] == old(lpairs[n]) && refctr[n] == old(refctr[n])
      ensures old(pairs[goal]) <= pairs[goal]
      ensures old(log) + [HandOver(nodes[n].left.value, old(pairs[n]))] <= log
      ensures exists m :: |old(log)| < m < |log| && log[m] == HandOver(nodes[n].right.value, [])
    {
      var l, r := nodes[n].left.value, nodes[n].right.value;
      MapNames(l, goal, pairs[n], names);
      pairs := pairs[n := []];
      ghost var log1 := log;
      MapNames(r, goal, pairs[n], names);
      assert log[|log1|] == HandOver(r, []);
    }

    /**
     * The join cases of map_names (lines 184-248) on a processed node n:
     * the left child gets the routed list, then the right child gets the
     * routed list (for a semijoin on att2, only the pair for att2), and
     * the hand-over list is emptied after each.
     */
    method JoinChildren(n: nat, goal: nat, semi: Option<Att>, ghost names: set<Att>)
      requires Valid() && n < |nodes| && goal < |nodes| && n != goal && Within(names)
      requires nodes[n].left.Some? && nodes[n].right.Some? && NodeOk(nodes, n)
      modifies this
      decreases |nodes| - n, 1
      ensures Valid() && Within(names)
      ensures forall k :: 0 <= k < n && k != goal ==>
        pairs[k] == old(pairs[k]) && lpairs[k] == old(lpairs[k]) && refctr[k] == old(refctr[k])
      ensures pairs[n] == old(pairs[n]) && lpairs[n] == [] && refctr[n] == old(refctr[n])
      ensures old(pairs[goal]) <= pairs[goal]
      ensures old(log) + [HandOver(nodes[n].left.value, old(lpairs[n]) + RoutePairs(old(pairs[n]), nodes[nodes[n].left.value].schema))] <= log
      ensures exists m :: && |old(log)| < m < |log|
                          && log[m] == HandOver(nodes[n].right.value,
                                                if semi.Some? then SemiPairs(old(pairs[n]), semi.value)
                                                else RoutePairs(old(pairs[n]), nodes[nodes[n].right.value].schema))
    {
      var l, r := nodes[n].left.value, nodes[n].right.value;
      HandOverOris(pairs[n], nodes[l].schema, if semi.Some? then semi.value else NULL, names);
      HandOverOris(pairs[n], nodes[r].schema, if semi.Some? then semi.value else NULL, names);
      var lp := RouteLoop(pairs[n], nodes[l].schema);
      HandTo(n, l, goal, lp, names);
      var rp;
      if semi.Some? {
        rp := SemiLoop(pairs[n], semi.value);
      } else {
        rp := RouteLoop(pairs[n], nodes[r].schema);
      }
      ghost var log1 := log;
      HandTo(n, r, goal, rp, names);
      assert log[|log1|] == HandOver(r, rp);
    }

    /** One child call of the join cases (lines 191-213 and 214-246):
        append list to n's hand-over list, call the child with it, then
        empty the hand-over list. */
    method HandTo(n: nat, child: nat, goal: nat, list: seq<NamePair>, ghost names: set<Att>)
      requires Valid() && n < child < |nodes| && goal < |nodes| && n != goal && Within(names) && OrisIn(list, names)
      modifies this
      decreases |nodes| - n, 0
      ensures Valid() && Within(names)
      ensures forall k :: 0 <= k < n && k != goal ==>
        pairs[k] == old(pairs[k]) && lpairs[k] == old(lpairs[k]) && refctr[k] == old(refctr[k])
      ensures pairs[n] == old(pairs[n]) && lpairs[n] == [] && refctr[n] == old(refctr[n])
      ensures old(pairs[goal]) <= pairs[goal]
      ensures old(log) + [HandOver(child, old(lpairs[n]) + list)] <= log
    {
      lpairs := lpairs[n := lpairs[n] + list];
      MapNames(child, goal, lpairs[n], names);
      lpairs := lpairs[n := []];
    }

    /**
     * PFprop_trace_names (lines 486-556): reset every list, start from one
     * pair (a, a) per requested name, collect the goal's list, prune it
     * and report for each requested name its traced current name, NULL
     * when the pairs for it conflict or none reached the goal. collected
     * is the goal's list before pruning: only requested names are
     * original names in it.
     */
    method Trace(start: nat, goal: nat, list: seq<Att>, refs: seq<int>)
      returns (out: seq<Att>, ghost collected: seq<NamePair>)
      requires Valid() && start < |nodes| && goal < |nodes| && |refs| == |nodes|
      modifies this
      ensures Valid() && |out| == |list|
      ensures forall p :: p in collected ==> p.ori in list
      ensures Distinct(pairs[goal])
      ensures forall o :: HasOri(pairs[goal], o) <==> HasOri(collected, o)
      ensures forall a :: 0 <= a < |pairs[goal]| ==> pairs[goal][a].cur == Merged(collected, pairs[goal][a].ori)
      ensures forall i, a :: 0 <= i < |list| && 0 <= a < |pairs[goal]| && pairs[goal][a].ori == list[i] ==>
                out[i] == pairs[goal][a].cur
      ensures forall i :: 0 <= i < |list| && !HasOri(pairs[goal], list[i]) ==> out[i] == NULL
      ensures forall i :: 0 <= i < |list| ==> out[i] == Resolve(collected, list[i])
      ensures start == goal && nodes[goal].kind != Fragment(false) ==> out == list
    {
      ghost var names := set a | a in list;
      refctr := refs;
      pairs := seq(|nodes|, _ => []);
      lpairs := seq(|nodes|, _ => []);
      var mapList := InitPairs(list);
      assert OrisIn(mapList, names) by {
        forall p | p in mapList ensures p.ori in names {
          var i :| 0 <= i < |mapList| && mapList[i] == p;
        }
      }
      MapNames(start, goal, mapList, names);
      assert OrisIn(pairs[goal], names);
      if start == goal && nodes[goal].kind != Fragment(false) {
        assert pairs[goal] == InitPairs(list);
        forall i | 0 <= i < |list|
          ensures Resolve(pairs[goal], list[i]) == list[i]
        {
          ResolveInit(list, i);
        }
      }
      out, collected := Report(goal, list);
    }

    /** The end of PFprop_trace_names (lines 516-553): prune the goal's
        collected list in place, then read each requested name from it. */
    method Report(goal: nat, list: seq<Att>) returns (out: seq<Att>, ghost collected: seq<NamePair>)
      requires Valid() && goal < |nodes|
      modifies this
      ensures Valid() && |out| == |list| && collected == old(pairs[goal])
      ensures pairs == old(pairs)[goal := pairs[goal]] && lpairs == old(lpairs) && refctr == old(refctr)
      ensures Distinct(pairs[goal])
      ensures forall o :: HasOri(pairs[goal], o) <==> HasOri(collected, o)
      ensures forall a :: 0 <= a < |pairs[goal]| ==> pairs[goal][a].cur == Merged(collected, pairs[goal][a].ori)
      ensures forall i, a :: 0 <= i < |list| && 0 <= a < |pairs[goal]| && pairs[goal][a].ori == list[i] ==>
                out[i] == pairs[goal][a].cur
      ensures forall i :: 0 <= i < |list| && !HasOri(pairs[goal], list[i]) ==> out[i] == NULL
      ensures forall i :: 0 <= i < |list| ==> out[i] == Resolve(collected, list[i])
    {
      collected := pairs[goal];
      var pruned := Prune(pairs[goal]);
      pairs := pairs[goal := pruned];
      out := Fill(pruned, list, collected);
    }
  }
}
