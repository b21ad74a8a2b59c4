/**
 * The join cost heuristic of the join-path executor (ALGjoinCost in
 * MonetDB5/optimizer/opt_joinpath.c). A cost is a BUN, an unsigned
 * machine integer; counts of a BAT never exceed BUN_MAX.
 */
module JoinCost {
  import opened Util
  import opened Mal

  /** The 64-bit build's largest BUN value that marks "none", and the
      largest allowed BAT size (both defined in gdk.h). */
  const BUN_NONE: nat := 0x7FFF_FFFF_FFFF_FFFF
  const BUN_MAX: nat := BUN_NONE - 1
  /** Unsigned BUN arithmetic works modulo 2^64 on a 64-bit build. */
  const BUN_MODULUS: nat := 0x1_0000_0000_0000_0000

  /** Operands of at most this many elements are taken to fit the cache. */
  const SMALL_OPERAND: nat := 1024

  type Count = c: nat | c <= BUN_MAX

  /**
   * The descriptor of a BAT operand: its identity, cardinality, head and
   * tail types, and the physical and logical properties the cost model
   * consults (key = unique, dense = void with a sequence base, ordered =
   * sorted).
   */
  datatype Bat = Bat(
    id: nat,
    count: Count,
    htype: Atom, ttype: Atom,
    hkey: bool, tkey: bool,
    hdense: bool, tdense: bool,
    hordered: bool, tordered: bool)

  /** The kind of a join path: flag 0 (leftjoin), 1 (join), 2 (semijoin). */
  datatype PathKind = LeftPath | InnerPath | SemiPath

  function Flag(k: PathKind): (f: nat)
    ensures f <= 2
    ensures f == 0 <==> k == LeftPath
  {
    match k
    case LeftPath => 0
    case InnerPath => 1
    case SemiPath => 2
  }

  /**
   * Upper bound of the join result size from the key properties
   * (lines 352-364): a unique left tail or unique right head bounds the
   * result by the other operand; otherwise the product, capped at BUN_MAX.
   */
  function BaseCost(l: Bat, r: Bat): (c: nat)
    ensures c <= BUN_MAX
    ensures l.tkey ==> c <= r.count
    ensures r.hkey ==> c <= l.count
    ensures !l.tkey && !r.hkey ==> c == Min(l.count * r.count, BUN_MAX)
  {
    if l.tkey && r.hkey then Min(l.count, r.count)
    else if l.tkey then r.count
    else if r.hkey then l.count
    else if l.count * r.count >= BUN_MAX then BUN_MAX
    else l.count * r.count
  }

  /**
   * The one divisor applied to the base cost, chosen by the first
   * matching rule of lines 367-421. Rules guarded by `flag != 0` would
   * reorder the left operand and are skipped for a left join path.
   */
  function Divisor(l: Bat, r: Bat, kind: PathKind): (d: nat)
    ensures 1 <= d <= 7
  {
    if l.tdense && r.hdense then 7
    else if l.tordered && r.hdense then 6
    else if l.tdense && r.hordered && Flag(kind) != 0 then 6
    else if r.hdense && r.count <= SMALL_OPERAND then 5
    else if l.tdense && l.count <= SMALL_OPERAND && Flag(kind) != 0 then 5
    else if l.tordered && r.hordered then 4
    else if r.hordered && r.count <= SMALL_OPERAND then 3
    else if l.tordered && l.count <= SMALL_OPERAND && Flag(kind) != 0 then 3
    else if (r.hordered && l.count <= SMALL_OPERAND) || (l.tordered && r.count <= SMALL_OPERAND) then 3
    else if r.count <= SMALL_OPERAND then 3
    else if l.count <= SMALL_OPERAND && Flag(kind) != 0 then 3
    else if r.hdense then 2
    else if l.tdense && Flag(kind) != 0 then 2
    else 1
  }

  /** ALGjoinCost: the base estimate divided by the chosen divisor. */
  function Cost(l: Bat, r: Bat, kind: PathKind): (c: nat)
    ensures c <= BaseCost(l, r)
    ensures c <= BUN_MAX
  {
    BaseCost(l, r) / Divisor(l, r, kind)
  }

  /** l2 is l with only its count changed. */
  predicate SameButCount(l: Bat, l2: Bat)
  {
    l2 == l.(count := l2.count)
  }

  /** Growing the left count only switches the divisor chain to a later,
      never larger, divisor: every left-count test is of the form lc <= 1024. */
  lemma DivisorAntitoneInLeftCount(l: Bat, l2: Bat, r: Bat, kind: PathKind)
    requires SameButCount(l, l2) && l.count <= l2.count
    ensures Divisor(l2, r, kind) <= Divisor(l, r, kind)
  {
  }

  lemma {:induction false} BaseCostMonotoneInLeftCount(l: Bat, l2: Bat, r: Bat)
    requires SameButCount(l, l2) && l.count <= l2.count
    ensures BaseCost(l, r) <= BaseCost(l2, r)
  {
    if !l.tkey && !r.hkey {
      assert l.count * r.count <= l2.count * r.count by {
        MulMonotone(l.count, l2.count, r.count);
      }
    }
  }

  lemma MulMonotone(a: nat, b: nat, c: nat)
    requires a <= b
    ensures a * c <= b * c
  {
  }

  /** Integer division is monotone in the dividend and antitone in the divisor. */
  lemma {:induction false} DivMonotone(x: nat, y: nat, d: nat, e: nat)
    requires x <= y && 1 <= e <= d
    ensures x / d <= y / e
  {
    var q := x / d;
    assert q * d <= x;
    assert q * e <= q * d by { MulMonotone(e, d, q); }
    assert q * e <= y;
    DivLowerBound(y, e, q);
  }

  lemma DivLowerBound(y: nat, e: nat, q: nat)
    requires e >= 1 && q * e <= y
    ensures q <= y / e
  {
    var r := y / e;
    assert y == r * e + y % e;
    assert (r + 1) * e == r * e + e;
    if q > r {
      MulMonotone(r + 1, q, e);
      assert false;
    }
  }

  /** With the right operand and all flags fixed, the cost never decreases
      when the left operand grows. */
  lemma {:induction false} CostMonotoneInLeftCount(l: Bat, l2: Bat, r: Bat, kind: PathKind)
    requires SameButCount(l, l2) && l.count <= l2.count
    ensures Cost(l, r, kind) <= Cost(l2, r, kind)
  {
    BaseCostMonotoneInLeftCount(l, l2, r);
    DivisorAntitoneInLeftCount(l, l2, r, kind);
    DivMonotone(BaseCost(l, r), BaseCost(l2, r), Divisor(l, r, kind), Divisor(l2, r, kind));
  }

  /** A divisor rule: when the condition holds, the divisor applies. */
  datatype Rule = Rule(cond: bool, div: nat)

  /** The divisor of the first rule whose condition holds, 1 if none does. */
  function FirstMatch(rules: seq<Rule>): (d: nat)
    ensures (forall i :: 0 <= i < |rules| ==> !rules[i].cond) ==> d == 1
    ensures forall i :: 0 <= i < |rules| && rules[i].cond && (forall k :: 0 <= k < i ==> !rules[k].cond) ==> d == rules[i].div
  {
    if |rules| == 0 then 1
    else if rules[0].cond then rules[0].div
    else FirstMatch(rules[1..])
  }

  /** The nine rules of lines 367-421 that carry no `flag != 0` guard, in
      source order. */
  function UnguardedRules(l: Bat, r: Bat): (rules: seq<Rule>)
    ensures |rules| == 9
  {
    [ Rule(l.tdense && r.hdense, 7),
      Rule(l.tordered && r.hdense, 6),
      Rule(r.hdense && r.count <= SMALL_OPERAND, 5),
      Rule(l.tordered && r.hordered, 4),
      Rule(r.hordered && r.count <= SMALL_OPERAND, 3),
      Rule((r.hordered && l.count <= SMALL_OPERAND) || (l.tordered && r.count <= SMALL_OPERAND), 3),
      Rule(r.count <= SMALL_OPERAND, 3),
      Rule(r.hdense, 2),
      Rule(true, 1) ]
  }

  /** For a left join path the divisor is chosen as if the rules guarded by
      `flag != 0` were absent: by the first of the unguarded rules that holds. */
  lemma LeftPathUnguarded(l: Bat, r: Bat)
    ensures Divisor(l, r, LeftPath) == FirstMatch(UnguardedRules(l, r))
  {
    var rules := UnguardedRules(l, r);
    FirstHolding(rules);
    var i :| 0 <= i < |rules| && rules[i].cond && (forall k :: 0 <= k < i ==> !rules[k].cond);
    assert FirstMatch(rules) == rules[i].div;
    assert Flag(LeftPath) == 0;
    if i == 0 {
    } else if i == 1 {
      assert !rules[0].cond;
    } else if i == 2 {
      assert !rules[0].cond && !rules[1].cond;
    } else if i == 3 {
      assert !rules[0].cond && !rules[1].cond && !rules[2].cond;
    } else {
      assert !rules[0].cond && !rules[1].cond && !rules[2].cond && !rules[3].cond;
      assert 4 <= i && (i > 4 ==> !rules[4].cond) && (i > 5 ==> !rules[5].cond);
      assert (i > 6 ==> !rules[6].cond) && (i > 7 ==> !rules[7].cond);
    }
  }

  /** A rule list ending in an unconditional rule has a first rule that holds. */
  lemma FirstHolding(rules: seq<Rule>)
    requires |rules| > 0 && rules[|rules| - 1].cond
    ensures exists i :: 0 <= i < |rules| && rules[i].cond && (forall k :: 0 <= k < i ==> !rules[k].cond)
  {
    var i := 0;
    while !rules[i].cond
      invariant 0 <= i < |rules|
      decreases |rules| - i
      invariant forall k :: 0 <= k < i ==> !rules[k].cond
    {
      i := i + 1;
    }
  }

  /** For a left join path no rule that needs the left operand reordered
      fires: an input that would match only those rules gets divisor 1. */
  lemma LeftPathSkipsReorderingRules(l: Bat, r: Bat)
    requires !(l.tdense && r.hdense) && !(l.tordered && r.hdense)
    requires !(r.hdense && r.count <= SMALL_OPERAND) && !(l.tordered && r.hordered)
    requires !(r.hordered && r.count <= SMALL_OPERAND)
    requires !(r.hordered && l.count <= SMALL_OPERAND) && !(l.tordered && r.count <= SMALL_OPERAND)
    requires r.count > SMALL_OPERAND && !r.hdense
    ensures Divisor(l, r, LeftPath) == 1
  {
  }

  // ---------------------------------------------------------------------
  // Finding: the overflow guard of line 361 is computed in BUN arithmetic.
  // ---------------------------------------------------------------------

  /** The base estimate as written: `lc * rc` is an unsigned BUN product,
      which wraps modulo 2^64 before it is compared with BUN_MAX. */
  function BaseCostAsWritten(l: Bat, r: Bat): (c: nat)
    ensures l.tkey || r.hkey ==> c == BaseCost(l, r)
    ensures !l.tkey && !r.hkey ==> c <= BUN_MAX
  {
    if l.tkey && r.hkey then Min(l.count, r.count)
    else if l.tkey then r.count
    else if r.hkey then l.count
    else if (l.count * r.count) % BUN_MODULUS >= BUN_MAX then BUN_MAX
    else (l.count * r.count) % BUN_MODULUS
  }

  /** Two 2^32-element operands without key properties: the wrapped product
      is 0, so the as-written estimate rates their cross product as free,
      while the capped estimate is BUN_MAX. */
  lemma WrappedProductRatesCrossProductFree(l: Bat, r: Bat)
    requires l.count == 0x1_0000_0000 && r.count == 0x1_0000_0000
    requires !l.tkey && !r.hkey
    ensures BaseCostAsWritten(l, r) == 0
    ensures BaseCost(l, r) == BUN_MAX
  {
    assert l.count * r.count == BUN_MODULUS;
  }
}
