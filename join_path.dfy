/**
 * The MAL entry point algebra.joinPath (ALGjoinPath in
 * MonetDB5/optimizer/opt_joinpath.c): fix a descriptor for every argument,
 * check that consecutive operands chain (tail type of one = head type of
 * the next, void and oid being interchangeable), run the executor and map
 * its outcome to a MAL result or exception.
 */
module JoinEntry {
  import opened Util
  import opened Mal
  import opened JoinCost
  import opened PathRun
  import opened JoinExec

  /** The exceptions thrown: SEMANTIC_TYPE_MISMATCH, INTERNAL_BAT_ACCESS and
      INTERNAL_OBJ_CREATE. */
  datatype PathError = TypeMismatch | BatAccess | ObjCreate

  /** BATdescriptor: the BAT a stack entry names, with a fixed reference, or
      nothing when it cannot be accessed. */
  type Descriptor = int -> Option<Bat>

  /** An operand with tail type t may be followed by one with head type h
      (lines 551-553). */
  predicate Chains(t: Atom, h: Atom)
  {
    t == h || (t == Void && h == Oid) || (t == Oid && h == Void)
  }

  /** The kernel flag chosen from the function name (line 570). */
  function KindOf(fcn: FcnId): (k: PathKind)
    ensures k == InnerPath <==> fcn == JoinPath
    ensures k == LeftPath <==> fcn == LeftJoinPath
    ensures k == SemiPath <==> fcn != JoinPath && fcn != LeftJoinPath
  {
    if fcn == JoinPath then InnerPath
    else if fcn == LeftJoinPath then LeftPath
    else SemiPath
  }

  /**
   * The argument loop of lines 547-565: either every argument is fixed and
   * chains, or the loop stops at the first argument whose descriptor is
   * missing or whose head does not chain; `dropped` is the descriptor
   * fixed for a mismatching argument.
   */
  datatype Scan =
    | Fixed(handles: seq<Bat>)
    | Stopped(handles: seq<Bat>, error: PathError, dropped: Option<Bat>)

  function ScanArgs(bids: seq<int>, descriptor: Descriptor): (s: Scan)
    ensures s.Fixed? ==> |s.handles| == |bids|
    ensures s.Stopped? ==> && |s.handles| < |bids| && s.error != ObjCreate
                           && (s.dropped.Some? <==> s.error == TypeMismatch)
    decreases |bids|
  {
    if |bids| == 0 then Fixed([])
    else
      match ScanArgs(bids[..|bids| - 1], descriptor)
      case Stopped(hs, e, d) => Stopped(hs, e, d)
      case Fixed(hs) =>
        match descriptor(bids[|bids| - 1])
        case None => Stopped(hs, BatAccess, None)
        case Some(b) =>
          if |hs| > 0 && !Chains(hs[|hs| - 1].ttype, b.htype) then Stopped(hs, TypeMismatch, Some(b))
          else Fixed(hs + [b])
  }

  /** hs are the descriptors of bids, in order. */
  ghost predicate Describes(bids: seq<int>, descriptor: Descriptor, hs: seq<Bat>)
  {
    |hs| == |bids| && forall i :: 0 <= i < |bids| ==> descriptor(bids[i]) == Some(hs[i])
  }

  /** Every operand chains into the next. */
  predicate Chained(hs: seq<Bat>)
  {
    forall i :: 0 <= i < |hs| - 1 ==> Chains(hs[i].ttype, hs[i + 1].htype)
  }

  /** The loop accepts exactly the argument lists whose descriptors all
      exist and chain. */
  lemma {:induction false} ScanFixedIff(bids: seq<int>, descriptor: Descriptor, hs: seq<Bat>)
    ensures ScanArgs(bids, descriptor) == Fixed(hs) <==> Describes(bids, descriptor, hs) && Chained(hs)
    decreases |bids|
  {
    if |bids| > 0 {
      var init := bids[..|bids| - 1];
      if |hs| > 0 {
        ScanFixedIff(init, descriptor, hs[..|hs| - 1]);
        assert hs == hs[..|hs| - 1] + [hs[|hs| - 1]];
        if Describes(bids, descriptor, hs) {
          assert Describes(init, descriptor, hs[..|hs| - 1]);
        }
      } else {
        match ScanArgs(init, descriptor)
        case Stopped(_, _, _) =>
        case Fixed(hs0) =>
      }
    }
  }

  /** A stopped loop has fixed and checked a proper prefix and stopped at
      the next argument, for the reason it reports. */
  lemma {:induction false} ScanStopped(bids: seq<int>, descriptor: Descriptor)
    requires ScanArgs(bids, descriptor).Stopped?
    ensures var s := ScanArgs(bids, descriptor); var k := |s.handles|;
      && Describes(bids[..k], descriptor, s.handles) && Chained(s.handles)
      && (s.error == BatAccess ==> descriptor(bids[k]).None?)
      && (s.error == TypeMismatch ==> && k > 0 && descriptor(bids[k]) == s.dropped
                                      && !Chains(s.handles[k - 1].ttype, s.dropped.value.htype))
    decreases |bids|
  {
    var init := bids[..|bids| - 1];
    var s0 := ScanArgs(init, descriptor);
    if s0.Stopped? {
      ScanStopped(init, descriptor);
      assert bids[..|s0.handles|] == init[..|s0.handles|];
    } else {
      ScanFixedIff(init, descriptor, s0.handles);
      assert bids[..|s0.handles|] == init;
    }
  }

  /** What the entry point delivers: its result, the descriptors it fixed,
      the references it gave up in order and the BATs the kernels built. */
  datatype Entry = Entry(res: Result<Bat, PathError>, fixed: seq<Bat>, released: seq<Bat>, created: seq<Bat>)

  function OptionSeq(o: Option<Bat>): (s: seq<Bat>)
    ensures |s| <= 1 && (o.Some? ==> s == [o.value])
  {
    if o.Some? then [o.value] else []
  }

  /** The outcome of a run that gets past the argument loop (lines 570-576). */
  function Finish(hs: seq<Bat>, fcn: FcnId, kernel: Kernel): (e: Entry)
    requires |hs| >= 1
  {
    var r := JoinPathRun(hs, KindOf(fcn), kernel);
    Entry(if r.res.Some? then Success(r.res.value) else Failure(ObjCreate), hs, r.released, r.created)
  }

  /** ALGjoinPath as written: on a type mismatch the descriptor just fixed
      is dropped without being released. */
  function EntryAsWritten(bids: seq<int>, descriptor: Descriptor, fcn: FcnId, kernel: Kernel): Entry
    requires |bids| >= 1
  {
    match ScanArgs(bids, descriptor)
    case Stopped(hs, err, d) => Entry(Failure(err), hs + OptionSeq(d), Reversed(hs), [])
    case Fixed(hs) => Finish(hs, fcn, kernel)
  }

  /** ALGjoinPath with the mismatching descriptor released before the
      others. */
  function EntryCorrected(bids: seq<int>, descriptor: Descriptor, fcn: FcnId, kernel: Kernel): Entry
    requires |bids| >= 1
  {
    match ScanArgs(bids, descriptor)
    case Stopped(hs, err, d) => Entry(Failure(err), hs + OptionSeq(d), OptionSeq(d) + Reversed(hs), [])
    case Fixed(hs) => Finish(hs, fcn, kernel)
  }

  /** The reference handed to the caller by BBPkeepref, if any. */
  function Kept(r: Result<Bat, PathError>): (s: seq<Bat>)
    ensures |s| <= 1 && (r.Success? ==> s == [r.value]) && (r.Failure? ==> s == [])
  {
    if r.Success? then [r.value] else []
  }

  /** Every reference fixed or created is released or handed to the caller. */
  ghost predicate Balanced(e: Entry)
  {
    multiset(e.fixed) + multiset(e.created) == multiset(e.released) + multiset(Kept(e.res))
  }

  /** The two versions differ exactly on a type mismatch. */
  lemma EntryAgrees(bids: seq<int>, descriptor: Descriptor, fcn: FcnId, kernel: Kernel)
    requires |bids| >= 1
    ensures EntryAsWritten(bids, descriptor, fcn, kernel) == EntryCorrected(bids, descriptor, fcn, kernel)
            <==> !(ScanArgs(bids, descriptor).Stopped? && ScanArgs(bids, descriptor).error == TypeMismatch)
  {
    var s := ScanArgs(bids, descriptor);
    var w, c := EntryAsWritten(bids, descriptor, fcn, kernel), EntryCorrected(bids, descriptor, fcn, kernel);
    if s.Stopped? {
      assert w.released == Reversed(s.handles) && c.released == OptionSeq(s.dropped) + Reversed(s.handles);
      assert w.res == c.res && w.fixed == c.fixed && w.created == c.created;
      assert s.dropped.Some? <==> s.error == TypeMismatch;
    }
  }

  /** The corrected entry point keeps every reference balanced; an error
      other than ObjCreate comes from the argument loop, with no kernel run. */
  lemma EntryBalanced(bids: seq<int>, descriptor: Descriptor, fcn: FcnId, kernel: Kernel)
    requires |bids| >= 1
    ensures var e := EntryCorrected(bids, descriptor, fcn, kernel);
      && Balanced(e)
      && (e.res.Failure? && e.res.error != ObjCreate <==> ScanArgs(bids, descriptor).Stopped?)
  {
    match ScanArgs(bids, descriptor)
    case Stopped(hs, err, d) =>
      ReversedElements(hs);
    case Fixed(hs) =>
      RunConserves(hs, KindOf(fcn), kernel);
  }

  /** As written, every type mismatch leaks exactly the descriptor fixed for
      the mismatching argument. */
  lemma MismatchLeaks(bids: seq<int>, descriptor: Descriptor, fcn: FcnId, kernel: Kernel)
    requires |bids| >= 1
    requires ScanArgs(bids, descriptor).Stopped? && ScanArgs(bids, descriptor).error == TypeMismatch
    ensures var e := EntryAsWritten(bids, descriptor, fcn, kernel);
      && !Balanced(e)
      && multiset(e.fixed) == multiset(e.released) + multiset{ScanArgs(bids, descriptor).dropped.value}
  {
    var s := ScanArgs(bids, descriptor);
    var hs, d := s.handles, s.dropped.value;
    var e := EntryAsWritten(bids, descriptor, fcn, kernel);
    assert e == Entry(Failure(TypeMismatch), hs + [d], Reversed(hs), []);
    ReversedElements(hs);
    assert multiset(hs + [d]) == multiset(hs) + multiset{d};
    assert multiset(e.fixed)[d] == multiset(e.released)[d] + 1;
    assert e.created == [] && Kept(e.res) == [];
    assert (multiset(e.fixed) + multiset(e.created))[d] != (multiset(e.released) + multiset(Kept(e.res)))[d];
  }

  /** A concrete mismatch: an oid-tailed operand followed by one whose head
      is neither oid nor void. */
  lemma MismatchExample(kernel: Kernel)
    ensures var a := Bat(1, 0, Void, Oid, false, false, false, false, false, false);
      var b := Bat(2, 0, OtherAtom(7), Oid, false, false, false, false, false, false);
      var descriptor: Descriptor := x => if x == 1 then Some(a) else Some(b);
      && ScanArgs([1, 2], descriptor) == Stopped([a], TypeMismatch, Some(b))
      && !Balanced(EntryAsWritten([1, 2], descriptor, JoinPath, kernel))
  {
    var a := Bat(1, 0, Void, Oid, false, false, false, false, false, false);
    var b := Bat(2, 0, OtherAtom(7), Oid, false, false, false, false, false, false);
    var descriptor: Descriptor := x => if x == 1 then Some(a) else Some(b);
    assert [1, 2][..1] == [1];
    assert [1][..0] == [];
    assert ScanArgs([1], descriptor) == Fixed([a]);
    MismatchLeaks([1, 2], descriptor, JoinPath, kernel);
  }

  /**
   * The argument loop of lines 547-565 with the leak corrected: fix the
   * arguments one by one into a fresh `joins`, stop at the first missing
   * or mismatching one giving back every reference fixed.
   */
  method FixArgs(bids: seq<int>, descriptor: Descriptor)
    returns (joins: array<Bat>, error: Option<PathError>, fixed: seq<Bat>, released: seq<Bat>)
    ensures fresh(joins) && joins.Length == |bids|
    ensures match ScanArgs(bids, descriptor)
      case Fixed(hs) => error == None && fixed == hs == joins[..] && released == []
      case Stopped(hs, err, d) => error == Some(err) && fixed == hs + OptionSeq(d) && released == OptionSeq(d) + Reversed(hs)
  {
    joins := new Bat[|bids|];
    var top := 0;
    fixed, released := [], [];
    while top < |bids|
      invariant 0 <= top <= |bids| && released == []
      invariant ScanArgs(bids[..top], descriptor) == Fixed(joins[..top]) && fixed == joins[..top]
    {
      var b := descriptor(bids[top]);
      ScanNext(bids, descriptor, top, joins[..top]);
      var mismatch := false;
      if b.Some? {
        fixed := fixed + [b.value];
        if top > 0 && !Chains(joins[top - 1].ttype, b.value.htype) {
          released := [b.value];
          b := None;
          mismatch := true;
        }
      }
      if b.None? {
        var rel := ReleaseAll(joins, top);
        ScanPrefix(bids, descriptor, top + 1);
        return joins, Some(if mismatch then TypeMismatch else BatAccess), fixed, released + rel;
      }
      joins[top] := b.value;
      top := top + 1;
      assert fixed == joins[..top];
    }
    assert bids[..top] == bids;
    error := None;
  }

  /**
   * ALGjoinPath (lines 535-577) with the leak corrected: fix the arguments,
   * run the executor on them and report a missing result as ObjCreate.
   */
  method JoinPathEntry(bids: seq<int>, descriptor: Descriptor, fcn: FcnId, kernel: Kernel)
    returns (r: Result<Bat, PathError>, fixed: seq<Bat>, released: seq<Bat>, ghost created: seq<Bat>)
    requires |bids| >= 1
    ensures r == EntryCorrected(bids, descriptor, fcn, kernel).res
    ensures fixed == EntryCorrected(bids, descriptor, fcn, kernel).fixed
    ensures released == EntryCorrected(bids, descriptor, fcn, kernel).released
    ensures created == EntryCorrected(bids, descriptor, fcn, kernel).created
  {
    ghost var scan := ScanArgs(bids, descriptor);
    var joins, error;
    joins, error, fixed, released := FixArgs(bids, descriptor);
    created := [];
    if error.Some? {
      assert scan.Stopped?;
      return Failure(error.value), fixed, released, created;
    }
    assert scan.Fixed? && joins[..joins.Length] == scan.handles;
    assert EntryCorrected(bids, descriptor, fcn, kernel) == Finish(scan.handles, fcn, kernel);
    var res, calls, failures;
    res, released, created, calls, failures := JoinPathBody(joins, joins.Length, KindOf(fcn), kernel);
    if res.None? {
      return Failure(ObjCreate), fixed, released, created;
    }
    r := Success(res.value);
  }

  /** One more argument scanned after a prefix that was all fixed. */
  lemma ScanNext(bids: seq<int>, descriptor: Descriptor, top: nat, hs: seq<Bat>)
    requires top < |bids| && ScanArgs(bids[..top], descriptor) == Fixed(hs)
    ensures ScanArgs(bids[..top + 1], descriptor) ==
      match descriptor(bids[top])
      case None => Stopped(hs, BatAccess, None)
      case Some(b) =>
        if |hs| > 0 && !Chains(hs[|hs| - 1].ttype, b.htype) then Stopped(hs, TypeMismatch, Some(b))
        else Fixed(hs + [b])
  {
    assert bids[..top + 1][..top] == bids[..top];
  }

  /** Once the loop stops on a prefix, it has stopped on the whole list. */
  lemma {:induction false} ScanPrefix(bids: seq<int>, descriptor: Descriptor, k: nat)
    requires k <= |bids| && ScanArgs(bids[..k], descriptor).Stopped?
    ensures ScanArgs(bids, descriptor) == ScanArgs(bids[..k], descriptor)
    decreases |bids| - k
  {
    if k < |bids| {
      assert bids[..k + 1][..k] == bids[..k];
      ScanPrefix(bids, descriptor, k + 1);
    } else {
      assert bids[..k] == bids;
    }
  }
}
