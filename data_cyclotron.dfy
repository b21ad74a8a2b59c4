/**
 * The partition registration catalog of the data cyclotron optimizer
 * (MonetDB5/optimizer/opt_datacyclotron.c): a list of entries, one per
 * (schema, table, column, access), each holding the partitions
 * (part id, first BUN, last BUN) registered for it in growable buffers.
 */
module DataCyclotron {
  import opened Util

  /** ASCII case folding, as strcasecmp applies it in the C locale. */
  function Lower(c: char): (d: char)
    ensures 'A' <= c <= 'Z' ==> d as int == c as int + 32
    ensures !('A' <= c <= 'Z') ==> d == c
  {
    if 'A' <= c <= 'Z' then (c as int + 32) as char else c
  }

  predicate SameIgnoringCase(a: string, b: string)
  {
    |a| == |b| && forall i :: 0 <= i < |a| ==> Lower(a[i]) == Lower(b[i])
  }

  /** The identity of a catalog entry. */
  datatype Key = Key(schema: string, table: string, column: string, access: int)

  datatype Part = Part(id: int, fBun: int, lBun: int)

  /**
   * A catalog entry: `partitions` live partitions in buffers of
   * `capacity` slots; `parts` holds the live ones in order.
   */
  datatype Regist = Regist(key: Key, partitions: int, capacity: nat, parts: seq<Part>)

  /** findRegist compares the names ignoring case (strcasecmp), dropRegist
      exactly (strcmp); the access code is compared exactly by both. */
  predicate KeyMatches(r: Regist, k: Key, ignoreCase: bool)
  {
    && r.key.access == k.access
    && (if ignoreCase then
          SameIgnoringCase(r.key.schema, k.schema) && SameIgnoringCase(r.key.table, k.table)
          && SameIgnoringCase(r.key.column, k.column)
        else r.key.schema == k.schema && r.key.table == k.table && r.key.column == k.column)
  }

  /** The list walk of findRegist (lines 147-162) from position i on. */
  function FindFrom(entries: seq<Regist>, k: Key, ignoreCase: bool, i: nat): (f: Option<nat>)
    requires i <= |entries|
    ensures f.Some? ==> && i <= f.value < |entries| && KeyMatches(entries[f.value], k, ignoreCase)
                        && forall j :: i <= j < f.value ==> !KeyMatches(entries[j], k, ignoreCase)
    ensures f.None? ==> forall j :: i <= j < |entries| ==> !KeyMatches(entries[j], k, ignoreCase)
    decreases |entries| - i
  {
    if i == |entries| then None
    else if KeyMatches(entries[i], k, ignoreCase) then Some(i)
    else FindFrom(entries, k, ignoreCase, i + 1)
  }

  /** findRegist: the first entry matching k, or none. */
  function FindRegist(entries: seq<Regist>, k: Key): (f: Option<nat>)
    ensures f.Some? ==> && f.value < |entries| && KeyMatches(entries[f.value], k, true)
                        && forall j :: 0 <= j < f.value ==> !KeyMatches(entries[j], k, true)
    ensures f.None? <==> forall j :: 0 <= j < |entries| ==> !KeyMatches(entries[j], k, true)
  {
    FindFrom(entries, k, true, 0)
  }

  /** The remainder of C's `%` on non-negative operands, by repeated
      subtraction of the divisor. */
  function Rem(a: nat, step: nat): (r: nat)
    requires step >= 1
    ensures r < step && r <= a
    decreases a
  {
    if a < step then a else Rem(a - step, step)
  }

  /** Two multiples of step less than step apart are equal. */
  lemma {:induction false} MultiplesApart(p: nat, c: nat, step: nat)
    requires step >= 1 && Rem(p, step) == 0 && Rem(c, step) == 0 && c < p + step && p <= c
    ensures p == c
    decreases c
  {
    if p >= step {
      MultiplesApart(p - step, c - step, step);
    }
  }

  /** A well-formed entry: the count matches the live partitions and fits
      buffers whose size is a positive multiple of the growth step. */
  predicate RegistValid(r: Regist, step: nat)
    requires step >= 1
  {
    0 <= r.partitions == |r.parts| <= r.capacity && step <= r.capacity && Rem(r.capacity, step) == 0
  }

  /** A freshly registered entry (lines 66-79). */
  function NewRegist(k: Key, step: nat): (r: Regist)
    requires step >= 1
    ensures RegistValid(r, step) && r.key == k && r.parts == []
  {
    assert Rem(step, step) == Rem(0, step);
    Regist(k, 0, step, [])
  }

  /** Appending a partition (lines 81-91): the buffers are resized to
      partitions + step when the count is a positive multiple of step. */
  function AppendPart(r: Regist, p: Part, step: nat): (r': Regist)
    requires step >= 1 && RegistValid(r, step)
    ensures RegistValid(r', step) && r'.key == r.key
    ensures r'.partitions == r.partitions + 1 && r'.parts == r.parts + [p]
    ensures r'.capacity == if r.partitions > 0 && Rem(r.partitions, step) == 0 then r.partitions + step else r.capacity
  {
    var n := r.partitions;
    var cap := if n > 0 && Rem(n, step) == 0 then n + step else r.capacity;
    assert Rem(n + step, step) == Rem(n, step);
    Regist(r.key, n + 1, cap, r.parts + [p])
  }

  /** Buffers that only ever grew: no more than one step of slack, and
      exactly one step while empty. */
  predicate Tight(r: Regist, step: nat)
  {
    if r.partitions == 0 then r.capacity == step else r.capacity < r.partitions + step
  }

  /** On buffers that only ever grew, an append enlarges them by exactly
      one step when the count is a positive multiple of the step (that is,
      when every slot is in use), leaves them alone otherwise, and keeps
      them tight. */
  lemma AppendGrowsWhenFull(r: Regist, p: Part, step: nat)
    requires step >= 1 && RegistValid(r, step) && Tight(r, step)
    ensures var r' := AppendPart(r, p, step);
      && (r'.capacity == r.capacity + step <==> r.partitions > 0 && Rem(r.partitions, step) == 0)
      && (r'.capacity == r.capacity <==> !(r.partitions > 0 && Rem(r.partitions, step) == 0))
      && (r.partitions > 0 && Rem(r.partitions, step) == 0 <==> r.partitions == r.capacity)
      && Tight(r', step)
  {
    var n := r.partitions;
    if n > 0 && Rem(n, step) == 0 {
      MultiplesApart(n, r.capacity, step);
    }
  }

  /** removePartRegist as written (lines 103-110) on a found entry: shift
      the partitions after `part` left and decrement the count, whatever
      `part` and the count are. */
  function RemovePartAsWritten(r: Regist, part: nat): (r': Regist)
  {
    var kept := if part < |r.parts| then r.parts[..part] + r.parts[part + 1..]
                else if |r.parts| > 0 then r.parts[..|r.parts| - 1] else [];
    Regist(r.key, r.partitions - 1, r.capacity, kept)
  }

  /** As written, adding one partition to a new entry and removing
      partition 0 twice drives the count to -1, and an index past the end
      drops the last partition. */
  lemma RemovePartAsWrittenBreaks(step: nat)
    requires step >= 1
    ensures var r := AppendPart(NewRegist(Key("sys", "t", "c", 0), step), Part(7, 0, 9), step);
      && RegistValid(r, step) && RegistValid(RemovePartAsWritten(r, 0), step)
      && RemovePartAsWritten(RemovePartAsWritten(r, 0), 0).partitions == -1
      && !RegistValid(RemovePartAsWritten(RemovePartAsWritten(r, 0), 0), step)
    ensures var r := AppendPart(NewRegist(Key("sys", "t", "c", 0), step), Part(7, 0, 9), step);
      RemovePartAsWritten(r, 5).parts == []
  {
  }

  /** removePartRegist on a found entry with the index checked: a partition
      in range is removed, anything else changes nothing. */
  function RemovePart(r: Regist, part: int): (r': Regist)
    ensures r'.key == r.key && r'.capacity == r.capacity
    ensures r' != r ==> r'.partitions == r.partitions - 1 && 0 <= part < r.partitions
  {
    if 0 <= part < r.partitions && part < |r.parts| then
      Regist(r.key, r.partitions - 1, r.capacity, r.parts[..part] + r.parts[part + 1..])
    else r
  }

  /** Removal keeps an entry well formed, removes exactly the partition at
      `part` and keeps the others in order. */
  lemma RemovePartValid(r: Regist, part: int, step: nat)
    requires step >= 1 && RegistValid(r, step)
    ensures var r' := RemovePart(r, part);
      && RegistValid(r', step) && r'.key == r.key && r'.capacity == r.capacity
      && (0 <= part < r.partitions ==>
            && r'.partitions == r.partitions - 1
            && (forall i :: 0 <= i < part ==> r'.parts[i] == r.parts[i])
            && (forall i :: part <= i < r'.partitions ==> r'.parts[i] == r.parts[i + 1]))
      && (!(0 <= part < r.partitions) ==> r' == r)
  {
  }

  /** check_instr (lines 165-174): 1 when p is among the first `stop`
      statements, 0 otherwise. */
  method CheckInstr<T(==)>(stmt: seq<T>, stop: nat, p: T) returns (found: int)
    requires stop <= |stmt|
    ensures found == 1 <==> p in stmt[..stop]
    ensures found == 0 <==> p !in stmt[..stop]
  {
    var i := 0;
    while i < stop
      invariant 0 <= i <= stop
      invariant p !in stmt[..i]
    {
      if stmt[i] == p {
        return 1;
      }
      assert stmt[..i + 1] == stmt[..i] + [stmt[i]];
      i := i + 1;
    }
    return 0;
  }

  /**
   * The catalog: the global list of entries, most recently registered
   * first, with DCYPARTITIONS as the buffer growth step.
   */
  class Catalog {
    const step: nat
    var entries: seq<Regist>

    ghost predicate Valid()
      reads this
    {
      step >= 1 && forall i :: 0 <= i < |entries| ==> RegistValid(entries[i], step)
    }

    constructor (step: nat)
      requires step >= 1
      ensures Valid() && this.step == step && entries == []
    {
      this.step := step;
      entries := [];
    }

    /** The list walk of findRegist (lines 147-162). */
    method Find(k: Key) returns (f: Option<nat>)
      ensures f == FindRegist(entries, k)
    {
      var i := 0;
      while i < |entries| && !KeyMatches(entries[i], k, true)
        invariant 0 <= i <= |entries|
        invariant FindFrom(entries, k, true, i) == FindRegist(entries, k)
      {
        i := i + 1;
      }
      f := if i < |entries| then Some(i) else None;
    }

    /**
     * addRegist (lines 63-94): find the entry for k or put a new one in
     * front, then append the partition to it; the index of the entry is
     * returned.
     */
    method AddRegist(k: Key, part: int, fBun: int, lBun: int) returns (idx: nat)
      requires Valid()
      modifies this
      ensures Valid()
      ensures match FindRegist(old(entries), k)
        case Some(i) => idx == i && entries == old(entries)[i := AppendPart(old(entries)[i], Part(part, fBun, lBun), step)]
        case None => idx == 0 && entries == [AppendPart(NewRegist(k, step), Part(part, fBun, lBun), step)] + old(entries)
    {
      var f := Find(k);
      if f.None? {
        entries := [NewRegist(k, step)] + entries;
        idx := 0;
      } else {
        idx := f.value;
      }
      var r := entries[idx];
      var cap := r.capacity;
      if r.partitions > 0 && Rem(r.partitions, step) == 0 {
        cap := r.partitions + step;
      }
      entries := entries[idx := Regist(r.key, r.partitions + 1, cap, r.parts + [Part(part, fBun, lBun)])];
    }

    /**
     * removePartRegist (lines 97-113) with the index checked: none when no
     * entry matches k, otherwise the partition at `part` is shifted out of
     * the entry's buffers and the entry's index is returned.
     */
    method RemovePartRegist(k: Key, part: int) returns (idx: Option<nat>)
      requires Valid()
      modifies this
      ensures Valid()
      ensures match FindRegist(old(entries), k)
        case None => idx == None && entries == old(entries)
        case Some(i) => idx == Some(i) && entries == old(entries)[i := RemovePart(old(entries)[i], part)]
    {
      idx := Find(k);
      if idx.None? {
        return;
      }
      var r := entries[idx.value];
      RemovePartValid(r, part, step);
      if !(0 <= part < r.partitions) {
        return;
      }
      var parts := r.parts;
      var i := part;
      while i < r.partitions - 1
        invariant part <= i <= r.partitions - 1 && |parts| == |r.parts|
        invariant forall j :: 0 <= j < part ==> parts[j] == r.parts[j]
        invariant forall j :: part <= j < i ==> parts[j] == r.parts[j + 1]
        invariant forall j :: i < j < |parts| ==> parts[j] == r.parts[j]
      {
        parts := parts[i := parts[i + 1]];
        i := i + 1;
      }
      assert parts[..r.partitions - 1] == r.parts[..part] + r.parts[part + 1..];
      entries := entries[idx.value := Regist(r.key, r.partitions - 1, r.capacity, parts[..r.partitions - 1])];
    }

    /**
     * dropRegist (lines 116-144): unlink the first entry whose names match
     * k exactly. The source dereferences a null entry when none does, so
     * a match is required.
     */
    method DropRegist(k: Key) returns (ret: int)
      requires Valid() && exists i :: 0 <= i < |entries| && KeyMatches(entries[i], k, false)
      modifies this
      ensures Valid() && ret == 1
      ensures var i := FindFrom(old(entries), k, false, 0).value;
        entries == old(entries)[..i] + old(entries)[i + 1..]
    {
      var i := 0;
      while i < |entries| && !KeyMatches(entries[i], k, false)
        invariant 0 <= i <= |entries|
        invariant forall j :: 0 <= j < i ==> !KeyMatches(entries[j], k, false)
      {
        i := i + 1;
      }
      assert FindFrom(entries, k, false, 0) == Some(i);
      entries := entries[..i] + entries[i + 1..];
      ret := 1;
    }
  }

  /** Dropping keeps every other entry, in the same order. */
  lemma DropKeepsOthers(entries: seq<Regist>, i: nat)
    requires i < |entries|
    ensures var e := entries[..i] + entries[i + 1..];
      && |e| == |entries| - 1
      && (forall j :: 0 <= j < i ==> e[j] == entries[j])
      && (forall j :: i <= j < |e| ==> e[j] == entries[j + 1])
  {
  }
}
