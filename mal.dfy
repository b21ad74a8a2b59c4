/**
 * The parts of a MAL program that the join-path optimizer reads and
 * rewrites: instructions with a module and function identity, the
 * result count and the argument vector, and the variable type table.
 */
module Mal {

  /** A variable is an index into the block's variable table. */
  type VarId = nat

  /** Atom types of the head and tail of a BAT variable. */
  datatype Atom = Void | Oid | Any | OtherAtom(code: nat)

  /** Head and tail type of a variable (getHeadType/getTailType). */
  datatype VarType = VarType(head: Atom, tail: Atom)

  datatype ModuleId = Algebra | OtherModule(name: string)

  /** Function identities compared by the optimizer (interned names). */
  datatype FcnId =
    | Join | LeftJoin | SemiJoin
    | JoinPath | LeftJoinPath | SemiJoinPath
    | OtherFcn(name: string)

  /**
   * An instruction: argv[0..retc) are its results, argv[retc..argc) its
   * arguments, argc being |argv|.
   */
  datatype Instr = Instr(modId: ModuleId, fcn: FcnId, retc: nat, argv: seq<VarId>)

  /** A pairwise join instruction that the fusion pass may extend. */
  predicate IsPairJoin(p: Instr)
  {
    p.modId == Algebra && (p.fcn == Join || p.fcn == LeftJoin || p.fcn == SemiJoin)
  }

  /** A join path instruction, recognised by its function identity only. */
  predicate IsPathFcn(f: FcnId)
  {
    f == JoinPath || f == LeftJoinPath || f == SemiJoinPath
  }

  /** The pairwise join belonging to a path kind. */
  function PairFcn(f: FcnId): (g: FcnId)
    requires IsPathFcn(f)
    ensures g == Join || g == LeftJoin || g == SemiJoin
    ensures PathFcn(g) == f
  {
    match f
    case JoinPath => Join
    case LeftJoinPath => LeftJoin
    case SemiJoinPath => SemiJoin
  }

  /** The path kind belonging to a pairwise join. */
  function PathFcn(f: FcnId): (g: FcnId)
    requires f == Join || f == LeftJoin || f == SemiJoin
    ensures IsPathFcn(g)
  {
    match f
    case Join => JoinPath
    case LeftJoin => LeftJoinPath
    case SemiJoin => SemiJoinPath
  }

  /** Every variable an instruction mentions lies in a table of nvars variables. */
  predicate InstrVarsBelow(p: Instr, nvars: nat)
  {
    forall k :: 0 <= k < |p.argv| ==> p.argv[k] < nvars
  }

  predicate WellFormed(p: Instr, nvars: nat)
  {
    1 <= p.retc <= |p.argv| && InstrVarsBelow(p, nvars)
  }

  predicate ProgramVarsBelow(prog: seq<Instr>, nvars: nat)
  {
    forall i :: 0 <= i < |prog| ==> WellFormed(prog[i], nvars)
  }
}
