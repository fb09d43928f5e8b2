/** Shared vocabulary: column and partition identities, the source's failures,
    and failure-compatible Option/Result wrappers. */
module Common {

  /** A column identity, assigned during resolution (a Python int). */
  type ColID = int

  /** A partition index (a Python int). */
  type PartID = int

  datatype Option<+T> = None | Some(value: T)

  /** Every way an operation of the core can fail. Python `assert`s, the
      `ValueError`s raised on purpose, the `KeyError` of a dict lookup and the
      backend failures the core lets through are all kept apart. */
  datatype Error =
    // ValueError raised by ExpressionList
    | DuplicateName(name: string)
    | NameNotFound(name: string)
    | Conflict(name: string)
    | UnresolvedColumn(name: string)
    // TypeError raised while computing a resolved type
    | TypeResolution
    // assertions in ExpressionList and vPartition
    | NotColumnExpression
    | MissingName
    | MissingId
    | NoColumns
    | TargetCountMismatch
    | EmptyMerge
    | TileMismatch
    | MergeMismatch
    | JoinBlockCount
    | UnsupportedJoin(how: string)
    // ValueError raised by vPartition.__post_init__
    | PartitionIdMismatch
    | TileLengthMismatch
    | ColumnIdMismatch
    // KeyError of a dict lookup
    | MissingColumn(id: ColID)
    | MissingKey
    | MissingNode
    // failures of the block backend
    | IndexOutOfRange
    | ZeroPartitions

  datatype Result<+T> = Ok(value: T) | Err(error: Error) {
    predicate IsFailure() { Err? }

    function PropagateFailure<U>(): Result<U>
      requires Err?
    {
      Err(error)
    }

    function Extract(): T
      requires Ok?
    {
      value
    }
  }

  /** No element occurs twice. */
  predicate Distinct<T(==)>(s: seq<T>) {
    forall i, j :: 0 <= i < j < |s| ==> s[i] != s[j]
  }

  /** The elements of a sequence, as a set. */
  function Elements<T>(s: seq<T>): set<T> {
    set x | x in s
  }

  /** A sequence has no elements exactly when it is empty. */
  lemma ElementsEmpty<T>(s: seq<T>)
    ensures Elements(s) == {} <==> s == []
  {
    if s != [] {
      assert s[0] in Elements(s);
    }
  }

  function Min(a: int, b: int): int {
    if a <= b then a else b
  }
}
