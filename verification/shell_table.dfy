/**
 * Row access on a shell table (`ShellTable.__getitem__` in shell_table.py):
 * an integer row, or a step-1 slice of rows.
 */
module ShellTable {
  import opened Wrappers

  /** The argument of `table[item]`. */
  datatype Item =
    | At(index: int)
    | Slice(start: Option<int>, stop: Option<int>, step: Option<int>)
    | OtherItem

  datatype TableError = IndexError | StepNotSupported | WrongIndexType

  datatype Selection<R> = One(row: R) | Many(rows: seq<R>)

  function Max(a: int, b: int): int {
    if a < b then b else a
  }

  function Min(a: int, b: int): int {
    if a < b then a else b
  }

  /** The first row of a slice and its length, as the table computes them. */
  function SliceBounds(n: nat, start: Option<int>, stop: Option<int>): (r: (nat, nat))
    ensures r.0 <= n && r.0 + r.1 <= n
  {
    var s0 := start.GetOr(0);
    var e0 := stop.GetOr(n);
    var s1 := if s0 < 0 then s0 + n else s0;
    var e1 := if e0 < 0 then e0 + n else e0;
    var s2 := Max(0, Min(s1, n));
    var e2 := Max(s2, Min(e1, n));
    (s2, e2 - s2)
  }

  /**
   * `table[item]`: a row index in `-rows .. rows - 1`, a negative one
   * counting from the end; a slice with no step or step 1, its bounds
   * defaulted, shifted once when negative and clamped to the table.
   */
  function GetItem<R>(rows: seq<R>, item: Item): (r: Result<Selection<R>, TableError>)
    ensures item.At? ==> (r.Success? <==> -|rows| <= item.index < |rows|)
    ensures item.At? && r.Failure? ==> r.error == IndexError
    ensures item.At? && r.Success? ==> r.value == One(rows[if item.index < 0 then item.index + |rows| else item.index])
    ensures item.Slice? ==> (r.Failure? <==> item.step.Some? && item.step.value != 1)
    ensures item.Slice? && r.Failure? ==> r.error == StepNotSupported
    ensures item.Slice? && r.Success? ==> r.value.Many? && |r.value.rows| <= |rows|
    ensures item.OtherItem? ==> r == Failure(WrongIndexType)
  {
    var n := |rows|;
    match item
    case At(i) =>
      if i >= n || i < -n then Failure(IndexError)
      else Success(One(rows[if i < 0 then i + n else i]))
    case Slice(start, stop, step) =>
      if step.Some? && step.value != 1 then Failure(StepNotSupported)
      else
        var (first, length) := SliceBounds(n, start, stop);
        Success(Many(rows[first..first + length]))
    case OtherItem => Failure(WrongIndexType)
  }

  /**
   * A slice bound normalised the way Python lists do it for step 1: a
   * missing bound is its default, a negative one counts from the end, and
   * the result is clamped to `0 .. n`.
   */
  function ListBound(n: nat, bound: Option<int>, default: nat): (b: nat)
    requires default <= n
    ensures b <= n
  {
    match bound
    case None => default
    case Some(x) =>
      if x < 0 then (if x + n < 0 then 0 else x + n)
      else if x > n then n else x
  }

  /** Python's `rows[start:stop]`. */
  function ListSlice<R>(rows: seq<R>, start: Option<int>, stop: Option<int>): seq<R> {
    var a := ListBound(|rows|, start, 0);
    var b := ListBound(|rows|, stop, |rows|);
    if a <= b then rows[a..b] else []
  }

  /** Slicing a table selects the same rows as slicing a Python list of its rows. */
  lemma SliceIsListSlice<R>(rows: seq<R>, start: Option<int>, stop: Option<int>, step: Option<int>)
    requires step.None? || step == Some(1)
    ensures GetItem(rows, Slice(start, stop, step)) == Success(Many(ListSlice(rows, start, stop)))
  {
  }

  /** Every row can be read through its index from either end. */
  lemma RowsFromBothEnds<R>(rows: seq<R>, i: nat)
    requires i < |rows|
    ensures GetItem(rows, At(i)) == Success(One(rows[i]))
    ensures GetItem(rows, At(i - |rows|)) == Success(One(rows[i]))
  {
  }
}
