/**
 * The parallel runner of parallel/runner.py: configuration checks, opening
 * new sessions under the six-session limit, splitting the input data into
 * balanced chunks and pairing each worker with a session and a chunk.
 */
module Runner {
  import opened Wrappers
  import opened Sorting

  /** SAP GUI allows at most this many sessions per connection. */
  const SessionLimit: nat := 6

  datatype Mode = New | Existing

  datatype ConfigError = InvalidMode | MissingSessionIndices | NoProcesses | NoDataSource | TwoDataSources

  function ModeOf(name: string): Option<Mode> {
    if name == "new" then Some(New) else if name == "existing" then Some(Existing) else None
  }

  /** A file name counts as given when it is a non-empty string. */
  predicate Given(file: Option<string>) {
    file.Some? && file.value != ""
  }

  /**
   * `ParallelRunner.__init__`'s checks, in the source's order; on success the
   * effective number of processes, which in existing mode is the number of
   * session indices given whatever the caller asked for.
   */
  function Configure<T>(mode: string, sessionIndices: Option<seq<int>>, numProcesses: int,
                        dataFile: Option<string>, dataList: Option<seq<T>>): (r: Result<nat, ConfigError>)
    ensures ModeOf(mode).None? ==> r == Failure(InvalidMode)
    ensures ModeOf(mode) == Some(Existing) && (sessionIndices.None? || sessionIndices.value == []) ==>
      r == Failure(MissingSessionIndices)
    ensures r.Success? ==> r.value > 0 && (Given(dataFile) != dataList.Some?)
    ensures r.Success? && ModeOf(mode) == Some(Existing) ==> r.value == |sessionIndices.value|
    ensures r.Success? && ModeOf(mode) == Some(New) ==> r.value == numProcesses
    ensures ModeOf(mode) == Some(New) && numProcesses > 0 && Given(dataFile) != dataList.Some? ==> r.Success?
    ensures ModeOf(mode) == Some(Existing) && sessionIndices.Some? && sessionIndices.value != [] && Given(dataFile) != dataList.Some? ==>
      r == Success(|sessionIndices.value|)
  {
    match ModeOf(mode)
    case None => Failure(InvalidMode)
    case Some(m) =>
      if m == Existing && (sessionIndices.None? || sessionIndices.value == []) then Failure(MissingSessionIndices)
      else
        var n := if m == Existing then |sessionIndices.value| else numProcesses;
        if n <= 0 then Failure(NoProcesses)
        else if !(Given(dataFile) || dataList.Some?) then Failure(NoDataSource)
        else if Given(dataFile) && dataList.Some? then Failure(TwoDataSources)
        else Success(n)
  }

  // ---------------------------------------------------------------------------
  // Splitting the data.

  /** The chunks joined back together, in order. */
  function Flatten<T>(chunks: seq<seq<T>>): seq<T> {
    if chunks == [] then [] else Flatten(chunks[..|chunks| - 1]) + chunks[|chunks| - 1]
  }

  function Min(a: int, b: int): int {
    if a < b then a else b
  }

  /** Where chunk `i` starts when `q` items per chunk are spread with `rem` left over. */
  function Start(i: int, q: int, rem: int): int {
    i * q + Min(i, rem)
  }

  /** Where chunk `i` ends: where chunk `i + 1` starts. */
  function End(i: int, q: int, rem: int): int {
    Start(i + 1, q, rem)
  }

  lemma StartStep(i: nat, q: nat, rem: nat)
    ensures End(i, q, rem) == Start(i, q, rem) + q + (if i < rem then 1 else 0)
  {
    assert (i + 1) * q == i * q + q;
  }

  lemma {:induction false} StartMonotone(i: nat, j: nat, q: nat, rem: nat)
    requires i <= j
    ensures Start(i, q, rem) <= Start(j, q, rem)
    decreases j - i
  {
    if i < j {
      StartStep(i, q, rem);
      StartMonotone(i + 1, j, q, rem);
    }
  }

  lemma EndOfLastChunk(len: nat, n: nat)
    requires n > 0
    ensures Start(n, len / n, len % n) == len
  {
    assert len % n < n;
    assert n * (len / n) + len % n == len;
  }

  /**
   * `_split_list`: `n` chunks whose lengths differ by at most one, the longer
   * ones first, that together are the input in order.
   */
  function SplitList<T>(lst: seq<T>, n: int): (r: seq<seq<T>>)
    ensures n <= 0 ==> r == []
    ensures n > 0 ==> |r| == n && Flatten(r) == lst
    ensures n > 0 ==> forall i :: 0 <= i < n ==> |r[i]| == ChunkSize(|lst|, n, i)
  {
    if n <= 0 then []
    else if lst == [] then
      var r := seq(n, i => []);
      EmptyChunks(r);
      r
    else
      ChunksOfSplit(lst, n);
      ChunksOf(lst, n)
  }

  /** The length `_split_list` gives chunk `i` of `n` over `len` items. */
  function ChunkSize(len: nat, n: nat, i: int): (c: nat)
    requires n > 0
  {
    len / n + (if i < len % n then 1 else 0)
  }

  /** The chunk boundaries `Start(0), ..., Start(n)` for a list of `len` items. */
  function Bounds(len: nat, n: nat): (b: seq<int>)
    requires n > 0
    ensures |b| == n + 1 && b[0] == 0 && b[n] == len
    ensures forall i :: 0 <= i <= n ==> 0 <= b[i] <= len
    ensures forall i :: 0 <= i < n ==> b[i] + ChunkSize(len, n, i) == b[i + 1]
  {
    var q, rem := len / n, len % n;
    var b := seq(n + 1, i => Start(i, q, rem));
    EndOfLastChunk(len, n);
    forall i | 0 <= i <= n ensures 0 <= b[i] <= len {
      StartMonotone(0, i, q, rem);
      StartMonotone(i, n, q, rem);
    }
    forall i | 0 <= i < n ensures b[i] + ChunkSize(len, n, i) == b[i + 1] {
      StartStep(i, q, rem);
    }
    b
  }

  /** `[lst[Start(i)..End(i)] for i in range(n)]` with `q, rem = divmod(len(lst), n)`. */
  function ChunksOf<T>(lst: seq<T>, n: nat): seq<seq<T>>
    requires n > 0
  {
    var b := Bounds(|lst|, n);
    assert forall i :: 0 <= i < n ==> b[i] <= b[i + 1] by {
      forall i | 0 <= i < n ensures b[i] <= b[i + 1] {
        assert b[i] + ChunkSize(|lst|, n, i) == b[i + 1];
      }
    }
    seq(n, i requires 0 <= i < n => lst[b[i]..b[i + 1]])
  }

  lemma ChunksOfSplit<T>(lst: seq<T>, n: nat)
    requires n > 0
    ensures |ChunksOf(lst, n)| == n && Flatten(ChunksOf(lst, n)) == lst
    ensures forall i :: 0 <= i < n ==> |ChunksOf(lst, n)[i]| == ChunkSize(|lst|, n, i)
  {
    var r := ChunksOf(lst, n);
    var b := Bounds(|lst|, n);
    ChunkSlices(lst, n);
    ChunksFlatten(lst, r, b, n);
    assert r[..n] == r;
  }

  /** Chunk `i` is the slice between boundaries `i` and `i + 1`, of the size `_split_list` gives it. */
  lemma ChunkSlices<T>(lst: seq<T>, n: nat)
    requires n > 0
    ensures var r, b := ChunksOf(lst, n), Bounds(|lst|, n);
      forall i :: 0 <= i < n ==> b[i] <= b[i + 1] && r[i] == lst[b[i]..b[i + 1]] && |r[i]| == ChunkSize(|lst|, n, i)
  {
    var r, b := ChunksOf(lst, n), Bounds(|lst|, n);
    forall i | 0 <= i < n ensures b[i] <= b[i + 1] && r[i] == lst[b[i]..b[i + 1]] && |r[i]| == ChunkSize(|lst|, n, i) {
      assert b[i] + ChunkSize(|lst|, n, i) == b[i + 1];
    }
  }

  lemma {:induction false} EmptyChunks<T>(r: seq<seq<T>>)
    requires forall i :: 0 <= i < |r| ==> r[i] == []
    ensures Flatten(r) == []
  {
    if r != [] {
      EmptyChunks(r[..|r| - 1]);
    }
  }

  /** The first `j` chunks together are the input up to where chunk `j` starts. */
  lemma {:induction false} ChunksFlatten<T>(lst: seq<T>, r: seq<seq<T>>, bounds: seq<int>, j: nat)
    requires j <= |r| && |bounds| == |r| + 1 && bounds[0] == 0
    requires forall i :: 0 <= i <= |r| ==> 0 <= bounds[i] <= |lst|
    requires forall i :: 0 <= i < |r| ==> bounds[i] <= bounds[i + 1] && r[i] == lst[bounds[i]..bounds[i + 1]]
    ensures Flatten(r[..j]) == lst[..bounds[j]]
  {
    if j > 0 {
      ChunksFlatten(lst, r, bounds, j - 1);
      assert r[..j][..j - 1] == r[..j - 1];
      SliceSplit(lst, bounds[j - 1], bounds[j]);
    }
  }

  lemma SliceSplit<T>(lst: seq<T>, a: int, b: int)
    requires 0 <= a <= b <= |lst|
    ensures lst[..b] == lst[..a] + lst[a..b]
  {
  }

  // ---------------------------------------------------------------------------
  // Opening sessions (new mode).

  /**
   * The loop of `_open_sessions` that sends "open new window" commands:
   * before the `i`-th command the connection reports `countAt(i)` sessions;
   * the loop stops at the limit, at the first failed command, or after `n`
   * commands. Returns the number of commands sent.
   */
  method OpenCommandsSent(n: int, countAt: nat -> nat, sendOk: nat -> bool) returns (sent: nat)
    ensures sent <= n || sent == 0
    ensures forall j :: 0 <= j < sent ==> countAt(j) < SessionLimit && sendOk(j)
    ensures sent < n ==> countAt(sent) >= SessionLimit || !sendOk(sent)
  {
    sent := 0;
    var i := 0;
    while i < n
      invariant 0 <= i && sent == i
      invariant i <= n || i == 0
      invariant forall j :: 0 <= j < sent ==> countAt(j) < SessionLimit && sendOk(j)
    {
      if countAt(i) >= SessionLimit {
        break;
      }
      if !sendOk(i) {
        break;
      }
      sent := sent + 1;
      i := i + 1;
    }
  }

  /**
   * The sessions to use in new mode: the lowest `n` session indices present
   * at the end and not at the start, in increasing order.
   */
  function NewlyOpened(initial: seq<int>, final: seq<int>, n: int): (r: seq<int>)
    ensures StrictlyIncreasing(r)
    ensures forall x :: x in r ==> x in final && x !in initial
    ensures n >= 0 ==> |r| <= n
    ensures n >= 0 ==> forall x :: x in final && x !in initial && x !in r ==> |r| == n && (n > 0 ==> r[n - 1] < x)
  {
    var candidates := SortedUnique(FreshOf(initial, final));
    var r := TakePrefix(candidates, n);
    forall x | x in final && x !in initial && x !in r && n >= 0 ensures |r| == n && (n > 0 ==> r[n - 1] < x) {
      assert x in candidates;
      var p :| 0 <= p < |candidates| && candidates[p] == x;
      assert p >= |r| by {
        assert forall k :: 0 <= k < |r| ==> r[k] == candidates[k] && r[k] in r;
      }
    }
    r
  }

  /** `set(final) - set(initial)` as a list. */
  function FreshOf(initial: seq<int>, final: seq<int>): (r: seq<int>)
    ensures forall x :: x in r <==> x in final && x !in initial
  {
    if final == [] then []
    else
      assert forall x :: x in final <==> x == final[0] || x in final[1..];
      (if final[0] in initial then [] else [final[0]]) + FreshOf(initial, final[1..])
  }

  datatype OpenError = NoBaseSession

  /**
   * `_open_sessions` seen from its result: it needs an existing session to
   * open new ones from, and then uses the newly appeared session indices.
   */
  function OpenSessions(initial: seq<int>, final: seq<int>, n: int): (r: Result<seq<int>, OpenError>)
    ensures r.Failure? <==> initial == []
    ensures r.Success? ==> r.value == NewlyOpened(initial, final, n)
  {
    if initial == [] then Failure(NoBaseSession)
    else Success(NewlyOpened(initial, final, n))
  }

  // ---------------------------------------------------------------------------
  // Handing out the work.

  /** `_prepare_data_files`: one data file per non-empty chunk, `None` for an empty one. */
  function PrepareDataFiles<T>(chunks: seq<seq<T>>): (r: seq<Option<seq<T>>>)
    ensures |r| == |chunks|
    ensures forall i :: 0 <= i < |r| ==> r[i].GetOr([]) == chunks[i] && (r[i].None? <==> chunks[i] == [])
  {
    seq(|chunks|, i requires 0 <= i < |chunks| => if chunks[i] == [] then None else Some(chunks[i]))
  }

  datatype Worker<T> = Worker(session: int, data: Option<seq<T>>)

  /** `_launch_workers`: worker `i` attaches to session `i` and reads data file `i`, if there is one. */
  function LaunchWorkers<T>(sessions: seq<int>, files: seq<Option<seq<T>>>): (r: seq<Worker<T>>)
    ensures |r| == |sessions|
    ensures forall i :: 0 <= i < |r| ==> r[i].session == sessions[i]
    ensures forall i :: 0 <= i < |r| ==> r[i].data == if i < |files| then files[i] else None
  {
    seq(|sessions|, i requires 0 <= i < |sessions| => Worker(sessions[i], if i < |files| then files[i] else None))
  }

  /** The data each worker receives, an empty list for a worker without a file. */
  function WorkerData<T>(ws: seq<Worker<T>>): seq<seq<T>> {
    seq(|ws|, i requires 0 <= i < |ws| => ws[i].data.GetOr([]))
  }

  /**
   * The second half of `run`: split the data over the sessions actually
   * available and launch one worker per session; no sessions, no workers.
   */
  function Plan<T>(data: seq<T>, sessions: seq<int>): seq<Worker<T>> {
    if sessions == [] then []
    else LaunchWorkers(sessions, PrepareDataFiles(SplitList(data, |sessions|)))
  }

  /**
   * Every data item goes to exactly one worker, in order, each worker gets
   * its own session, and the workers' shares differ by at most one item.
   */
  lemma PlanCoversData<T>(data: seq<T>, sessions: seq<int>)
    requires sessions != []
    ensures var ws := Plan(data, sessions);
      |ws| == |sessions| && Flatten(WorkerData(ws)) == data
    ensures var ws := Plan(data, sessions);
      forall i :: 0 <= i < |ws| ==> ws[i].session == sessions[i]
    ensures var ws := Plan(data, sessions);
      forall i, j :: 0 <= i < |ws| && 0 <= j < |ws| ==> |WorkerData(ws)[i]| <= |WorkerData(ws)[j]| + 1
  {
    var chunks := SplitList(data, |sessions|);
    var ws := Plan(data, sessions);
    assert WorkerData(ws) == chunks;
  }
}
