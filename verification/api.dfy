/**
 * The entry point `run_parallel` of parallel/api.py: reading the session
 * indices a user types, the session-limit arithmetic, and the settings
 * chosen without interaction.
 */
module Api {
  import opened Wrappers
  import opened Text
  import opened Sorting

  // ---------------------------------------------------------------------------
  // `_parse_session_indices`.

  /** The parts of the input, each stripped. */
  function Tokens(parts: seq<string>): (r: seq<string>)
    ensures |r| == |parts| && forall i :: 0 <= i < |parts| ==> r[i] == Strip(parts[i])
  {
    seq(|parts|, i requires 0 <= i < |parts| => Strip(parts[i]))
  }

  /** The tokens that are not blank, in order: the `if x.strip()` filter. */
  function NonBlank(tokens: seq<string>): seq<string> {
    if tokens == [] then []
    else (if tokens[0] == [] then [] else [tokens[0]]) + NonBlank(tokens[1..])
  }

  /**
   * `[int(t) for t in tokens if t]` over the stripped parts: blank tokens
   * are skipped and any other token that is not an integer makes the whole
   * list fail.
   */
  function ParseAll(tokens: seq<string>): (r: Option<seq<int>>)
    ensures r.Some? <==> forall i :: 0 <= i < |tokens| ==> tokens[i] == [] || ParseInt(tokens[i]).Some?
    ensures r.Some? ==> |r.value| <= |tokens|
    ensures r.Some? && (forall i :: 0 <= i < |tokens| ==> tokens[i] != []) ==>
      |r.value| == |tokens| && forall i :: 0 <= i < |tokens| ==> Some(r.value[i]) == ParseInt(tokens[i])
  {
    if tokens == [] then Some([])
    else
      var rest := ParseAll(tokens[1..]);
      assert forall i :: 1 <= i < |tokens| ==> tokens[i] == tokens[1..][i - 1];
      if tokens[0] == [] then rest
      else match (ParseInt(tokens[0]), rest)
        case (Some(v), Some(vs)) => Some([v] + vs)
        case _ => None
  }

  /** Blank tokens are skipped: the values are those of the non-blank tokens, in order. */
  lemma {:induction false} ParseAllSkipsBlanks(tokens: seq<string>)
    ensures var r := ParseAll(tokens); var kept := NonBlank(tokens);
      r.Some? ==> |r.value| == |kept| && forall i :: 0 <= i < |kept| ==> Some(r.value[i]) == ParseInt(kept[i])
  {
    if tokens != [] {
      ParseAllSkipsBlanks(tokens[1..]);
      var kept := NonBlank(tokens);
      var kept' := NonBlank(tokens[1..]);
      if tokens[0] != [] && ParseAll(tokens).Some? {
        var r := ParseAll(tokens).value;
        var r' := ParseAll(tokens[1..]).value;
        assert kept == [tokens[0]] + kept' && r == [r[0]] + r';
        forall i | 0 <= i < |kept| ensures Some(r[i]) == ParseInt(kept[i]) {
          if i > 0 {
            assert r[i] == r'[i - 1] && kept[i] == kept'[i - 1];
          }
        }
      }
    }
  }

  /** `"a, ,b"`: the blank part between two numbers is skipped. */
  lemma BlankTokenSkipped(a: int, b: int)
    ensures ParseAll([IntToString(a), "", IntToString(b)]) == Some([a, b])
  {
    var tokens := [IntToString(a), "", IntToString(b)];
    ParseIntToString(a);
    ParseIntToString(b);
    assert tokens[1..] == ["", IntToString(b)] && tokens[1..][1..] == [IntToString(b)];
    var last := tokens[1..][1..];
    assert last[0] == IntToString(b) && last[0] != [] && last[1..] == [];
    assert ParseInt(last[0]) == Some(b);
    assert ParseAll(last[1..]) == Some([]);
    assert [b] + [] == [b];
    assert ParseAll(last) == Some([b]);
    assert ParseAll(tokens[1..]) == Some([b]);
    assert tokens[0] == IntToString(a) && tokens[0] != [] && ParseInt(tokens[0]) == Some(a);
    assert [a] + [b] == [a, b];
  }

  /**
   * The session indices a user entered as comma-separated numbers: `None`
   * when a part is not a number, a number is not among `available`, or
   * nothing was entered; otherwise the distinct indices in increasing order.
   */
  function ParseSessionIndices(input: string, available: seq<int>): (r: Option<seq<int>>)
    ensures r.Some? ==> r.value != [] && StrictlyIncreasing(r.value)
    ensures r.Some? ==> forall x :: x in r.value ==> x in available
    ensures ParseAll(Tokens(Split(input, ','))).None? ==> r.None?
    ensures r.Some? ==> forall x :: x in r.value <==> x in ParseAll(Tokens(Split(input, ','))).value
    ensures var p := ParseAll(Tokens(Split(input, ',')));
      r.Some? <==> p.Some? && p.value != [] && forall x :: x in p.value ==> x in available
    ensures var p := ParseAll(Tokens(Split(input, ',')));
      r.Some? ==> r.value == SortedUnique(p.value)
  {
    match ParseAll(Tokens(Split(input, ',')))
    case None => None
    case Some(indices) =>
      if !(forall x :: x in indices ==> x in available) then None
      else if indices == [] then None
      else
        var r := SortedUnique(indices);
        assert indices[0] in r;
        Some(r)
  }

  /** How a selection is written back: the indices joined by commas. */
  function FormatSessionIndices(xs: seq<int>): string {
    Join(seq(|xs|, i requires 0 <= i < |xs| => IntToString(xs[i])), ',')
  }

  lemma IntToStringIsToken(x: int)
    ensures Strip(IntToString(x)) == IntToString(x) && ',' !in IntToString(x)
  {
    var s := IntToString(x);
    StripByIdentity(s, IsSpace);
    assert !IsSpace(s[0]) && !IsSpace(s[|s| - 1]);
  }

  lemma ParseAllOfTokens(xs: seq<int>)
    ensures ParseAll(Tokens(seq(|xs|, i requires 0 <= i < |xs| => IntToString(xs[i])))) == Some(xs)
  {
    var parts := seq(|xs|, i requires 0 <= i < |xs| => IntToString(xs[i]));
    var tokens := Tokens(parts);
    forall i | 0 <= i < |tokens| ensures tokens[i] != [] && ParseInt(tokens[i]) == Some(xs[i]) {
      IntToStringIsToken(xs[i]);
      ParseIntToString(xs[i]);
    }
    var r := ParseAll(tokens);
    assert r.value == xs;
  }

  /** A selection written back and read again gives the same selection. */
  lemma ParseFormatRoundTrip(xs: seq<int>, available: seq<int>)
    requires xs != [] && StrictlyIncreasing(xs)
    requires forall x :: x in xs ==> x in available
    ensures ParseSessionIndices(FormatSessionIndices(xs), available) == Some(xs)
  {
    var parts := seq(|xs|, i requires 0 <= i < |xs| => IntToString(xs[i]));
    forall i | 0 <= i < |parts| ensures ',' !in parts[i] {
      IntToStringIsToken(xs[i]);
    }
    SplitJoin(parts, ',');
    ParseAllOfTokens(xs);
    var r := ParseSessionIndices(FormatSessionIndices(xs), available);
    StrictlyIncreasingUnique(r.value, xs);
  }

  // ---------------------------------------------------------------------------
  // The session limit.

  const SessionLimit: int := 6

  /** `max(0, 6 - current)`: how many more sessions the connection accepts. */
  function CanOpen(current: nat): (r: nat)
    ensures current + r <= SessionLimit || r == 0
    ensures current < SessionLimit ==> current + r == SessionLimit
  {
    if SessionLimit - current > 0 then SessionLimit - current else 0
  }

  /**
   * The interactive "new sessions" choice: the number of sessions to open,
   * or `None` when the limit leaves none and the user is asked again.
   */
  function InteractiveNewSessions(requested: int, current: nat): (r: Option<int>)
    ensures r.None? <==> requested > CanOpen(current) && CanOpen(current) == 0
    ensures r.Some? ==> r.value <= requested
    ensures r.Some? && requested <= CanOpen(current) ==> r.value == requested
    ensures r.Some? && requested > CanOpen(current) ==> r.value == CanOpen(current) && current + r.value == SessionLimit
  {
    var can := CanOpen(current);
    if requested > can then (if can == 0 then None else Some(can))
    else Some(requested)
  }

  // ---------------------------------------------------------------------------
  // Non-interactive settings.

  /** A connection as the initial scan reports it: its index and its sessions' indices. */
  datatype Connection = Connection(index: int, sessions: seq<int>)

  datatype RunPlan =
    | Sequential(connection: int, session: int)
    | Parallel(connection: int, processes: int)
    | NothingToRun

  datatype ApiError =
    | NoConnections        // the initial scan found none: `sys.exit(1)`
    | NoSessionLimitLeft   // `ValueError`: the limit leaves no session to open
    | NoSessionToAttach    // `AttachException`: sequential run without a session

  /** The position of the first connection with the given index. */
  function FindConnection(cs: seq<Connection>, index: int): (r: Option<nat>)
    ensures r.Some? ==> r.value < |cs| && cs[r.value].index == index
    ensures r.Some? ==> forall j :: 0 <= j < r.value ==> cs[j].index != index
    ensures r.None? <==> forall j :: 0 <= j < |cs| ==> cs[j].index != index
  {
    if cs == [] then None
    else if cs[0].index == index then Some(0)
    else match FindConnection(cs[1..], index)
      case Some(i) => Some(i + 1)
      case None => None
  }

  /** Connection 0 when present, else the first connection reported. */
  function DefaultConnection(cs: seq<Connection>): (r: int)
    requires cs != []
    ensures FindConnection(cs, r).Some?
    ensures (exists j :: 0 <= j < |cs| && cs[j].index == 0) ==> r == 0
    ensures (forall j :: 0 <= j < |cs| ==> cs[j].index != 0) ==> r == cs[0].index
  {
    if FindConnection(cs, 0).Some? then 0 else cs[0].index
  }

  /** `[s['index'] for s in conn['sessions']]` of the first matching connection, none if none matches. */
  function SessionsOf(cs: seq<Connection>, index: int): seq<int> {
    match FindConnection(cs, index)
    case Some(i) => cs[i].sessions
    case None => []
  }

  /**
   * What `run_parallel(interactive=False)` decides before any worker runs:
   * the default connection; in parallel mode the requested number of new
   * sessions cut down to what the limit leaves (an error when that is none,
   * nothing to do when zero were requested); in sequential mode the lowest
   * session of the connection.
   */
  function NonInteractivePlan(cs: seq<Connection>, enabled: bool, requested: int): (r: Result<RunPlan, ApiError>)
    ensures r == Failure(NoConnections) <==> cs == []
    ensures r == Failure(NoSessionLimitLeft) <==>
      cs != [] && enabled && (var can := CanOpen(|SessionsOf(cs, DefaultConnection(cs))|); requested > can && can == 0)
    ensures r == Failure(NoSessionToAttach) <==> cs != [] && !enabled && SessionsOf(cs, DefaultConnection(cs)) == []
    ensures r == Success(NothingToRun) <==> cs != [] && enabled && requested == 0
    ensures r.Success? && r.value.Parallel? ==>
      var can := CanOpen(|SessionsOf(cs, r.value.connection)|);
      r.value.processes == if requested > can then can else requested
    ensures r.Success? && r.value.Sequential? ==>
      var sessions := SessionsOf(cs, r.value.connection);
      r.value.session in sessions && forall s :: s in sessions ==> r.value.session <= s
    ensures r.Success? && r.value.Parallel? ==>
      var current := |SessionsOf(cs, r.value.connection)|;
      r.value.processes != 0 && r.value.processes <= requested && r.value.processes <= CanOpen(current)
    ensures r.Success? && !r.value.NothingToRun? ==> cs != [] && r.value.connection == DefaultConnection(cs)
    ensures enabled && cs != [] && 0 < requested <= CanOpen(|SessionsOf(cs, DefaultConnection(cs))|) ==>
      r == Success(Parallel(DefaultConnection(cs), requested))
    ensures !enabled ==> r.Failure? || r.value.Sequential?
    ensures enabled && r.Success? ==> !r.value.Sequential?
  {
    if cs == [] then Failure(NoConnections)
    else
      var connection := DefaultConnection(cs);
      var sessions := SessionsOf(cs, connection);
      if enabled then
        var can := CanOpen(|sessions|);
        var processes := if requested > can then can else requested;
        if requested > can && can == 0 then Failure(NoSessionLimitLeft)
        else if processes == 0 then Success(NothingToRun)
        else Success(Parallel(connection, processes))
      else if sessions == [] then Failure(NoSessionToAttach)
      else Success(Sequential(connection, Min(sessions)))
  }
}
