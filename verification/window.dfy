/**
 * The status-bar checks and the semantic-locator entry points of the
 * `Window` class (window.py).
 */
module WindowOps {
  import opened Wrappers
  import opened Text
  import opened ElementCache
  import opened Resolver

  // ---------------------------------------------------------------------------
  // `get_status_message`.

  /** A status-bar message: type, id, number and text. */
  datatype Message = Message(msgType: string, msgId: string, number: string, text: string)

  /**
   * What reading the status bar yields: its four properties, a failure whose
   * message mentions `findById` (the bar does not exist), or another failure.
   */
  datatype BarRead =
    | Bar(msgType: string, msgId: string, number: string, text: string)
    | NotFound
    | ReadFailed

  /** `StatusBarException`. */
  datatype StatusBarError = StatusBarError

  /** `get_status_message`: no message when the bar is missing or its text is empty; the id is stripped. */
  function GetStatusMessage(read: BarRead): (r: Result<Option<Message>, StatusBarError>)
    ensures r.Failure? <==> read.ReadFailed?
    ensures r == Success(None) <==> read.NotFound? || (read.Bar? && read.text == "")
    ensures r.Success? && r.value.Some? ==>
      read.Bar? && r.value.value.text == read.text != "" && r.value.value.msgId == Strip(read.msgId)
      && r.value.value.msgType == read.msgType && r.value.value.number == read.number
  {
    match read
    case Bar(t, i, n, text) => if text == "" then Success(None) else Success(Some(Message(t, Strip(i), n, text)))
    case NotFound => Success(None)
    case ReadFailed => Failure(StatusBarError)
  }

  // ---------------------------------------------------------------------------
  // `assert_status_bar`.

  /** A string criterion: one value or a list of accepted values. */
  datatype Accepted = OneOf(value: string) | AnyOf(values: seq<string>)

  /** A message number given as a string or an integer. */
  datatype Number = NumText(s: string) | NumInt(i: int)

  datatype NumberCriterion = OneNumber(n: Number) | AnyNumber(ns: seq<Number>)

  /** The criteria of one call; a regular-expression text criterion is not part of this model. */
  datatype Criteria = Criteria(
    msgType: Option<Accepted>,
    msgId: Option<Accepted>,
    number: Option<NumberCriterion>,
    text: Option<string>)

  predicate AnyGiven(c: Criteria) {
    c.msgType.Some? || c.msgId.Some? || c.number.Some? || c.text.Some?
  }

  /** A single string stands for the one-element list. */
  function AcceptedValues(a: Accepted): seq<string> {
    match a
    case OneOf(v) => [v]
    case AnyOf(vs) => vs
  }

  /** `str(n)`. */
  function NumberText(n: Number): string {
    match n
    case NumText(s) => s
    case NumInt(i) => IntToString(i)
  }

  function AcceptedNumbers(c: NumberCriterion): seq<string> {
    match c
    case OneNumber(n) => [NumberText(n)]
    case AnyNumber(ns) => seq(|ns|, i requires 0 <= i < |ns| => NumberText(ns[i]))
  }

  /** One message against the criteria: each given criterion must hold, one not given always does. */
  predicate Matches(m: Message, c: Criteria) {
    && (c.msgType.None? || m.msgType in AcceptedValues(c.msgType.value))
    && (c.msgId.None? || m.msgId in AcceptedValues(c.msgId.value))
    && (c.number.None? || m.number in AcceptedNumbers(c.number.value))
    && (c.text.None? || Strip(m.text) == Strip(c.text.value))
  }

  /** A number criterion accepts exactly the decimal spellings of its integers and its strings. */
  lemma NumberMatchesDecimal(m: Message, i: int)
    ensures Matches(m, Criteria(None, None, Some(OneNumber(NumInt(i))), None)) <==> m.number == IntToString(i)
  {
  }

  /** Only the text given: the stripped texts must agree. */
  lemma TextOnlyMatch(m: Message, t: string)
    ensures Matches(m, Criteria(None, None, None, Some(t))) <==> Strip(m.text) == Strip(t)
  {
  }

  /** What the call does: return `true`, return `false`, or raise. */
  datatype Outcome =
    | ReturnsTrue
    | ReturnsFalse
    | RaisesNoCriterion        // `ValueError`, before the bar is read
    | RaisesReadError          // `StatusBarException` passed on
    | RaisesAssertionFailed    // `StatusBarAssertionError`

  /**
   * One pass of the polling loop: the result of `get_status_message`, or an
   * exception other than `StatusBarException` raised during the pass (by the
   * read or by the `time.sleep` after it).
   */
  datatype Poll =
    | Polled(status: Result<Option<Message>, StatusBarError>)
    | Crashed

  /** A pass that read a message from the bar. */
  predicate Shown(p: Poll) {
    p.Polled? && p.status.Success? && p.status.value.Some?
  }

  /** A pass that ends the waiting: an unexpected error, a read error or a matching message. */
  predicate Decisive(p: Poll, c: Criteria) {
    p.Crashed? || p.status.Failure? || (p.status.value.Some? && Matches(p.status.value.value, c))
  }

  function Fail(raiseException: bool): Outcome {
    if raiseException then RaisesAssertionFailed else ReturnsFalse
  }

  /**
   * The verdict described by the documentation: decided by the first
   * unexpected error, read error or matching message among the polls made
   * before the timeout;
   * without one, a failure if any message was shown, and otherwise a
   * failure only when `failOnTimeout` is set.
   */
  function Verdict(c: Criteria, polls: seq<Poll>, raiseException: bool, failOnTimeout: bool): Outcome {
    if !AnyGiven(c) then RaisesNoCriterion
    else match FirstIndex(polls, p => Decisive(p, c))
      case Some(k) =>
        if polls[k].Crashed? then Fail(raiseException)
        else if polls[k].status.Failure? then (if raiseException then RaisesReadError else ReturnsFalse)
        else ReturnsTrue
      case None =>
        if exists k :: 0 <= k < |polls| && Shown(polls[k]) then Fail(raiseException)
        else if failOnTimeout then Fail(raiseException)
        else ReturnsTrue
  }

  /**
   * An unexpected error before any deciding poll ends the call as a failed
   * assertion: `StatusBarAssertionError` or `False`, never a retry.
   */
  lemma UnexpectedErrorFails(c: Criteria, polls: seq<Poll>, k: nat, raiseException: bool, failOnTimeout: bool)
    requires AnyGiven(c) && k < |polls| && polls[k].Crashed?
    requires forall j :: 0 <= j < k ==> !Decisive(polls[j], c)
    ensures Verdict(c, polls, raiseException, failOnTimeout) == Fail(raiseException)
  {
    var f := FirstIndex(polls, p => Decisive(p, c));
    assert Decisive(polls[k], c);
    assert f == Some(k);
  }

  /**
   * `assert_status_bar` over the polls made before the timeout: the loop
   * returns at the first matching message, read error or unexpected error,
   * remembering whether any message was seen, and the verdict after the
   * loop depends on
   * that and on `failOnTimeout`.
   */
  method AssertStatusBar(c: Criteria, polls: seq<Poll>, raiseException: bool, failOnTimeout: bool)
    returns (r: Outcome)
    ensures r == Verdict(c, polls, raiseException, failOnTimeout)
    ensures r.ReturnsTrue? && failOnTimeout ==> exists k :: 0 <= k < |polls| && Shown(polls[k]) && Matches(polls[k].status.value.value, c)
  {
    if !AnyGiven(c) {
      return RaisesNoCriterion;
    }
    var last: Option<Message> := None;
    var i := 0;
    while i < |polls|
      invariant 0 <= i <= |polls|
      invariant forall j :: 0 <= j < i ==> !Decisive(polls[j], c)
      invariant last.Some? <==> exists j :: 0 <= j < i && Shown(polls[j])
    {
      match polls[i]
      case Crashed =>
        return Fail(raiseException);
      case Polled(Failure(_)) =>
        r := if raiseException then RaisesReadError else ReturnsFalse;
        return;
      case Polled(Success(status)) =>
        if status.Some? {
          last := status;
          if Matches(status.value, c) {
            return ReturnsTrue;
          }
        }
      i := i + 1;
    }
    if last.Some? {
      r := Fail(raiseException);
    } else if failOnTimeout {
      r := Fail(raiseException);
    } else {
      r := ReturnsTrue;
    }
  }

  // ---------------------------------------------------------------------------
  // Locators.

  datatype LocatorError =
    | NoFinder          // `RuntimeError`: the window was created without a finder
    | ElementNotFound   // `ElementNotFoundException`

  /**
   * `find_element_id_by_locator`: needs a finder; a `SapGuiComException`
   * from the finder becomes "no element". Returns the finder's cache after
   * the call.
   */
  function FindElementIdByLocator(hasFinder: bool, c: Cache, s: Session, locator: string, targets: Option<seq<string>>)
    : (r: (Cache, Result<Option<string>, LocatorError>))
    ensures !hasFinder ==> r == (c, Failure(NoFinder))
    ensures hasFinder ==> r.1.Success?
    ensures hasFinder && ActiveWindowId(s).None? ==> r == (Cleared, Success(None))
    ensures hasFinder && ActiveWindowId(s).Some? ==> r.0 == FindElement(c, s, locator, targets).0 && r.1.value == FindElement(c, s, locator, targets).1.value
  {
    if !hasFinder then (c, Failure(NoFinder))
    else
      var (c', found) := FindElement(c, s, locator, targets);
      match found
      case Failure(_) => (c', Success(None))
      case Success(id) => (c', Success(id))
  }

  /** The locator wrappers of `Window` that act on the element found. */
  datatype Action = Press | Write | Read | Select | IsSelected | SetCheckbox | Visualize

  /** Default target types of the wrappers that act on a found element. */
  const PressTypes: seq<string> := ["GuiButton", "GuiTab"]
  const WriteTypes: seq<string> := ["GuiTextField", "GuiCTextField", "GuiPasswordField", "GuiComboBox"]
  const ReadTypes: seq<string> := ["GuiTextField", "GuiCTextField", "GuiPasswordField", "GuiComboBox", "GuiLabel"]
  const SelectTypes: seq<string> := ["GuiCheckBox", "GuiRadioButton", "GuiTab", "GuiMenu"]
  const IsSelectedTypes: seq<string> := ["GuiCheckBox", "GuiRadioButton"]
  const CheckboxTypes: seq<string> := ["GuiCheckBox"]

  /** Each wrapper's default types; `visualize_by_locator` falls back to the finder's own. */
  function DefaultTypes(a: Action): seq<string> {
    match a
    case Press => PressTypes
    case Write => WriteTypes
    case Read => ReadTypes
    case Select => SelectTypes
    case IsSelected => IsSelectedTypes
    case SetCheckbox => CheckboxTypes
    case Visualize => DefaultTargetTypes
  }

  /** The types a wrapper searches: those passed, else its default. */
  function ActionTargets(a: Action, given: Option<seq<string>>): seq<string> {
    given.GetOr(DefaultTypes(a))
  }

  /**
   * The id a wrapper such as `press_by_locator` acts on: it searches the
   * types given, else its own default types; no id, or the empty id, raises
   * `ElementNotFoundException`; a missing finder raises as before.
   */
  function IdForAction(a: Action, hasFinder: bool, c: Cache, s: Session, locator: string, given: Option<seq<string>>)
    : (r: (Cache, Result<string, LocatorError>))
    ensures var f := FindElementIdByLocator(hasFinder, c, s, locator, Some(ActionTargets(a, given)));
      && r.0 == f.0
      && (r.1.Success? <==> hasFinder && f.1.value.Some? && f.1.value.value != "")
      && (r.1.Success? ==> f.1 == Success(Some(r.1.value)))
    ensures r.1 == Failure(NoFinder) <==> !hasFinder
  {
    var (c', found) := FindElementIdByLocator(hasFinder, c, s, locator, Some(ActionTargets(a, given)));
    match found
    case Failure(e) => (c', Failure(e))
    case Success(None) => (c', Failure(ElementNotFound))
    case Success(Some(id)) => if id == "" then (c', Failure(ElementNotFound)) else (c', Success(id))
  }

  /** `exists_by_locator`: whether the finder returned an id at all. */
  function ExistsByLocator(hasFinder: bool, c: Cache, s: Session, locator: string, targets: Option<seq<string>>)
    : (r: (Cache, Result<bool, LocatorError>))
    ensures r.1.Success? <==> hasFinder
    ensures r.1.Success? ==> (r.1.value <==> FindElementIdByLocator(hasFinder, c, s, locator, targets).1.value.Some?)
  {
    var (c', found) := FindElementIdByLocator(hasFinder, c, s, locator, targets);
    match found
    case Failure(e) => (c', Failure(e))
    case Success(id) => (c', Success(id.Some?))
  }

  /**
   * The action wrappers and `exists_by_locator` disagree only on an element
   * whose id is the empty string: it exists, yet no action can find it.
   */
  lemma ExistsAgreesWithActions(act: Action, c: Cache, s: Session, locator: string, given: Option<seq<string>>)
    ensures var targets := Some(ActionTargets(act, given));
      var e := ExistsByLocator(true, c, s, locator, targets).1.value;
      var a := IdForAction(act, true, c, s, locator, given).1;
      a.Success? ==> e
    ensures var targets := Some(ActionTargets(act, given));
      var e := ExistsByLocator(true, c, s, locator, targets).1.value;
      var a := IdForAction(act, true, c, s, locator, given).1;
      e && a.Failure? ==> FindElementIdByLocator(true, c, s, locator, targets).1 == Success(Some(""))
  {
  }
}
