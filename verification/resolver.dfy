/**
 * `SapElementFinder.find_element` and `_find_label_element`
 * (element_finder.py): resolving a parsed locator against the element cache.
 */
module Resolver {
  import opened Wrappers
  import opened Locators
  import opened LocatorParser
  import opened ElementCache

  /** The types searched when the caller names none. */
  const DefaultTargetTypes: seq<string> :=
    ["GuiTextField", "GuiCTextField", "GuiPasswordField", "GuiComboBox",
     "GuiCheckBox", "GuiRadioButton", "GuiButton", "GuiTab"]

  /** The types whose text can serve as a label, searched in this order. */
  const LabelElementTypes: seq<string> := ["GuiLabel", "GuiTextField", "GuiCTextField"]

  // ---------------------------------------------------------------------------
  // Generic selection over sequences.

  /** The position of the first element satisfying `p`: Python's `next(x for x in xs if p(x))`. */
  function FirstIndex<T>(xs: seq<T>, p: T -> bool): (r: Option<nat>)
    ensures r.Some? ==> r.value < |xs| && p(xs[r.value])
    ensures r.Some? ==> forall j :: 0 <= j < r.value ==> !p(xs[j])
    ensures r.None? <==> forall j :: 0 <= j < |xs| ==> !p(xs[j])
  {
    if xs == [] then None
    else if p(xs[0]) then Some(0)
    else match FirstIndex(xs[1..], p)
      case Some(i) => Some(i + 1)
      case None => None
  }

  /**
   * The position of the qualifying element with the least key, the first one
   * on ties: what a loop that keeps a candidate only when its distance is
   * strictly smaller than the best so far returns.
   */
  function Nearest<T>(xs: seq<T>, ok: T -> bool, key: T -> int): (r: Option<nat>)
    ensures r.Some? ==> r.value < |xs|
  {
    if xs == [] then None
    else
      var rest := Nearest(xs[1..], ok, key);
      if ok(xs[0]) && (rest.None? || key(xs[0]) <= key(xs[1..][rest.value])) then Some(0)
      else match rest
        case Some(i) => Some(i + 1)
        case None => None
  }

  /**
   * `Nearest` finds a qualifying element exactly when there is one; its key is
   * the least of the qualifying keys, and strictly less than every earlier one.
   */
  lemma {:induction false} NearestFacts<T>(xs: seq<T>, ok: T -> bool, key: T -> int)
    ensures var r := Nearest(xs, ok, key);
      && (r.None? <==> forall j :: 0 <= j < |xs| ==> !ok(xs[j]))
      && (r.Some? ==> r.value < |xs| && ok(xs[r.value]))
      && (r.Some? ==> forall j :: 0 <= j < |xs| && ok(xs[j]) ==> key(xs[r.value]) <= key(xs[j]))
      && (r.Some? ==> forall j :: 0 <= j < r.value && ok(xs[j]) ==> key(xs[r.value]) < key(xs[j]))
  {
    if xs != [] {
      NearestFacts(xs[1..], ok, key);
      var rest := Nearest(xs[1..], ok, key);
      forall j | 1 <= j < |xs| ensures xs[j] == xs[1..][j - 1] {
      }
    }
  }

  function Filter<T>(xs: seq<T>, ok: T -> bool): seq<T> {
    if xs == [] then []
    else (if ok(xs[0]) then [xs[0]] else []) + Filter(xs[1..], ok)
  }

  /** Python's `[x for x in xs if ok(x)]` keeps exactly the qualifying elements. */
  lemma {:induction false} FilterMembers<T(!new)>(xs: seq<T>, ok: T -> bool)
    ensures forall x :: x in Filter(xs, ok) <==> x in xs && ok(x)
  {
    if xs != [] {
      FilterMembers(xs[1..], ok);
      assert forall x :: x in xs <==> x == xs[0] || x in xs[1..];
    }
  }

  function Always<T>(x: T): bool {
    true
  }

  /**
   * Python's `min(filter(ok, xs), key=key)` picks the same element as the
   * nearest-candidate loop over `xs`.
   */
  lemma {:induction false} MinOfFilterIsNearest<T>(xs: seq<T>, ok: T -> bool, key: T -> int)
    ensures var f := Filter(xs, ok);
      var m := Nearest(f, Always, key);
      var n := Nearest(xs, ok, key);
      m.Some? <==> n.Some?
    ensures var f := Filter(xs, ok);
      var m := Nearest(f, Always, key);
      var n := Nearest(xs, ok, key);
      m.Some? && n.Some? ==> f[m.value] == xs[n.value]
  {
    if xs != [] {
      var rest := xs[1..];
      MinOfFilterIsNearest(rest, ok, key);
      var f' := Filter(rest, ok);
      var m' := Nearest(f', Always, key);
      var n' := Nearest(rest, ok, key);
      if ok(xs[0]) {
        var f := Filter(xs, ok);
        assert f == [xs[0]] + f';
        assert f[1..] == f' && f[0] == xs[0];
        var m := Nearest(f, Always, key);
        var n := Nearest(xs, ok, key);
        assert m == if m'.None? || key(f[0]) <= key(f[1..][m'.value]) then Some(0) else Some(m'.value + 1);
        assert n == if n'.None? || key(xs[0]) <= key(xs[1..][n'.value]) then Some(0) else Some(n'.value + 1);
      } else {
        assert Filter(xs, ok) == f';
      }
    }
  }

  // ---------------------------------------------------------------------------
  // Labels and candidates.

  /** The cached elements under the given types, types in the order given. */
  function Candidates(idx: Index, types: seq<string>): seq<ElementInfo> {
    LookupAll(idx, types)
  }

  function HasText(t: string): ElementInfo -> bool {
    (e: ElementInfo) => e.text == Some(t)
  }

  /** `_find_label_element`: the first label-type element whose stripped text equals `t`. */
  function FindLabel(idx: Index, t: string): (r: Option<ElementInfo>)
    ensures var labels := Candidates(idx, LabelElementTypes);
      r.None? <==> forall j :: 0 <= j < |labels| ==> labels[j].text != Some(t)
    ensures r.Some? ==> r.value.text == Some(t) && r.value in Candidates(idx, LabelElementTypes)
    ensures var labels := Candidates(idx, LabelElementTypes);
      r.Some? ==> exists i :: 0 <= i < |labels| && labels[i] == r.value && forall j :: 0 <= j < i ==> labels[j].text != Some(t)
  {
    var labels := Candidates(idx, LabelElementTypes);
    match FirstIndex(labels, HasText(t))
    case Some(i) => Some(labels[i])
    case None => None
  }

  // ---------------------------------------------------------------------------
  // The five strategies.

  /** Content: the first cached element, of any type, whose text or tooltip equals `v`. */
  function ResolveContent(idx: Index, v: string): (r: Option<ElementInfo>)
    ensures r.Some? ==> r.value in All(idx) && (r.value.text == Some(v) || r.value.tooltip == Some(v))
    ensures r.None? <==> forall e :: e in All(idx) ==> e.text != Some(v) && e.tooltip != Some(v)
    ensures var all := All(idx); r.Some? ==>
      exists i :: 0 <= i < |all| && all[i] == r.value
        && forall j :: 0 <= j < i ==> all[j].text != Some(v) && all[j].tooltip != Some(v)
  {
    var all := All(idx);
    match FirstIndex(all, (e: ElementInfo) => e.text == Some(v) || e.tooltip == Some(v))
    case Some(i) => Some(all[i])
    case None => None
  }

  predicate RightNeighbour(anchor: ElementInfo, t: ElementInfo) {
    t.position.IsHorizontallyAlignedWith(anchor.position, DefaultHorizontalTolerance)
    && t.position.IsRightOf(anchor.position, DefaultGapTolerance)
  }

  predicate BelowNeighbour(anchor: ElementInfo, t: ElementInfo) {
    t.position.IsVerticallyAlignedWith(anchor.position, DefaultVerticalTolerance)
    && t.position.IsBelow(anchor.position, DefaultGapTolerance)
  }

  function Gap(anchor: ElementInfo, t: ElementInfo): int {
    t.position.left - anchor.position.Right()
  }

  function Drop(anchor: ElementInfo, t: ElementInfo): int {
    t.position.top - anchor.position.Bottom()
  }

  /**
   * HLabel: the candidate on the label's row, right of it within the gap
   * tolerance, with the smallest horizontal gap.
   */
  function ResolveHLabel(idx: Index, cands: seq<ElementInfo>, l: string): (r: Option<ElementInfo>)
    ensures FindLabel(idx, l).None? ==> r.None?
    ensures r.Some? ==> var anchor := FindLabel(idx, l).value;
      r.value in cands && RightNeighbour(anchor, r.value)
      && forall t :: t in cands && RightNeighbour(anchor, t) ==> Gap(anchor, r.value) <= Gap(anchor, t)
    ensures FindLabel(idx, l).Some? && r.None? ==> forall t :: t in cands ==> !RightNeighbour(FindLabel(idx, l).value, t)
    ensures r.Some? ==> var anchor := FindLabel(idx, l).value;
      exists i :: 0 <= i < |cands| && cands[i] == r.value
        && forall j :: 0 <= j < i && RightNeighbour(anchor, cands[j]) ==> Gap(anchor, r.value) < Gap(anchor, cands[j])
  {
    match FindLabel(idx, l)
    case None => None
    case Some(anchor) =>
      var ok, key := t => RightNeighbour(anchor, t), t => Gap(anchor, t);
      NearestFacts(cands, ok, key);
      match Nearest(cands, ok, key)
      case Some(i) => Some(cands[i])
      case None => None
  }

  /** VLabel: the candidate in the label's column, below it, with the smallest vertical gap. */
  function ResolveVLabel(idx: Index, cands: seq<ElementInfo>, l: string): (r: Option<ElementInfo>)
    ensures FindLabel(idx, l).None? ==> r.None?
    ensures r.Some? ==> var anchor := FindLabel(idx, l).value;
      r.value in cands && BelowNeighbour(anchor, r.value)
      && forall t :: t in cands && BelowNeighbour(anchor, t) ==> Drop(anchor, r.value) <= Drop(anchor, t)
    ensures FindLabel(idx, l).Some? && r.None? ==> forall t :: t in cands ==> !BelowNeighbour(FindLabel(idx, l).value, t)
    ensures r.Some? ==> var anchor := FindLabel(idx, l).value;
      exists i :: 0 <= i < |cands| && cands[i] == r.value
        && forall j :: 0 <= j < i && BelowNeighbour(anchor, cands[j]) ==> Drop(anchor, r.value) < Drop(anchor, cands[j])
  {
    match FindLabel(idx, l)
    case None => None
    case Some(anchor) =>
      var ok, key := t => BelowNeighbour(anchor, t), t => Drop(anchor, t);
      NearestFacts(cands, ok, key);
      match Nearest(cands, ok, key)
      case Some(i) => Some(cands[i])
      case None => None
  }

  /** The corner where the row label's right edge meets the column label's bottom edge. */
  function Cross(h: ElementInfo, v: ElementInfo): Position {
    Position(h.position.Right(), v.position.Bottom(), 1, 1)
  }

  /** In the row of `h`, the column of `v`, and not left of `h` nor above `v`. */
  predicate InCell(h: ElementInfo, v: ElementInfo, t: ElementInfo) {
    t.position.IsHorizontallyAlignedWith(h.position, DefaultHorizontalTolerance)
    && t.position.IsVerticallyAlignedWith(v.position, DefaultVerticalTolerance)
    && t.position.left >= h.position.Right()
    && t.position.top >= v.position.Bottom()
  }

  function CornerDistance(h: ElementInfo, v: ElementInfo, t: ElementInfo): int {
    t.position.DistanceSquaredTo(Cross(h, v))
  }

  /** HLabelVLabel: the candidate in both labels' cell closest to their corner. */
  function ResolveHLabelVLabel(idx: Index, cands: seq<ElementInfo>, hl: string, vl: string): (r: Option<ElementInfo>)
    ensures FindLabel(idx, hl).None? || FindLabel(idx, vl).None? ==> r.None?
    ensures r.Some? ==> var h := FindLabel(idx, hl).value; var v := FindLabel(idx, vl).value;
      r.value in cands && InCell(h, v, r.value)
      && forall t :: t in cands && InCell(h, v, t) ==> CornerDistance(h, v, r.value) <= CornerDistance(h, v, t)
    ensures FindLabel(idx, hl).Some? && FindLabel(idx, vl).Some? && r.None? ==>
      forall t :: t in cands ==> !InCell(FindLabel(idx, hl).value, FindLabel(idx, vl).value, t)
    ensures r.Some? ==> var h := FindLabel(idx, hl).value; var v := FindLabel(idx, vl).value;
      exists i :: 0 <= i < |cands| && cands[i] == r.value
        && forall j :: 0 <= j < i && InCell(h, v, cands[j]) ==> CornerDistance(h, v, r.value) < CornerDistance(h, v, cands[j])
  {
    match (FindLabel(idx, hl), FindLabel(idx, vl))
    case (Some(h), Some(v)) =>
      var ok, key := t => InCell(h, v, t), t => CornerDistance(h, v, t);
      NearestFacts(cands, ok, key);
      (match Nearest(cands, ok, key)
       case Some(i) => Some(cands[i])
       case None => None)
    case _ => None
  }

  /** The left anchor of HLabelHLabel: a label, else the first candidate with that text. */
  function LeftAnchor(idx: Index, cands: seq<ElementInfo>, l: string): (r: Option<ElementInfo>)
    ensures r.Some? ==> r.value.text == Some(l)
    ensures FindLabel(idx, l).Some? ==> r == FindLabel(idx, l)
    ensures r.None? <==> FindLabel(idx, l).None? && forall t :: t in cands ==> t.text != Some(l)
    ensures FindLabel(idx, l).None? && r.Some? ==>
      exists i :: 0 <= i < |cands| && cands[i] == r.value && forall j :: 0 <= j < i ==> cands[j].text != Some(l)
  {
    match FindLabel(idx, l)
    case Some(anchor) => Some(anchor)
    case None =>
      match FirstIndex(cands, HasText(l))
      case Some(i) => Some(cands[i])
      case None => None
  }

  predicate RightMatch(left: ElementInfo, rl: string, t: ElementInfo) {
    (t.text == Some(rl) || t.tooltip == Some(rl)) && RightNeighbour(left, t)
  }

  /**
   * HLabelHLabel: among the candidates right of the left anchor whose text or
   * tooltip is the right label, the one with the smallest gap.
   */
  function ResolveHLabelHLabel(idx: Index, cands: seq<ElementInfo>, ll: string, rl: string): (r: Option<ElementInfo>)
    ensures LeftAnchor(idx, cands, ll).None? ==> r.None?
    ensures r.Some? ==> var left := LeftAnchor(idx, cands, ll).value;
      r.value in cands && RightMatch(left, rl, r.value)
      && forall t :: t in cands && RightMatch(left, rl, t) ==> Gap(left, r.value) <= Gap(left, t)
    ensures LeftAnchor(idx, cands, ll).Some? && r.None? ==>
      forall t :: t in cands ==> !RightMatch(LeftAnchor(idx, cands, ll).value, rl, t)
    ensures r.Some? ==> var left := LeftAnchor(idx, cands, ll).value;
      exists i :: 0 <= i < |cands| && cands[i] == r.value
        && forall j :: 0 <= j < i && RightMatch(left, rl, cands[j]) ==> Gap(left, r.value) < Gap(left, cands[j])
  {
    match LeftAnchor(idx, cands, ll)
    case None => None
    case Some(left) =>
      var ok := t => RightMatch(left, rl, t);
      FilterMembers(cands, ok);
      var possible := Filter(cands, ok);
      if possible == [] then None
      else
        var key := t => Gap(left, t);
        NearestFacts(possible, Always, key);
        NearestFacts(cands, ok, key);
        MinOfFilterIsNearest(cands, ok, key);
        var i := Nearest(possible, Always, key).value;
        var n := Nearest(cands, ok, key).value;
        assert possible[i] == cands[n] && possible[i] in possible;
        Some(possible[i])
  }

  function Resolve(idx: Index, cands: seq<ElementInfo>, st: Strategy): Option<ElementInfo> {
    match st
    case Content(v) => ResolveContent(idx, v)
    case HLabel(l) => ResolveHLabel(idx, cands, l)
    case VLabel(l) => ResolveVLabel(idx, cands, l)
    case HLabelVLabel(h, v) => ResolveHLabelVLabel(idx, cands, h, v)
    case HLabelHLabel(l, r) => ResolveHLabelHLabel(idx, cands, l, r)
  }

  // ---------------------------------------------------------------------------
  // find_element.

  /** The one error `find_element` lets escape: the active window could not be read. */
  datatype FinderError = SapGuiCom

  /**
   * `find_element`: refresh the cache, then give up with no element when the
   * cache is empty, the locator does not parse, or no cached element has one
   * of the target types (also for a Content locator, which then searches the
   * whole cache); otherwise resolve the strategy and return the element's id.
   * Returns the cache the finder keeps afterwards.
   */
  function FindElement(c: Cache, s: Session, locator: string, targets: Option<seq<string>>)
    : (r: (Cache, Result<Option<string>, FinderError>))
    ensures r.0 == Refresh(c, s).cache
    ensures r.1.Failure? <==> ActiveWindowId(s).None?
    ensures r.1.Success? && r.1.value.Some? ==>
      && Parse(locator).Success?
      && Candidates(r.0.index, targets.GetOr(DefaultTargetTypes)) != []
      && exists e :: e in All(r.0.index) && e.id == r.1.value.value
  {
    var refreshed := Refresh(c, s);
    var cache := refreshed.cache;
    if refreshed.status.Failed? then (cache, Failure(SapGuiCom))
    else if cache.index == [] then (cache, Success(None))
    else match Parse(locator)
      case Failure(_) => (cache, Success(None))
      case Success(st) =>
        var cands := Candidates(cache.index, targets.GetOr(DefaultTargetTypes));
        if cands == [] then (cache, Success(None))
        else
          var found := Resolve(cache.index, cands, st);
          ResolvedIsCached(cache.index, targets.GetOr(DefaultTargetTypes), st);
          match found
          case None => (cache, Success(None))
          case Some(e) =>
            assert e in All(cache.index) && e.id == e.id;
            (cache, Success(Some(e.id)))
  }

  /** Whatever a strategy resolves to is a cached element. */
  lemma ResolvedIsCached(idx: Index, ks: seq<string>, st: Strategy)
    ensures var r := Resolve(idx, Candidates(idx, ks), st);
      r.Some? ==> r.value in All(idx)
  {
    var r := Resolve(idx, Candidates(idx, ks), st);
    if r.Some? {
      CandidatesAreCached(idx, ks, r.value);
    }
  }

  lemma {:induction false} LookupIsCached(idx: Index, t: string, e: ElementInfo)
    requires e in Lookup(idx, t)
    ensures e in All(idx)
  {
    if idx[0].kind != t {
      LookupIsCached(idx[1..], t, e);
    }
  }

  lemma {:induction false} CandidatesAreCached(idx: Index, ks: seq<string>, e: ElementInfo)
    ensures e in Candidates(idx, ks) || e in All(idx) ==> e in All(idx)
  {
    if ks != [] && e in Candidates(idx, ks) {
      if e in Lookup(idx, ks[0]) {
        LookupIsCached(idx, ks[0], e);
      } else {
        CandidatesAreCached(idx, ks[1..], e);
      }
    }
  }

  /**
   * After a scan, the candidates for a list of types are exactly the scanned
   * records of those types.
   */
  lemma ScannedCandidates(tree: Tree, root: nat, ks: seq<string>, e: ElementInfo)
    ensures e in Candidates(Scan(tree, root), ks) <==> e in VisitOrder(tree, [root], {}) && e.kind in ks
  {
    var visited := VisitOrder(tree, [root], {});
    ScanLoopIsGroupedVisitOrder(tree, [root], {}, []);
    LookupAllOfGroup(visited, ks);
    ByKindsMembers(visited, ks, e);
  }

  /** A second lookup in the same window reuses the cache the first one left. */
  lemma SecondLookupReusesCache(c: Cache, s: Session, l1: string, t1: Option<seq<string>>, l2: string, t2: Option<seq<string>>)
    requires ActiveWindowId(s).Some?
    ensures var c1 := FindElement(c, s, l1, t1).0;
      Refresh(c1, s).status.Reused? && FindElement(c1, s, l2, t2).0 == c1
  {
  }

  /**
   * Content matching tests text and tooltip element by element: an earlier
   * element whose tooltip matches wins over a later one whose text matches.
   */
  lemma ContentMatchesPerElement(p: Position)
    ensures var byTooltip := ElementInfo("a", "GuiButton", Some("Go"), Some("Save"), p, None, None);
      var byText := ElementInfo("b", "GuiButton", Some("Save"), None, p, None, None);
      ResolveContent([Bucket("GuiButton", [byTooltip, byText])], "Save") == Some(byTooltip)
  {
    var byTooltip := ElementInfo("a", "GuiButton", Some("Go"), Some("Save"), p, None, None);
    var byText := ElementInfo("b", "GuiButton", Some("Save"), None, p, None, None);
    assert All([Bucket("GuiButton", [byTooltip, byText])]) == [byTooltip, byText];
  }

  // A label with two fields on its row, the nearer one listed last.
  const ExampleLabel := ElementInfo("lbl", "GuiLabel", Some("User"), None, Position(10, 10, 40, 10), None, None)
  const ExampleNear := ElementInfo("f1", "GuiTextField", Some(""), None, Position(55, 10, 100, 10), None, Some(true))
  const ExampleFar := ElementInfo("f2", "GuiTextField", Some(""), None, Position(60, 12, 100, 10), None, Some(true))
  const ExampleIndex: Index := [Bucket("GuiLabel", [ExampleLabel]), Bucket("GuiTextField", [ExampleFar, ExampleNear])]

  lemma ExampleLookups()
    ensures FindLabel(ExampleIndex, "User") == Some(ExampleLabel)
    ensures Candidates(ExampleIndex, ["GuiTextField"]) == [ExampleFar, ExampleNear]
  {
    var idx := ExampleIndex;
    assert idx[1..] == [Bucket("GuiTextField", [ExampleFar, ExampleNear])];
    assert idx[1..][1..] == [];
    assert Lookup(idx, "GuiLabel") == [ExampleLabel];
    assert Lookup(idx, "GuiTextField") == [ExampleFar, ExampleNear];
    assert "GuiLabel"[3] != "GuiCTextField"[3] && "GuiTextField"[3] != "GuiCTextField"[3];
    assert Lookup(idx[1..][1..], "GuiCTextField") == [];
    assert Lookup(idx, "GuiCTextField") == [];
    var ks := LabelElementTypes;
    assert ks[1..] == ["GuiTextField", "GuiCTextField"] && ks[1..][1..] == ["GuiCTextField"] && ks[1..][1..][1..] == [];
    assert LookupAll(idx, ks[1..][1..]) == [];
    assert LookupAll(idx, ks[1..]) == [ExampleFar, ExampleNear];
    assert Candidates(idx, ks) == [ExampleLabel, ExampleFar, ExampleNear];
    assert FirstIndex(Candidates(idx, ks), HasText("User")) == Some(0);
    assert ["GuiTextField"][1..] == [];
    assert LookupAll(idx, ["GuiTextField"]) == Lookup(idx, "GuiTextField") + LookupAll(idx, []);
  }

  /** Of two fields on the label's row, the one with the smaller gap is chosen, wherever it is listed. */
  lemma HLabelExample()
    ensures ResolveHLabel(ExampleIndex, Candidates(ExampleIndex, ["GuiTextField"]), "User") == Some(ExampleNear)
  {
    ExampleLookups();
    assert RightNeighbour(ExampleLabel, ExampleFar) && RightNeighbour(ExampleLabel, ExampleNear);
    assert Gap(ExampleLabel, ExampleNear) == 5 && Gap(ExampleLabel, ExampleFar) == 10;
  }

  // The same label and the nearer field as controls of a window.
  const ExampleTree: Tree := [
    Node(Some("wnd"), Typed("GuiMainWindow"), None, None, None, None, None, true, Some([Some(1), Some(2)])),
    Node(Some("lbl"), Typed("GuiLabel"), Some("User"), None, None, None, Some(Position(10, 10, 40, 10)), false, None),
    Node(Some("f1"), Typed("GuiTextField"), Some(""), None, None, Some(true), Some(Position(55, 10, 100, 10)), false, None)]

  const ExampleScanned: Index := [Bucket("GuiLabel", [ExampleLabel]), Bucket("GuiTextField", [ExampleNear])]

  /** One visit of the scan: an unprocessed control is recorded, marked and its children queued. */
  lemma ScanVisit(tree: Tree, h: nat, queue: seq<nat>, processed: set<string>, idx: Index)
    requires Readable(tree, h) && tree[h].id.value !in processed
    ensures var id := tree[h].id.value;
      ScanLoop(tree, [h] + queue, processed, idx)
      == ScanLoop(tree, queue + Enqueued(tree[h]), processed + {id},
                  match Record(tree[h], id) case Some(e) => Add(idx, e) case None => idx)
  {
    assert ([h] + queue)[1..] == queue;
  }

  /** What the scan reads from each control of that window. */
  lemma ExampleRecords()
    ensures Record(ExampleTree[0], "wnd") == None && Enqueued(ExampleTree[0]) == [1, 2]
    ensures Record(ExampleTree[1], "lbl") == Some(ExampleLabel) && Enqueued(ExampleTree[1]) == []
    ensures Record(ExampleTree[2], "f1") == Some(ExampleNear) && Enqueued(ExampleTree[2]) == []
  {
    StripStripped("User");
    StripStripped("");
    var cs: seq<Option<nat>> := [Some(1), Some(2)];
    assert cs[1..][1..] == [];
    assert Present(cs[1..]) == [2];
  }

  /** The scan of that window caches the label and the field, each under its own type. */
  lemma ExampleScan()
    ensures Scan(ExampleTree, 0) == ExampleScanned
  {
    var t := ExampleTree;
    ExampleRecords();
    var i1 := [Bucket("GuiLabel", [ExampleLabel])];
    var i2 := i1 + [Bucket("GuiTextField", [ExampleNear])];
    assert Add([], ExampleLabel) == i1;
    assert Add(i1, ExampleNear) == i2 by {
      assert "GuiLabel"[3] != "GuiTextField"[3];
    }
    var p0, p1, p2: set<string> := {}, {"wnd"}, {"wnd", "lbl"};
    var none: seq<nat> := [];
    assert [0] + none == [0] && none + [1, 2] == [1] + [2] && p0 + {"wnd"} == p1;
    ScanVisit(t, 0, none, p0, []);
    ScanVisit(t, 1, [2], p1, []);
    assert p1 + {"lbl"} == p2 && [2] + none == [2] + none && none + none == none;
    ScanVisit(t, 2, none, p2, i1);
  }

  /** In the scanned cache, `User` finds the label, and the field right of it is chosen. */
  lemma ExampleScannedLookups()
    ensures Candidates(ExampleScanned, ["GuiTextField"]) == [ExampleNear]
    ensures ResolveHLabel(ExampleScanned, [ExampleNear], "User") == Some(ExampleNear)
  {
    var idx := ExampleScanned;
    assert idx[1..] == [Bucket("GuiTextField", [ExampleNear])] && idx[1..][1..] == [];
    assert Lookup(idx, "GuiLabel") == [ExampleLabel];
    assert Lookup(idx, "GuiTextField") == [ExampleNear];
    assert "GuiLabel"[3] != "GuiCTextField"[3] && "GuiTextField"[3] != "GuiCTextField"[3];
    assert Lookup(idx[1..][1..], "GuiCTextField") == [];
    assert Lookup(idx, "GuiCTextField") == [];
    var ks := LabelElementTypes;
    assert ks[1..] == ["GuiTextField", "GuiCTextField"] && ks[1..][1..] == ["GuiCTextField"] && ks[1..][1..][1..] == [];
    assert LookupAll(idx, ks[1..][1..]) == [];
    assert LookupAll(idx, ks[1..]) == [ExampleNear];
    assert Candidates(idx, ks) == [ExampleLabel, ExampleNear];
    assert FirstIndex(Candidates(idx, ks), HasText("User")) == Some(0);
    assert FindLabel(idx, "User") == Some(ExampleLabel);
    assert ["GuiTextField"][1..] == [];
    assert LookupAll(idx, ["GuiTextField"]) == Lookup(idx, "GuiTextField") + LookupAll(idx, []);
    assert RightNeighbour(ExampleLabel, ExampleNear);
  }

  /**
   * `find_element` end to end: a fresh finder scans the window, parses
   * `User` as a label, and returns the field right of the label.
   */
  lemma FindElementExample()
    ensures FindElement(Cleared, Session(ExampleTree, Some(0)), "User", Some(["GuiTextField"])).1 == Success(Some("f1"))
  {
    var s := Session(ExampleTree, Some(0));
    ExampleScan();
    assert ActiveWindowId(s) == Some("wnd");
    assert Refresh(Cleared, s).cache == Cache(Some("wnd"), ExampleScanned);
    LocatorParser.HLabelExample();
    ExampleScannedLookups();
    var targets: Option<seq<string>> := Some(["GuiTextField"]);
    assert Candidates(ExampleScanned, targets.GetOr(DefaultTargetTypes)) == [ExampleNear];
    assert Resolve(ExampleScanned, [ExampleNear], HLabel("User")) == Some(ExampleNear);
  }
}
