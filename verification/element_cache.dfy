/**
 * The element cache of element_finder.py: a breadth-first scan of the active
 * window's control tree into an index keyed by control type, and the
 * refresh rule that rescans only when the active window changes.
 */
module ElementCache {
  import opened Wrappers
  import opened Text
  import opened Locators

  /**
   * Reading a control's `Type`: its value, the attribute missing (the
   * `getattr` default applies), or a COM error, which abandons the control.
   */
  datatype TypeRead = Typed(name: string) | NoType | TypeRaised

  /**
   * One control of the window's tree as the scan can read it. `None` marks a
   * read that raised: for `id` the control is skipped, for the guarded
   * property reads the value is absent, for `children` the whole collection
   * was unreadable, and a `None` child is one whose access failed or returned
   * nothing. A `ContainerType` read that raises ends the control after its
   * record, which is `isContainer == false`.
   */
  datatype Node = Node(
    id: Option<string>,
    kind: TypeRead,
    text: Option<string>,
    tooltip: Option<string>,
    name: Option<string>,
    changeable: Option<bool>,
    box: Option<Position>,
    isContainer: bool,
    children: Option<seq<Option<nat>>>)

  /** The controls of a session, addressed by handle; a handle past the end is unreadable. */
  type Tree = seq<Node>

  const UnknownType: string := "Unknown"

  function StripRead(s: Option<string>): Option<string> {
    match s
    case Some(v) => Some(Strip(v))
    case None => None
  }

  /** The type a record is filed under: `getattr(component, "Type", "Unknown")`. */
  function TypeName(k: TypeRead): string
    requires !k.TypeRaised?
  {
    if k.Typed? then k.name else UnknownType
  }

  /**
   * The record the scan caches for a control: only when its type could be
   * read and it has a complete bounding box.
   */
  function Record(n: Node, id: string): (r: Option<ElementInfo>)
    ensures r.Some? <==> n.box.Some? && !n.kind.TypeRaised?
    ensures r.Some? ==> r.value.id == id && r.value.position == n.box.value
    ensures r.Some? ==> r.value.kind == if n.kind.Typed? then n.kind.name else UnknownType
    ensures r.Some? ==> (r.value.text.Some? <==> n.text.Some?) && (n.text.Some? ==> r.value.text.value == Strip(n.text.value))
    ensures r.Some? ==> (r.value.tooltip.Some? <==> n.tooltip.Some?) && (n.tooltip.Some? ==> r.value.tooltip.value == Strip(n.tooltip.value))
    ensures r.Some? ==> (r.value.name.Some? <==> n.name.Some?) && (n.name.Some? ==> r.value.name.value == Strip(n.name.value))
    ensures r.Some? ==> r.value.changeable == n.changeable
  {
    if n.kind.TypeRaised? then None
    else match n.box
      case None => None
      case Some(p) =>
        Some(ElementInfo(id, TypeName(n.kind), StripRead(n.text), StripRead(n.tooltip),
                         p, StripRead(n.name), n.changeable))
  }

  /**
   * The handles a control puts on the queue: only the readable children of a
   * container whose type could be read.
   */
  function Enqueued(n: Node): (r: seq<nat>)
    ensures !n.isContainer || n.kind.TypeRaised? ==> r == []
    ensures n.isContainer && !n.kind.TypeRaised? && n.children.Some? ==> r == Present(n.children.value)
  {
    if !n.isContainer || n.kind.TypeRaised? then []
    else match n.children
      case None => []
      case Some(cs) => Present(cs)
  }

  function Present(cs: seq<Option<nat>>): (r: seq<nat>)
    ensures forall h :: h in r <==> Some(h) in cs
  {
    if cs == [] then []
    else
      var rest := Present(cs[1..]);
      assert forall x :: x in cs <==> x == cs[0] || x in cs[1..];
      match cs[0]
      case Some(h) => [h] + rest
      case None => rest
  }

  /** Every readable control id of the tree. */
  function AllIds(tree: Tree): set<string> {
    set h | 0 <= h < |tree| && tree[h].id.Some? :: tree[h].id.value
  }

  /** The node a handle designates together with its readable id. */
  predicate Readable(tree: Tree, h: nat) {
    h < |tree| && tree[h].id.Some?
  }

  lemma MarkingShrinksUnvisited(all: set<string>, processed: set<string>, id: string)
    requires id in all && id !in processed
    ensures |all - (processed + {id})| < |all - processed|
  {
    assert all - (processed + {id}) == (all - processed) - {id};
  }

  /** An element of the tree: the cached record of some control. */
  ghost predicate RecordOfTree(tree: Tree, e: ElementInfo) {
    exists h :: 0 <= h < |tree| && tree[h].id == Some(e.id) && Record(tree[h], e.id) == Some(e)
  }

  // ---------------------------------------------------------------------------
  // The index: the source's `Dict[str, List[ElementInfo]]`, keys in insertion order.

  datatype Bucket = Bucket(kind: string, items: seq<ElementInfo>)

  type Index = seq<Bucket>

  /** `cache.get(t, [])`. */
  function Lookup(idx: Index, t: string): seq<ElementInfo> {
    if idx == [] then []
    else if idx[0].kind == t then idx[0].items
    else Lookup(idx[1..], t)
  }

  /** The keys in dictionary order. */
  function Kinds(idx: Index): seq<string> {
    if idx == [] then [] else [idx[0].kind] + Kinds(idx[1..])
  }

  /** `[item for sublist in cache.values() for item in sublist]`. */
  function All(idx: Index): seq<ElementInfo> {
    if idx == [] then [] else idx[0].items + All(idx[1..])
  }

  /** The elements of `xs` of type `t`, in order. */
  function OfKind(xs: seq<ElementInfo>, t: string): (r: seq<ElementInfo>)
    ensures forall e :: e in r <==> e in xs && e.kind == t
  {
    if xs == [] then []
    else
      assert forall e :: e in xs <==> e == xs[0] || e in xs[1..];
      (if xs[0].kind == t then [xs[0]] else []) + OfKind(xs[1..], t)
  }

  /** Appends `e` under its type, creating the key at the end when it is new. */
  function Add(idx: Index, e: ElementInfo): Index {
    if idx == [] then [Bucket(e.kind, [e])]
    else if idx[0].kind == e.kind then [Bucket(e.kind, idx[0].items + [e])] + idx[1..]
    else [idx[0]] + Add(idx[1..], e)
  }

  /** Adding appends `e` to its own type's list and leaves every other type's list alone. */
  lemma {:induction false} AddLookup(idx: Index, e: ElementInfo, t: string)
    ensures Lookup(Add(idx, e), t) == Lookup(idx, t) + (if e.kind == t then [e] else [])
  {
    if idx != [] && idx[0].kind != e.kind {
      AddLookup(idx[1..], e, t);
      assert Add(idx, e)[1..] == Add(idx[1..], e);
    } else if idx != [] {
      assert Add(idx, e)[1..] == idx[1..];
    }
  }

  /** Adding creates a key, at the end, only for a type not seen before. */
  lemma {:induction false} AddKinds(idx: Index, e: ElementInfo)
    ensures Kinds(Add(idx, e)) == if e.kind in Kinds(idx) then Kinds(idx) else Kinds(idx) + [e.kind]
  {
    if idx != [] && idx[0].kind != e.kind {
      AddKinds(idx[1..], e);
      assert Add(idx, e)[1..] == Add(idx[1..], e);
      assert Kinds(idx) == [idx[0].kind] + Kinds(idx[1..]);
    } else if idx != [] {
      assert Add(idx, e)[1..] == idx[1..];
    }
  }

  /** Adding loses and duplicates nothing. */
  lemma {:induction false} AddAll(idx: Index, e: ElementInfo)
    ensures multiset(All(Add(idx, e))) == multiset(All(idx)) + multiset{e}
  {
    if idx != [] && idx[0].kind != e.kind {
      AddAll(idx[1..], e);
      assert Add(idx, e)[1..] == Add(idx[1..], e);
    } else if idx != [] {
      assert Add(idx, e)[1..] == idx[1..];
    }
  }

  /** Adds the elements of `xs` one by one, as the scan does. */
  function Group(idx: Index, xs: seq<ElementInfo>): Index
    decreases |xs|
  {
    if xs == [] then idx else Group(Add(idx, xs[0]), xs[1..])
  }

  /** The distinct types of `xs` in order of first appearance, after those in `seen`. */
  function FirstKinds(seen: seq<string>, xs: seq<ElementInfo>): seq<string>
    decreases |xs|
  {
    if xs == [] then seen
    else FirstKinds(if xs[0].kind in seen then seen else seen + [xs[0].kind], xs[1..])
  }

  /** Grouping keeps each type's elements in their original order. */
  lemma {:induction false} LookupGroup(idx: Index, xs: seq<ElementInfo>, t: string)
    ensures Lookup(Group(idx, xs), t) == Lookup(idx, t) + OfKind(xs, t)
    decreases |xs|
  {
    if xs != [] {
      LookupGroup(Add(idx, xs[0]), xs[1..], t);
      AddLookup(idx, xs[0], t);
    }
  }

  /** Grouping orders the keys by first appearance. */
  lemma {:induction false} KindsGroup(idx: Index, xs: seq<ElementInfo>)
    ensures Kinds(Group(idx, xs)) == FirstKinds(Kinds(idx), xs)
    decreases |xs|
  {
    if xs != [] {
      KindsGroup(Add(idx, xs[0]), xs[1..]);
      AddKinds(idx, xs[0]);
    }
  }

  /** Grouping loses and duplicates nothing. */
  lemma {:induction false} AllGroup(idx: Index, xs: seq<ElementInfo>)
    ensures multiset(All(Group(idx, xs))) == multiset(All(idx)) + multiset(xs)
    decreases |xs|
  {
    if xs != [] {
      var a := Add(idx, xs[0]);
      calc {
        multiset(All(Group(idx, xs)));
        multiset(All(Group(a, xs[1..])));
        == { AllGroup(a, xs[1..]); }
        multiset(All(a)) + multiset(xs[1..]);
        == { AddAll(idx, xs[0]); }
        multiset(All(idx)) + multiset{xs[0]} + multiset(xs[1..]);
        == { assert xs == [xs[0]] + xs[1..]; }
        multiset(All(idx)) + multiset(xs);
      }
    }
  }

  // ---------------------------------------------------------------------------
  // The scan.

  /**
   * `_scan_window_elements`' loop as written: pop the head of the queue, skip
   * unreadable or already processed ids, cache the record of a control with
   * a bounding box under its type, and enqueue a container's children whether
   * or not the control itself had a box.
   */
  function ScanLoop(tree: Tree, queue: seq<nat>, processed: set<string>, idx: Index): Index
    decreases |AllIds(tree) - processed|, |queue|
  {
    if queue == [] then idx
    else
      var h := queue[0];
      if !Readable(tree, h) || tree[h].id.value in processed then
        ScanLoop(tree, queue[1..], processed, idx)
      else
        var node := tree[h];
        var id := node.id.value;
        MarkingShrinksUnvisited(AllIds(tree), processed, id);
        var idx' := match Record(node, id) case Some(e) => Add(idx, e) case None => idx;
        ScanLoop(tree, queue[1..] + Enqueued(node), processed + {id}, idx')
  }

  /** The records the scan meets, in breadth-first order: the reference the index is grouped from. */
  function VisitOrder(tree: Tree, queue: seq<nat>, processed: set<string>): (r: seq<ElementInfo>)
    decreases |AllIds(tree) - processed|, |queue|
    ensures forall i :: 0 <= i < |r| ==> r[i].id !in processed && RecordOfTree(tree, r[i])
    ensures forall i, j :: 0 <= i < j < |r| ==> r[i].id != r[j].id
  {
    if queue == [] then []
    else
      var h := queue[0];
      if !Readable(tree, h) || tree[h].id.value in processed then
        VisitOrder(tree, queue[1..], processed)
      else
        var node := tree[h];
        var id := node.id.value;
        MarkingShrinksUnvisited(AllIds(tree), processed, id);
        var rest := VisitOrder(tree, queue[1..] + Enqueued(node), processed + {id});
        match Record(node, id)
        case Some(e) =>
          assert RecordOfTree(tree, e);
          [e] + rest
        case None => rest
  }

  /** The loop's index is its starting index with the visited records grouped in. */
  lemma {:induction false} ScanLoopIsGroupedVisitOrder(tree: Tree, queue: seq<nat>, processed: set<string>, idx: Index)
    ensures ScanLoop(tree, queue, processed, idx) == Group(idx, VisitOrder(tree, queue, processed))
    decreases |AllIds(tree) - processed|, |queue|
  {
    if queue != [] {
      var h := queue[0];
      if !Readable(tree, h) || tree[h].id.value in processed {
        ScanLoopIsGroupedVisitOrder(tree, queue[1..], processed, idx);
      } else {
        var node := tree[h];
        var id := node.id.value;
        MarkingShrinksUnvisited(AllIds(tree), processed, id);
        var next := queue[1..] + Enqueued(node);
        match Record(node, id)
        case Some(e) =>
          ScanLoopIsGroupedVisitOrder(tree, next, processed + {id}, Add(idx, e));
          var rest := VisitOrder(tree, next, processed + {id});
          assert ([e] + rest)[1..] == rest;
        case None =>
          ScanLoopIsGroupedVisitOrder(tree, next, processed + {id}, idx);
      }
    }
  }

  /** A scan from the window's root control, starting from an empty index. */
  function Scan(tree: Tree, root: nat): Index {
    ScanLoop(tree, [root], {}, [])
  }

  /**
   * What a scan caches: each type's list holds that type's records in
   * breadth-first order, the keys follow first appearance, no control is
   * cached twice, and every entry is the record of a control with a box.
   */
  lemma ScanProperties(tree: Tree, root: nat)
    ensures var visited := VisitOrder(tree, [root], {});
      && (forall t :: Lookup(Scan(tree, root), t) == OfKind(visited, t))
      && Kinds(Scan(tree, root)) == FirstKinds([], visited)
      && multiset(All(Scan(tree, root))) == multiset(visited)
    ensures forall e :: e in All(Scan(tree, root)) ==> RecordOfTree(tree, e)
  {
    var visited := VisitOrder(tree, [root], {});
    ScanLoopIsGroupedVisitOrder(tree, [root], {}, []);
    forall t ensures Lookup(Scan(tree, root), t) == OfKind(visited, t) {
      LookupGroup([], visited, t);
    }
    KindsGroup([], visited);
    AllGroup([], visited);
    forall e | e in All(Scan(tree, root)) ensures RecordOfTree(tree, e) {
      assert e in multiset(All(Scan(tree, root)));
      assert e in multiset(visited);
    }
  }

  /** A control without a box is not cached, yet a container's children are still scanned. */
  lemma PositionlessContainerIsTraversed(tree: Tree, h: nat, rest: seq<nat>, processed: set<string>)
    requires Readable(tree, h) && tree[h].id.value !in processed
    requires tree[h].box.None? && !tree[h].kind.TypeRaised? && tree[h].isContainer && tree[h].children.Some?
    ensures VisitOrder(tree, [h] + rest, processed)
         == VisitOrder(tree, rest + Present(tree[h].children.value), processed + {tree[h].id.value})
  {
    assert ([h] + rest)[0] == h && ([h] + rest)[1..] == rest;
  }

  /**
   * A control whose type read raises is marked processed but neither cached
   * nor descended into.
   */
  lemma TypeErrorAbandonsControl(tree: Tree, h: nat, rest: seq<nat>, processed: set<string>)
    requires Readable(tree, h) && tree[h].id.value !in processed && tree[h].kind.TypeRaised?
    ensures VisitOrder(tree, [h] + rest, processed) == VisitOrder(tree, rest, processed + {tree[h].id.value})
  {
    assert ([h] + rest)[0] == h && ([h] + rest)[1..] == rest;
    assert rest + [] == rest;
  }

  predicate DistinctKinds(idx: Index) {
    forall i, j :: 0 <= i < j < |idx| ==> idx[i].kind != idx[j].kind
  }

  lemma KindsMembers(idx: Index)
    ensures forall t :: t in Kinds(idx) <==> exists i :: 0 <= i < |idx| && idx[i].kind == t
    ensures |Kinds(idx)| == |idx|
    ensures forall i :: 0 <= i < |idx| ==> Kinds(idx)[i] == idx[i].kind
  {
    if idx != [] {
      KindsMembers(idx[1..]);
      forall t ensures t in Kinds(idx) <==> exists i :: 0 <= i < |idx| && idx[i].kind == t {
        if t in Kinds(idx[1..]) {
          var i :| 0 <= i < |idx[1..]| && idx[1..][i].kind == t;
          assert idx[i + 1].kind == t;
        }
      }
    }
  }

  /** Adding keeps the keys distinct. */
  lemma AddKeepsKindsDistinct(idx: Index, e: ElementInfo)
    requires DistinctKinds(idx)
    ensures DistinctKinds(Add(idx, e))
  {
    var idx' := Add(idx, e);
    AddKinds(idx, e);
    KindsMembers(idx);
    KindsMembers(idx');
    forall i, j | 0 <= i < j < |idx'| ensures idx'[i].kind != idx'[j].kind {
      assert Kinds(idx')[i] == idx'[i].kind && Kinds(idx')[j] == idx'[j].kind;
    }
  }

  /** Grouping keeps the keys distinct, so a scanned index never holds a type twice. */
  lemma {:induction false} GroupKeepsKindsDistinct(idx: Index, xs: seq<ElementInfo>)
    requires DistinctKinds(idx)
    ensures DistinctKinds(Group(idx, xs))
    decreases |xs|
  {
    if xs != [] {
      AddKeepsKindsDistinct(idx, xs[0]);
      GroupKeepsKindsDistinct(Add(idx, xs[0]), xs[1..]);
    }
  }


  /** The concatenation of the lists stored under `ks`, in that order. */
  function LookupAll(idx: Index, ks: seq<string>): seq<ElementInfo> {
    if ks == [] then [] else Lookup(idx, ks[0]) + LookupAll(idx, ks[1..])
  }

  /** The concatenation of each type's elements of `xs`, types taken in the order `ks`. */
  function ByKinds(xs: seq<ElementInfo>, ks: seq<string>): seq<ElementInfo> {
    if ks == [] then [] else OfKind(xs, ks[0]) + ByKinds(xs, ks[1..])
  }

  lemma {:induction false} ByKindsMembers(xs: seq<ElementInfo>, ks: seq<string>, e: ElementInfo)
    ensures e in ByKinds(xs, ks) <==> e in xs && e.kind in ks
  {
    if ks != [] {
      ByKindsMembers(xs, ks[1..], e);
    }
  }

  lemma {:induction false} LookupAllSkipsHead(idx: Index, ks: seq<string>)
    requires idx != [] && idx[0].kind !in ks
    ensures LookupAll(idx, ks) == LookupAll(idx[1..], ks)
  {
    if ks != [] {
      LookupAllSkipsHead(idx, ks[1..]);
    }
  }

  lemma {:induction false} AllIsLookupAll(idx: Index)
    requires DistinctKinds(idx)
    ensures All(idx) == LookupAll(idx, Kinds(idx))
  {
    if idx != [] {
      KindsMembers(idx[1..]);
      assert DistinctKinds(idx[1..]) by {
        forall i, j | 0 <= i < j < |idx[1..]| ensures idx[1..][i].kind != idx[1..][j].kind {
          assert idx[1..][i] == idx[i + 1] && idx[1..][j] == idx[j + 1];
        }
      }
      AllIsLookupAll(idx[1..]);
      assert idx[0].kind !in Kinds(idx[1..]) by {
        forall i | 0 <= i < |idx[1..]| ensures idx[1..][i].kind != idx[0].kind {
          assert idx[1..][i] == idx[i + 1];
        }
      }
      LookupAllSkipsHead(idx, Kinds(idx[1..]));
    }
  }

  lemma {:induction false} LookupAllOfGroup(xs: seq<ElementInfo>, ks: seq<string>)
    ensures LookupAll(Group([], xs), ks) == ByKinds(xs, ks)
  {
    if ks != [] {
      LookupGroup([], xs, ks[0]);
      LookupAllOfGroup(xs, ks[1..]);
    }
  }

  /**
   * The flattened cache lists the scanned records grouped by type, types in
   * order of first appearance, not in tree order.
   */
  lemma ScanAllIsGroupedByKind(tree: Tree, root: nat)
    ensures var visited := VisitOrder(tree, [root], {});
      All(Scan(tree, root)) == ByKinds(visited, FirstKinds([], visited))
  {
    var visited := VisitOrder(tree, [root], {});
    ScanLoopIsGroupedVisitOrder(tree, [root], {}, []);
    GroupKeepsKindsDistinct([], visited);
    AllIsLookupAll(Group([], visited));
    KindsGroup([], visited);
    LookupAllOfGroup(visited, FirstKinds([], visited));
  }

  // ---------------------------------------------------------------------------
  // The cache and its refresh rule.

  /** The index together with the id of the window it was scanned from. */
  datatype Cache = Cache(windowId: Option<string>, index: Index)

  /** `_clear_cache`: no window and no elements. */
  const Cleared: Cache := Cache(None, [])

  /** A session: its controls and the handle of the active window (`None` when reading it raises). */
  datatype Session = Session(tree: Tree, activeWindow: Option<nat>)

  function ActiveWindowId(s: Session): Option<string> {
    match s.activeWindow
    case Some(h) => if Readable(s.tree, h) then s.tree[h].id else None
    case None => None
  }

  datatype RefreshStatus = Reused | Rescanned | Failed

  datatype Refreshed = Refreshed(cache: Cache, status: RefreshStatus)

  /**
   * `_check_and_refresh_cache`: a failure to read the active window clears
   * the cache (the caller then raises `SapGuiComException`); a window id
   * different from the cached one triggers a fresh scan; otherwise the cache
   * is kept as it is.
   */
  function Refresh(c: Cache, s: Session): (r: Refreshed)
    ensures r.status.Failed? <==> ActiveWindowId(s).None?
    ensures r.status.Failed? ==> r.cache == Cleared
    ensures !r.status.Failed? ==> r.cache.windowId == ActiveWindowId(s)
    ensures r.status.Rescanned? <==> ActiveWindowId(s).Some? && c.windowId != ActiveWindowId(s)
    ensures r.status.Reused? ==> r.cache == c
    ensures r.status.Rescanned? ==> r.cache.index == Scan(s.tree, s.activeWindow.value)
  {
    match ActiveWindowId(s)
    case None => Refreshed(Cleared, Failed)
    case Some(id) =>
      if c.windowId == Some(id) then Refreshed(c, Reused)
      else Refreshed(Cache(Some(id), Scan(s.tree, s.activeWindow.value)), Rescanned)
  }

  /** A second refresh against the same session never rescans. */
  lemma RefreshIsIdempotent(c: Cache, s: Session)
    ensures var r := Refresh(c, s);
      Refresh(r.cache, s) == (if r.status.Failed? then r else Refreshed(r.cache, Reused))
  {
  }
}
