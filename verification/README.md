# Semantic locators of sapscriptwizard, in Dafny

sapscriptwizard drives SAP GUI through its scripting interface. Its
semantic-locator layer finds a control on the active window by what a
person sees rather than by its technical id. The locator forms are:

- `=Save`: content, meaning the text or tooltip;
- `User`: the field right of a label;
- `@ Password`: the field below a label;
- `Row @ Column`: the field at a label crossing;
- `Left >> Right`: the element right of a labelled element.

This project models that layer and the small pieces of the parallel runner
and the table and window classes built around it.

- **Geometry** (`Locators`, locator_helpers.py): a screen rectangle with
  its derived edges and centres, the alignment and adjacency tests with
  the default tolerances 5, 8 and 25, the squared centre distance, the
  cached element record and the five strategies.
- **Parsing** (`LocatorParser`, `_parse_locator`): the stripped locator is
  classified with `=` first, then the first `>>`, then the first `@`,
  else it is a plain label. A malformed locator gives `InvalidFormat`. An
  index on exactly one side of `@` gives `Unsupported`. The canonical
  spelling of every well-formed strategy parses back to that strategy.
- **Element cache** (`ElementCache`, `_scan_window_elements` and
  `_check_and_refresh_cache`):
  - The window's control tree is a sequence of nodes addressed by
    handle. A guarded read that raises is `None`.
  - The scan is the source's breadth-first loop. It stops processing an
    id once seen, and caches only controls with a complete box. It still
    descends into a container without a box. A control whose `Type` read
    raises is dropped without descending into it.
  - The cache is a list of (type, elements) buckets in dictionary
    insertion order.
  - The refresh rescans exactly when the active window's id changes. It
    clears the cache when that id cannot be read.
- **Resolution** (`Resolver`, `find_element` and `_find_label_element`):
  - The label search covers the label types in order.
  - Each strategy selects the nearest qualifying candidate. The first one
    wins on a tie, as the source's strict `<` and Python's `min` do.
  - `find_element` gives up with no element when the cache is empty, the
    locator does not parse, or no element has a target type.
- **Runner** (`Runner`, parallel/runner.py):
  - the constructor's checks;
  - `_split_list`'s balanced chunks;
  - the session-opening loop under the six-session limit, and the choice
    of newly appeared sessions;
  - one worker per session with its chunk's data file.
- **API** (`Api`, parallel/api.py): reading comma-separated session
  indices, the session-limit arithmetic, and the plan chosen without
  interaction.
- **Table and window** (`ShellTable` and `WindowOps`):
  - row access by index and slice;
  - reading the status bar, and the polling verdict of
    `assert_status_bar`;
  - the locator wrappers of `Window`.

Python's `str.strip`, `str.split`, `in`, `isdigit` and `int` on ASCII
digits, `sorted(set(...))`, `min` and list slicing are modelled in `Text`,
`Sorting` and `ShellTable`. `Wrappers` holds `Option` and `Result`.

Two places where the code is followed over its documentation:

- A Content locator tests text and then tooltip element by element, so an
  earlier element matched by tooltip beats a later one matched by text.
  See `Resolver.ContentMatchesPerElement`.
- `exists_by_locator` reports an element whose id is the empty string as
  existing, while every action wrapper raises for it. See
  `WindowOps.ExistsAgreesWithActions`.

## Model

| member | source | states |
|---|---|---|
| Text.DropWhileFacts | element_finder.py:150 | the front part `strip` removes is all whitespace, the rest is a suffix of the input, and the rest is empty or starts with a non-space |
| Text.DropWhileEndFacts | element_finder.py:150 | the back part `strip` removes is all whitespace, the rest is a prefix of the input, and the rest is empty or ends with a non-space |
| Text.StripByFacts | element_finder.py:150 | a stripped string is a contiguous slice of its input, with no whitespace at either end and only whitespace outside it |
| Text.StripByIdentity | element_finder.py:150 | stripping leaves a string unchanged exactly when it has no whitespace at either end |
| Text.StripByIdempotent | element_finder.py:150 | stripping twice is stripping once |
| Text.IndexOfFrom | element_finder.py:157-158 | the index found is an occurrence of the pattern with none between the start point and it; none found means no occurrence at or after the start point |
| Text.IndexOfIsFirst | element_finder.py:158 | an occurrence with no earlier occurrence is the one `split(sep, 1)` splits at |
| Text.OccursAtChar | element_finder.py:165-166 | a one-character pattern occurs at a position exactly when that character is there |
| Text.Split | parallel/api.py:54 | `split(',')` gives at least one part, no part holds the separator, and the parts joined by it are the input |
| Text.SplitJoin | parallel/api.py:54 | splitting the join of separator-free parts gives the parts back |
| Text.ParseInt | parallel/api.py:54 | `int(t)` accepts exactly the digit strings with an optional `+` or `-` sign; the value is their decimal value, negated after `-` |
| Text.NatToString | window.py:297-304 | `str(n)` of a natural number is a non-empty string of digits whose decimal value is `n` |
| Text.IntToString | window.py:297-304 | `str(i)` is non-empty and made only of digits and `-` |
| Text.ParseIntToString | parallel/api.py:54 | `int(str(i)) == i` for every integer |
| Sorting.Insert | parallel/api.py:64 | inserting into a strictly increasing list keeps it strictly increasing, and its members are the old ones plus the new one |
| Sorting.SortedUnique | parallel/api.py:64 | `sorted(set(xs))` is strictly increasing with exactly the members of `xs` |
| Sorting.StrictlyIncreasingUnique | parallel/runner.py:264 | two strictly increasing lists with the same members are equal, so `sorted(set(...))` is determined by its set |
| Sorting.Min | parallel/api.py:275 | `min(xs)` is a member of `xs` and no member is smaller |
| Sorting.TakePrefix | parallel/runner.py:270 | `xs[:n]` is a prefix of `xs`, of length `min(n, len(xs))` when `n >= 0` |
| Locators.CentersAreFloorMidpoints | locator_helpers.py:23-28 | the centre is the floor of the midpoint: twice its offset is at most the size and the size is less than that plus two |
| Locators.AlignmentIsSymmetric | locator_helpers.py:30-37 | horizontal and vertical alignment hold in both directions or in neither |
| Locators.AdjacencyIsDual | locator_helpers.py:39-57 | `a` is right of `b` exactly when `b` is left of `a`, and below exactly when `b` is above |
| Locators.DefaultPredicates | locator_helpers.py:30-57 | with the default tolerances, alignment means centres within 5 or 8 pixels, and adjacency a gap from 0 to 25 pixels |
| Locators.Position.DistanceSquaredTo | locator_helpers.py:59-63 | the squared centre distance is never negative, and zero exactly when the two centres coincide |
| Locators.DistanceIsSymmetric | locator_helpers.py:59-63 | the squared centre distance is symmetric and zero from a rectangle to itself |
| LocatorParser.ParseStripped | element_finder.py:152-154 | a locator starting with `=` is Content of the stripped text after the `=`; otherwise the rules for unmarked locators apply |
| LocatorParser.ParseUnmarked | element_finder.py:156-162 | when a `>>` occurs, the result is HLabelHLabel or a format error and `@` plays no part; without one, the `@` and plain-label rules apply |
| LocatorParser.ParsePair | element_finder.py:158-162 | the `>>` form succeeds exactly when both stripped sides are non-empty, with those sides as its labels, and is a format error otherwise |
| LocatorParser.ParseNoPair | element_finder.py:164-200 | without `@`, a non-empty locator is a plain label and an empty one is a format error; with `@` the result is VLabel, HLabelVLabel or an error |
| LocatorParser.ParseAt | element_finder.py:166-193 | an empty left side with a non-empty right side gives VLabel of the right side; two non-index sides give HLabelVLabel of the sides with `"` stripped; exactly one index side gives `Unsupported`; anything else is a format error |
| LocatorParser.ParseRenderVLabel | element_finder.py:165-171 | `@label` parses back to VLabel for every well-formed label |
| LocatorParser.ParseRenderHLabelVLabel | element_finder.py:165-189 | `h@v` parses back to HLabelVLabel for well-formed, unquoted, non-index labels |
| LocatorParser.ParseRenderHLabelHLabel | element_finder.py:156-160 | `a>>b` parses back to HLabelHLabel for well-formed sides |
| LocatorParser.ParseRender | element_finder.py:148-200 | every well-formed strategy's canonical spelling parses back to that strategy |
| LocatorParser.ParseIgnoresSurroundingSpace | element_finder.py:150 | surrounding whitespace never changes how a locator parses |
| LocatorParser.ParsePriority | element_finder.py:150-200 | `=` decides before `>>`, `>>` before `@`, and a locator with none of them is a plain label |
| LocatorParser.ParsedLabelsNonEmpty | element_finder.py:156-197 | every label a successful parse returns is non-empty, except the quote-stripped labels of the `@` form |
| LocatorParser.UnsupportedIsIndexAt | element_finder.py:174-184 | `Unsupported` only arises from an `@` locator with digits on exactly one side and no `>>` |
| LocatorParser.ContentExample | element_finder.py:152-154 | `=Save` is Content `Save` |
| LocatorParser.HLabelExample | element_finder.py:195-197 | `User` is HLabel `User` |
| LocatorParser.HLabelHLabelExample | element_finder.py:156-160 | `A>>B` is HLabelHLabel of `A` and `B` |
| LocatorParser.EmptyExample | element_finder.py:195-200 | the empty locator is a format error |
| LocatorParser.ParseSpacedAt | element_finder.py:165-167 | single spaces around the `@` of `h @ v` are stripped from both sides |
| LocatorParser.ParseSpacedVLabel | element_finder.py:165-171 | `@ label` is the `@` form with an empty left side |
| LocatorParser.ParseLeadingAt | element_finder.py:165-171 | a locator starting with `@` takes the `@` branch with an empty left side |
| LocatorParser.VLabelExample | element_finder.py:169-171 | `@ Password` is VLabel `Password` |
| LocatorParser.ParseSpacedLabels | element_finder.py:185-189 | `h @ v` with plain, unquoted, non-index labels is HLabelVLabel of `h` and `v` |
| LocatorParser.HLabelVLabelExample | element_finder.py:185-189 | `User @ Password` is HLabelVLabel of `User` and `Password` |
| LocatorParser.IndexIndexExample | element_finder.py:190-191 | `5 @ 7` is a format error, not unsupported |
| LocatorParser.IndexLabelExample | element_finder.py:179-181 | `3 @ label` is unsupported |
| LocatorParser.StripQuoted | element_finder.py:187-188 | `strip('"')` removes exactly the enclosing quotes of a quoted text |
| LocatorParser.ParseQuotedLabel | element_finder.py:185-189 | in `"h" @ v` the quotes are stripped and `h` is a row label, even when it is a number |
| LocatorParser.QuotedIndexExample | element_finder.py:185-189 | `"5" @ Name` is HLabelVLabel of `5` and `Name`, not an index locator |
| ElementCache.Record | element_finder.py:83-122 | a control is recorded exactly when its type could be read and it has a complete box, under its own id, that box, and its type or `Unknown` when the attribute is missing; its text, tooltip and name are the stripped readings, absent when the read raised, and its changeable flag is the one read |
| ElementCache.Enqueued | element_finder.py:124-142 | only a container whose type could be read queues its children, and then exactly the accessible ones |
| ElementCache.Present | element_finder.py:130-133 | the children queued are exactly the accessible ones |
| ElementCache.MarkingShrinksUnvisited | element_finder.py:78-80 | marking an unprocessed id shrinks the set of unprocessed ids, which bounds the loop |
| ElementCache.OfKind | element_finder.py:119-121 | the elements of a type keep exactly the members of that type |
| ElementCache.AddLookup | element_finder.py:119-121 | appending a record extends its own type's list by it and leaves every other type's list alone |
| ElementCache.AddKinds | element_finder.py:119-120 | a new type's key is added at the end, and an existing type keeps the key order |
| ElementCache.AddAll | element_finder.py:119-121 | appending adds exactly that record to the cache's contents |
| ElementCache.LookupGroup | element_finder.py:119-121 | after appending a list of records, each type's list is extended by that type's records in their order |
| ElementCache.KindsGroup | element_finder.py:119-120 | after appending a list of records, the keys are in order of first appearance |
| ElementCache.AllGroup | element_finder.py:119-121 | appending loses and duplicates no record |
| ElementCache.VisitOrder | element_finder.py:70-142 | the records met in breadth-first order are records of the tree's controls, each id at most once and none already processed |
| ElementCache.ScanLoopIsGroupedVisitOrder | element_finder.py:63-142 | the scan's cache is the breadth-first records appended one by one |
| ElementCache.ScanProperties | element_finder.py:63-142 | after a scan, each type's list is that type's records in breadth-first order, keys follow first appearance, nothing is lost or duplicated, and every entry is the record of a control |
| ElementCache.PositionlessContainerIsTraversed | element_finder.py:108-133 | a container without a box is not cached, yet its children are scanned |
| ElementCache.TypeErrorAbandonsControl | element_finder.py:76-142 | a control whose type read raises is marked processed, yet neither cached nor descended into |
| ElementCache.AddKeepsKindsDistinct | element_finder.py:119-121 | appending never creates a second key for a type |
| ElementCache.GroupKeepsKindsDistinct | element_finder.py:119-121 | a cache built by appending has each type under one key |
| ElementCache.ByKindsMembers | element_finder.py:248-250 | gathering by a list of types keeps exactly the records of those types |
| ElementCache.AllIsLookupAll | element_finder.py:262 | the flattened cache is the lists of all keys concatenated in key order |
| ElementCache.LookupAllOfGroup | element_finder.py:248-250 | gathering candidates by type from appended records is gathering those records by type |
| ElementCache.ScanAllIsGroupedByKind | element_finder.py:262 | the flattened cache after a scan is grouped by type in order of first appearance, not in tree order |
| ElementCache.Refresh | element_finder.py:40-61 | an unreadable active window clears the cache and fails; a new window id triggers a rescan of that window; the same id keeps the cache |
| ElementCache.RefreshIsIdempotent | element_finder.py:40-48 | refreshing twice against the same session rescans at most once |
| Resolver.FirstIndex | element_finder.py:208-211 | the first element satisfying the test is found, none before it does, and nothing is found only when nothing satisfies it |
| Resolver.NearestFacts | element_finder.py:276-285 | the closest-candidate loop finds something exactly when a candidate qualifies; the one found qualifies and no qualifying key is smaller |
| Resolver.FilterMembers | element_finder.py:337-342 | the list comprehension keeps exactly the qualifying members |
| Resolver.MinOfFilterIsNearest | element_finder.py:344-345 | `min` with a key over the filtered list picks the same element as the closest-candidate loop |
| Resolver.FindLabel | element_finder.py:202-211 | the label found is the first label-type element, in label-type order, whose text is the label; none exactly when no such element exists |
| Resolver.ResolveContent | element_finder.py:260-270 | the element found is the first of the flattened cache whose text or tooltip is the value; none exactly when no cached element has it |
| Resolver.ResolveHLabel | element_finder.py:272-287 | the result is a candidate on the label's row right of it with the least gap, and every earlier such candidate has a larger gap; none only when the label is missing or no candidate qualifies |
| Resolver.ResolveVLabel | element_finder.py:289-304 | the result is a candidate in the label's column below it with the least drop, and every earlier such candidate has a larger drop; none only when the label is missing or no candidate qualifies |
| Resolver.ResolveHLabelVLabel | element_finder.py:306-329 | the result is a candidate in both labels' cell closest to their corner, and every earlier one in the cell is farther; none only when a label is missing or no candidate qualifies |
| Resolver.LeftAnchor | element_finder.py:333-334 | the left element is the label when there is one, else the first candidate with that text |
| Resolver.ResolveHLabelHLabel | element_finder.py:331-347 | the result is right of the left element on its row, has the right label as text or tooltip and the least gap, and every earlier such candidate has a larger gap; none only when no such candidate exists |
| Resolver.FindElement | element_finder.py:219-358 | the finder keeps the refreshed cache; it raises only when the window cannot be read; an id it returns belongs to a cached element, found under a parsed locator with at least one candidate |
| Resolver.ResolvedIsCached | element_finder.py:352-355 | every strategy resolves to a cached element |
| Resolver.LookupIsCached | element_finder.py:250 | an element stored under a type is in the flattened cache |
| Resolver.CandidatesAreCached | element_finder.py:248-250 | every candidate is a cached element |
| Resolver.ScannedCandidates | element_finder.py:245-250 | after a scan, the candidates are exactly the scanned records of the target types |
| Resolver.SecondLookupReusesCache | element_finder.py:40-48 | a second lookup in the same window reuses the cache the first left |
| Resolver.ContentMatchesPerElement | element_finder.py:263-270 | an earlier element matched by tooltip wins over a later one matched by text |
| Resolver.ExampleLookups | element_finder.py:202-211 | in a small window, the label is found and the text fields are the candidates in cache order |
| Resolver.HLabelExample | element_finder.py:278-285 | of two fields on the label's row, the one with the smaller gap is chosen even when listed last |
| Resolver.ExampleScan | element_finder.py:70-142 | scanning a window that holds a label and a field caches each under its own type, skipping the window itself, which has no box |
| Resolver.FindElementExample | element_finder.py:219-358 | from an empty cache, `find_element` scans the window, reads `User` as a label and returns the id of the field right of it |
| Runner.Configure | parallel/runner.py:64-79 | an unknown mode or existing mode without indices is rejected; success needs a positive count and exactly one data source, and both modes succeed when they have them; existing mode uses as many processes as indices |
| Runner.SplitList | parallel/runner.py:177-186 | `n` chunks that together are the input in order, chunk `i` of size `len // n` plus one for the first `len % n`; no chunks for `n <= 0` |
| Runner.Bounds | parallel/runner.py:182-183 | the chunk boundaries run from 0 to the length, each chunk's end being its start plus its size |
| Runner.ChunksOfSplit | parallel/runner.py:182-183 | the slices between consecutive boundaries join back to the input and have the balanced sizes |
| Runner.ChunkSlices | parallel/runner.py:183 | chunk `i` is the slice between boundaries `i` and `i + 1`, of its balanced size |
| Runner.EmptyChunks | parallel/runner.py:181 | chunks that are all empty join to the empty list |
| Runner.ChunksFlatten | parallel/runner.py:183 | the first `j` chunks join to the input up to where chunk `j` starts |
| Runner.OpenCommandsSent | parallel/runner.py:240-256 | every command sent found fewer than six sessions and succeeded; stopping early means the limit was reached or a command failed |
| Runner.NewlyOpened | parallel/runner.py:264-270 | the sessions used are new, strictly increasing, at most `n`, and the lowest of the new ones |
| Runner.FreshOf | parallel/runner.py:264 | the set difference keeps exactly the final indices not present initially |
| Runner.OpenSessions | parallel/runner.py:225-270 | without an existing session the opening fails; otherwise the newly opened sessions are used |
| Runner.PrepareDataFiles | parallel/runner.py:188-206 | one entry per chunk, absent exactly for an empty chunk, holding that chunk's data |
| Runner.LaunchWorkers | parallel/runner.py:297-302 | worker `i` gets session `i` and data file `i` when there is one |
| Runner.PlanCoversData | parallel/runner.py:133-144 | every item goes to exactly one worker in order, worker `i` gets session `i`, and the shares differ by at most one |
| Api.Tokens | parallel/api.py:54 | each part is stripped |
| Api.ParseAll | parallel/api.py:54 | parsing succeeds exactly when every non-blank token is an integer |
| Api.ParseAllSkipsBlanks | parallel/api.py:54 | the values are those of the non-blank tokens, in order: blank parts are skipped |
| Api.BlankTokenSkipped | parallel/api.py:54 | a blank part between two numbers is skipped |
| Api.ParseSessionIndices | parallel/api.py:51-67 | the input is accepted exactly when its parts parse, at least one number is given and all are available, and then the result is those numbers sorted without repeats |
| Api.ParseAllOfTokens | parallel/api.py:54 | the decimal spellings of integers parse back to those integers |
| Api.ParseFormatRoundTrip | parallel/api.py:51-67 | a selection written as comma-separated numbers reads back as itself |
| Api.CanOpen | parallel/api.py:177 | the sessions that can still be opened bring the count to exactly six, or are none |
| Api.InteractiveNewSessions | parallel/api.py:176-189 | the request is kept when the limit allows it, cut to the limit otherwise, and asked again only when nothing can be opened |
| Api.FindConnection | parallel/api.py:244 | the first connection with the index is found; none only when no connection has it |
| Api.DefaultConnection | parallel/api.py:229-238 | connection 0 when present, else the first connection reported |
| Api.NonInteractivePlan | parallel/api.py:228-275 | no connections, a limit that leaves no session, and a sequential run without a session are the three errors, each exactly in its case; parallel mode never plans a sequential run, uses the requested count cut to what the limit leaves, and runs nothing for a request of zero; sequential mode never plans a parallel run and uses the lowest session of the default connection |
| ShellTable.SliceBounds | shell_table.py:99-105 | the slice's first row and length stay inside the table |
| ShellTable.GetItem | shell_table.py:89-110 | an index is valid exactly from `-rows` to `rows - 1` and reads from the end when negative; a slice fails only for a step other than 1; other keys are type errors |
| ShellTable.SliceIsListSlice | shell_table.py:95-108 | a step-1 slice of the table selects the same rows as slicing a Python list |
| ShellTable.RowsFromBothEnds | shell_table.py:89-94 | every row can be read by its index from the start and from the end |
| WindowOps.GetStatusMessage | window.py:208-224 | a missing bar or empty text gives no message; a message has the bar's fields with the id stripped; other read errors raise |
| WindowOps.NumberMatchesDecimal | window.py:297-304 | an integer number criterion matches exactly the message number spelled as that integer |
| WindowOps.TextOnlyMatch | window.py:306-312 | with only a text criterion, the stripped texts must be equal |
| WindowOps.AssertStatusBar | window.py:226-352 | the polling loop's outcome is the documented verdict, decided by the first unexpected error, read error or matching message; with `fail_on_timeout`, success means some poll showed a matching message |
| WindowOps.UnexpectedErrorFails | window.py:326-331 | an unexpected error in the loop ends the call as a failed assertion, raising `StatusBarAssertionError` or returning `False`, with no retry |
| WindowOps.FindElementIdByLocator | window.py:1219-1237 | without a finder it raises; a finder error becomes no element; otherwise it is the finder's answer and the finder's cache |
| WindowOps.IdForAction | window.py:1239-1295 | a wrapper searches the types passed, else its own default types, and gets an id exactly when the lookup returned a non-empty one; it raises otherwise |
| WindowOps.ExistsByLocator | window.py:1297-1300 | existence is whether the lookup returned any id |
| WindowOps.ExistsAgreesWithActions | window.py:1239-1300 | whatever an action can find exists, and an element that exists but cannot be acted on has the empty id |

## Left out

- COM access: reading a property is a `Node` field. A guarded property
  read that raises is `None`. The `Type` read has three outcomes: a value,
  a missing attribute (recorded as `Unknown`), or an error that abandons the
  control. Python's truthiness of COM objects is not modelled beyond that.
- Logging, timing (`time.time`, `time.sleep`) and the status bar's polling
  clock: `assert_status_bar` is modelled over the sequence of polls made
  before the timeout.
- Regular-expression text criteria of `assert_status_bar`: regular
  expressions are outside this model.
- `str.isdigit` and `int` beyond ASCII: Unicode digits and underscores
  between digits in `int` are not modelled. `str.strip` does cover the
  whole `str.isspace` set.
- The interactive prompts of parallel/api.py (`input` loops, `sys.exit`,
  the connection and mode questions): only the limit arithmetic they feed
  and the non-interactive choices are modelled.
- Worker processes, temporary files, reading the input file, polars
  tables and writing `str(item)` lines: a data file is the chunk it would
  hold.
- `attach_window` and `open_new_window` failures other than a failed open
  command are not modelled.
- A second failure reading the root window's id while the scan starts is
  not modelled: the scan runs on the id the refresh read.
- The `float('inf')` start of the closest-candidate loops is `None` in
  `Resolver.Nearest`.
- Duplicate indices in existing mode are kept as given, as in the source.
- LocatorParser.Parse: the contract of `_parse_locator` is stated by the
  lemmas about it (`ParseRender`, `ParsePriority`, `UnsupportedIsIndexAt`,
  `ParsedLabelsNonEmpty`) rather than on `Parse` itself.
- Resolver.FindElement: its contract covers the cache, the error and the
  provenance of a returned id. Which element a strategy chooses is stated
  by the `Resolve*` contracts, not restated for the composition.
  `Resolver.FindElementExample` shows the composition on one window.
- The HIndexVLabel and HLabelVIndex strategies: the source does not
  implement them, so they are only the `Unsupported` parse result.
- The actions the wrappers perform (pressing, writing, reading, drawing on
  screen) are not modelled, only how they obtain the id. A wrapper called
  with an explicit `None` searches the finder's default types. The model
  treats that call the same as one that omits the argument.
