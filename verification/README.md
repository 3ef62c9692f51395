# Verified models of the page libraries

The portlet's own scripts are glue; what they stand on is two JavaScript libraries that the
repository carries with it. This project models the hard parts of both and proves what they
promise, or exactly when they keep the promise.

* **The selector engine of jQuery 1.4.4.** A selector is evaluated from right to left over an array
  of slots that each part rewrites in place. Walks to ancestors and siblings leave marks on the
  nodes, so that later walks can stop early; the nth-child test caches positions under the same
  marks. `Dom` holds document trees (a node is its path from the root), `Filtering` the marked nodes
  of a page as objects and the filter, `Walking` the memoised walks, `Selector` the declarative
  meaning of section 8 of CSS Selectors Level 3 and its relation to evaluation, `Sizzle` the main
  loop. `Incomplete`, `NameClash` and `Nulls` say exactly where evaluation goes wrong, with
  `SamplePage` as an example. `DocumentOrder` and `UniqueSort` are the fallback comparator and the
  duplicate pass.
* **The event registry and the fx queue of jQuery.** `Namespaces` gives the pattern for namespaces a
  regular-expression semantics of its own, `HandlerLists` says what binding and unbinding mean for
  the handler lists, `Removal` how `remove` calls itself and when that ends, `Events` is one
  element's registry with its native listeners, and `FxQueue` the queue with its sentinel.
* **The date arithmetic of datejs.** `Calendar` and `Clock` are time values as in sections 15.9.1.2
  to 15.9.1.13 of ECMA-262, 5th edition, without time zone; `Week` is `getWeek` over exact fifths
  against section 2.2.10 of ISO 8601:2004; `Dates` the methods that change a date.
* **The parser combinators and the format grammar of datejs.** `Operators`, `SetParser` and `Memo`
  are the combinators, `Format` the printer and `Grammar` the parser that inverts it;
  `PartialFormats` adds formats that show only some fields, `ExactParsing` which texts are accepted.

## How the code is represented

Objects whose methods change them are classes (`JsDate`, `Element`, `Queue`, `Cache`, `Node`,
`Page`, `SortState`), `checkSet` is an array that the steps overwrite, and loops are loops. Each such
method is proved against a function of its input or old state, and the promises are proved of that
function. A compound selector is a list of simple selectors: child tests are modelled in full, all
other tests are a fixed predicate on the node. The root of a tree is a document, a fragment or an
element. A parsing rule is any function from a string to a failure or a value with a rest.

## Where the code differs from what it promises

* A selector misses matches, in some document, exactly when, reading its combinators from right to
  left, a descendant combinator is followed by another kind, or `~` by `+`
  (`Incomplete.CompleteExactly`). All other chains are evaluated completely.
* A `>` step from the document throws for a tag word and otherwise leaves a null, which hides later
  candidates: `.c > :first-child > *` can return nothing though an element matches
  (`SamplePage.NullHidesMatch`, `SamplePage.NullNameThrows`). `Nulls.NullsExactly`,
  `Nulls.ThrowsExactly` and `Nulls.HidesExactly` say for which selectors this can happen on a page:
  only those with two `>` in a row, of which the right one has tests to its left that the document
  node passes. `Nulls.NullsAnywhere` covers detached trees.
* A leading combinator in a document context finds nothing, although elements match
  (`Selector.LeadingExactly`, `SamplePage.LeadingInDocument`).
* A tag word left of `~` is compared with the names of all earlier siblings, so a processing
  instruction of that name can hide an element or stand in for one
  (`NameClash.ClashKeepsWrongNode`). The exact condition is `NameClash.ClearExactly`; a doctype does
  no harm.
* `getWeek` is wrong in year 0 for January 1 and for the Sundays of January and February, and right
  on every later date (`Week.WeekNumberExact`, `Week.YearZeroFails`).
* `set` with a month and a year but no day clamps by the wrong year when it goes to February
  through a common year into a leap year (`Dates.ClampLeaks`).
* `cache` answers with an inherited member for inputs such as `constructor`, and turns exceptions
  of other kinds into results (`Memo.TransparentExactly`).
* `sequence` of a single rule ignores the delimiter and the closing rule
  (`Operators.SingleRuleExactly`).
* A function on the fx queue that signals completion twice lets two functions run at once
  (`FxQueue.SecondSignalBreaks`); the exact tolerance is `FxQueue.AllowedExactly`.
* `remove` with a bare namespace or without types ignores a given handler
  (`Removal.HandlerIgnoredExactly`). Binding `.foo` binds the blank type; then `remove` without types
  calls itself without end, and so does `remove` without a handler whose later word, such as the `.x`
  of `click .x`, reaches an entry of that type (`Removal.EndsExactly`, `Removal.LaterWordSinks`).
* A time parsed without a date falls on today, but one in the first minute of the day on the first
  of the month, and with a month but no day January counts as no month
  (`PartialFormats.TimeOnlyExactly`, `PartialFormats.JanuaryIsNoMonth`).
* Printing and parsing are inverse for years 100 to 9999 only: years 0 to 99 come back in the 20th
  century (0 as the present year), longer years lose their leading digits, and years -999 to -1
  do not parse (`Grammar.RoundTrip`).

## Model

| member | source | states |
|---|---|---|
| Selector.EvaluationIsSound | component/images/webapp/images/jquery/jquery-1.4.4.js:3109-3156 | for every tree, context and chain of the four combinators whose later-sibling tag words do not clash (exactly: `NameClash.ClearExactly`), and every candidate that is an element or from which the first walk meets no clash: a slot that is kept has nodes for all parts, each related to the next by its combinator and described by its part, the leftmost inside the context |
| Selector.EvaluationIsComplete | component/images/webapp/images/jquery/jquery-1.4.4.js:3109-3156 | for every such chain without a bad pair of neighbouring combinators that does not begin with a combinator in a non-element context: every candidate with a declarative match is kept; greedy nearest search loses nothing |
| Incomplete.BadShapeMisses | component/images/webapp/images/jquery/jquery-1.4.4.js:3351-3438 | for every combinator list with a bad pair it builds a document, parts and a candidate that matches declaratively but is not kept |
| Incomplete.CompleteExactly | component/images/webapp/images/jquery/jquery-1.4.4.js:3109-3156 | a combinator list is evaluated completely in all documents if and only if it has no bad pair (reading leftwards, `' '` is followed only by `' '`, and `~` never by `+`); names that clash and leading combinators outside elements apart, which have their own exact lemmas |
| Selector.StepLosesNothing | component/images/webapp/images/jquery/jquery-1.4.4.js:3351-3438 | if the chain can go on from some node related to the present one, the single node the step picks is one from which it can go on as well |
| Selector.NearestIs | component/images/webapp/images/jquery/jquery-1.4.4.js:4192-4264 | the node a walk looks for is an ancestor or earlier sibling that is accepted and nearer than every other accepted one, and false means there is none |
| Selector.RelationsAreLinks | component/images/webapp/images/jquery/jquery-1.4.4.js:3363-3401 | the relations of the four combinators in terms of parent and previous-sibling links |
| Selector.InsideIsBelow | component/images/webapp/images/jquery/jquery-1.4.4.js:3143-3147 | inside an element context are the elements of which it is an ancestor, not the context itself |
| Selector.NoNulls | component/images/webapp/images/jquery/jquery-1.4.4.js:3376-3409 | no slot becomes null where no step that can lead to the root is followed, leftwards, by a `>` that needs a parent; for every tree, whatever its root |
| Nulls.NullsExactly | component/images/webapp/images/jquery/jquery-1.4.4.js:3376-3409 | on pages, some slot can become null in a chain of a given look if and only if it has two child combinators in a row, the first with tests to its left that the document node passes, the second not beginning the selector |
| Nulls.ThrowsExactly | component/images/webapp/images/jquery/jquery-1.4.4.js:3382-3392 | on pages, evaluation can throw in a chain of a given look if and only if a tag word stands left of such a `>` that the document node can come to: by passing its tests, or by failing them behind a null, where the in-place filter does not look |
| Nulls.HidesExactly | component/images/webapp/images/jquery/jquery-1.4.4.js:3139-3156 | on pages, a chain can return less than it keeps without throwing if and only if its look has such a pair not followed by a tag word |
| Nulls.NullsAnywhere | component/images/webapp/images/jquery/jquery-1.4.4.js:3376-3409 | in trees of any root, detached elements included, slots can become null for exactly the combinator lists with `>` to the left of `>` or of a descendant combinator |
| SamplePage.NullHidesMatch | component/images/webapp/images/jquery/jquery-1.4.4.js:3397-3406 | `.c > :first-child > *` on html and b of a small page: the slot of html ends null, b matches, and nothing is returned |
| SamplePage.NullNameThrows | component/images/webapp/images/jquery/jquery-1.4.4.js:3389-3390 | `div > :first-child > *` on html throws |
| Selector.LeadingExactly | component/images/webapp/images/jquery/jquery-1.4.4.js:3119-3123 | a selector of good shape that begins with a combinator is evaluated exactly if and only if its context is an element or nothing matches |
| Selector.LeadingFindsNothing | component/images/webapp/images/jquery/jquery-1.4.4.js:3139-3156 | with a context that is no element it finds nothing |
| SamplePage.LeadingInDocument | component/images/webapp/images/jquery/jquery-1.4.4.js:3399-3401 | `> *` in the document: html matches and is not kept |
| NameClash.ClearExactly | component/images/webapp/images/jquery/jquery-1.4.4.js:4212-4215 | in a given document and for a given tag word, all chains without a bad pair, with only that word left of a `~` and no leading combinator outside elements, are evaluated exactly, for all contexts and all elements as candidates, if and only if no non-element node of that name has an element after it and an element as its parent or before it |
| NameClash.ClearForAllExactly | component/images/webapp/images/jquery/jquery-1.4.4.js:4212-4215 | the same for all nodes as candidates, texts and comments included, where any node after the misleading one is enough |
| NameClash.ClashKeepsWrongNode | component/images/webapp/images/jquery/jquery-1.4.4.js:4212-4215 | `div > span ~ *` on a paragraph after a processing instruction named span: kept, though there is no span element |
| NameClash.PagesAreClear | component/images/webapp/images/jquery/jquery-1.4.4.js:4192-4223 | where such nodes only stand before the first element of the document, as a doctype does, no tag word clashes |
| NameClash.DoctypeIsFine | component/images/webapp/images/jquery/jquery-1.4.4.js:4212-4215 | a document with the doctype html is such a page |
| Walking.Walk.Run | component/images/webapp/images/jquery/jquery-1.4.4.js:4192-4264 | from any marks that differ from the fresh name, every node slot ends as its nearest match in the plain, unmarked search, whatever the walks in other slots and inner filters have marked |
| Walking.Walk.One | component/images/webapp/images/jquery/jquery-1.4.4.js:4193-4222 | one slot's walk gives the plain search result and every mark it leaves leads, through the slot it names, to the right answer for later walks |
| Walking.Walk.Visit | component/images/webapp/images/jquery/jquery-1.4.4.js:4234-4259 | one node of a walk: either it decides the search, with the right answer, or the answer is that of the next node on; marks left on the way stay right |
| Sizzle.ChildStep | component/images/webapp/images/jquery/jquery-1.4.4.js:3376-3409 | in place, every node slot becomes its parent and the part is then judged up to the first null; it fails exactly when a tag word meets a parentless node |
| Sizzle.NextStep | component/images/webapp/images/jquery/jquery-1.4.4.js:3352-3374 | in place, every node slot becomes its nearest earlier element sibling, judged up to the first null |
| Sizzle.WalkBack | component/images/webapp/images/jquery/jquery-1.4.4.js:3363 | stops at the nearest earlier sibling that is an element, or at none |
| Sizzle.WalkStep | component/images/webapp/images/jquery/jquery-1.4.4.js:3411-3437 | the descendant and later-sibling steps under a fresh name equal the step defined without marks |
| Sizzle.RelativeStep | component/images/webapp/images/jquery/jquery-1.4.4.js:3123 | the dispatch on the combinator refines one specified step of the whole array, nulls and unfiltered slots included, and fails exactly where that throws |
| Sizzle.Evaluate | component/images/webapp/images/jquery/jquery-1.4.4.js:3102-3156 | popping parts from the right and rewriting one array throws exactly when some step meets a parentless node with a tag word, and otherwise returns what evaluating each candidate alone keeps, up to the first null |
| Sizzle.ThrowsMeansNull | component/images/webapp/images/jquery/jquery-1.4.4.js:3109-3124 | if evaluation throws, some candidate alone comes to a null |
| Sizzle.CollectedExactly | component/images/webapp/images/jquery/jquery-1.4.4.js:3143-3155 | the collecting loop returns all that is kept if and only if no kept candidate stands behind a null |
| Sizzle.NothingHidden | component/images/webapp/images/jquery/jquery-1.4.4.js:3109-3156 | where no step slips, nothing throws and nothing is hidden |
| Sizzle.ResultsMatch | component/images/webapp/images/jquery/jquery-1.4.4.js:3139-3156 | everything returned is a candidate with a declarative match, for every chain without clashing names |
| Sizzle.ResultsAreMatching | component/images/webapp/images/jquery/jquery-1.4.4.js:3109-3156 | for a chain without a bad pair the result is exactly the matching candidates in their order if and only if no null hides one; where no step slips none does and nothing throws |
| Filtering.Page.Filter | component/images/webapp/images/jquery/jquery-1.4.4.js:3229-3318 | copying mode returns, in order, exactly the items that pass all simple selectors, whatever order the parts are peeled off, and writes only marks under fresh names |
| Filtering.Page.FilterInPlace | component/images/webapp/images/jquery/jquery-1.4.4.js:3229-3318 | in-place mode sets exactly the failing nodes to false up to the first null and leaves every other slot alone |
| Filtering.Page.FilterOnce | component/images/webapp/images/jquery/jquery-1.4.4.js:3266-3285 | one copying pass keeps in order the items that pass that selector |
| Filtering.Page.FilterInPlaceOnce | component/images/webapp/images/jquery/jquery-1.4.4.js:3266-3300 | one in-place pass falsifies exactly the failing nodes, and stopping when nothing passed or nothing was tested changes nothing further |
| Filtering.SelectedSplit | component/images/webapp/images/jquery/jquery-1.4.4.js:3229-3318 | filtering by any one selector and then by the others is filtering by all: the order of peeling does not matter |
| Filtering.ModesAgree | component/images/webapp/images/jquery/jquery-1.4.4.js:3266-3291 | the nodes left standing by the in-place mode are, in order, what the copying mode returns |
| Filtering.Page.NthChild | component/images/webapp/images/jquery/jquery-1.4.4.js:3726-3756 | with any interleaving of nth tests and walks on the same parents, the cached test answers whether the item is the (an+b)th element child of its parent, and keeps the cache right |
| Filtering.Page.NumberChildren | component/images/webapp/images/jquery/jquery-1.4.4.js:3738-3746 | the counting loop makes the cached index of every child its one-based position among element siblings and disturbs no other parent's cache |
| Filtering.Page.IndexOfChild | component/images/webapp/images/jquery/jquery-1.4.4.js:3749 | a child's cached index is its position among element siblings, 0 if it is no element |
| Dom.NthTestExact | component/images/webapp/images/jquery/jquery-1.4.4.js:3749-3756 | for all integers a, b and indexes: the test holds if and only if some n >= 0 has a*n+b equal to the index (section 6.6.5.2 of CSS Selectors Level 3) |
| Filtering.ChildEnds | component/images/webapp/images/jquery/jquery-1.4.4.js:3702-3724 | the first-, last- and only-child loops, with their shared fall-through, answer the tests whose meaning is `Filtering.ChildTestsExactly` |
| Filtering.ChildTestsExactly | component/images/webapp/images/jquery/jquery-1.4.4.js:3702-3724 | a node passes the first-, last- or only-child test if and only if no element sibling stands before it, after it, or at all |
| Filtering.NthChildExactly | component/images/webapp/images/jquery/jquery-1.4.4.js:3726-3756 | an element with a parent passes the nth test if and only if its index is a*n+b for some n >= 0 |
| Filtering.ElementIndexCounts | component/images/webapp/images/jquery/jquery-1.4.4.js:3740-3744 | that index is the number of elements among its siblings up to itself |
| Filtering.OwnNameAndFeatures | component/images/webapp/images/jquery/jquery-1.4.4.js:3266-3285 | of the other tests a node passes that of its own name and those of its own features |
| Filtering.SeesElement | component/images/webapp/images/jquery/jquery-1.4.4.js:3705-3722 | a sibling loop in one direction finds an element exactly if one stands there |
| DocumentOrder.PathOrderIsPreorder | component/images/webapp/images/jquery/jquery-1.4.4.js:3887-3958 | document order of two nodes of one tree is the sign of the difference of their preorder positions |
| DocumentOrder.PositionIsPreorder | component/images/webapp/images/jquery/jquery-1.4.4.js:3887-3958 | the position used is the place of the node in the preorder listing of the tree |
| DocumentOrder.OrderIsTotal | component/images/webapp/images/jquery/jquery-1.4.4.js:3887-3958 | the order is 0 only for identical nodes, antisymmetric and transitive |
| DocumentOrder.AncestorFirst | component/images/webapp/images/jquery/jquery-1.4.4.js:3936-3939 | a strict ancestor precedes its descendants |
| DocumentOrder.SiblingCheck | component/images/webapp/images/jquery/jquery-1.4.4.js:3942-3958 | scanning next siblings answers which of two siblings is earlier, and the given value for the same node |
| DocumentOrder.ParentChain | component/images/webapp/images/jquery/jquery-1.4.4.js:3912-3924 | the loop of `unshift`s lists the strict ancestors from the root down |
| DocumentOrder.SortState.SortOrder | component/images/webapp/images/jquery/jquery-1.4.4.js:3887-3940 | the comparator with its early exits, parent chains and final sibling check returns the sign of the difference of preorder positions, and raises the duplicate flag exactly for identical nodes |
| UniqueSort.DuplicatesMeet | component/images/webapp/images/jquery/jquery-1.4.4.js:3170-3185 | any sort that only compares must compare two equal items when there are any, so leaving the flag down is proof that there are none |
| UniqueSort.InsertionSorts | component/images/webapp/images/jquery/jquery-1.4.4.js:3173 | sorts of that kind exist for every number of items: insertion sort is one |
| UniqueSort.Sort | component/images/webapp/images/jquery/jquery-1.4.4.js:3172-3173 | sorting orders the nodes weakly, keeps the set, and leaves the flag down only if the order is strict |
| UniqueSort.UniqueSort | component/images/webapp/images/jquery/jquery-1.4.4.js:3170-3185 | the result is strictly in document order with the same set of nodes as the input, whether or not the splice loop ran |
| Events.Element.Add | component/images/webapp/images/jquery/jquery-1.4.4.js:1842-1962 | binding appends one entry per word to that type's list, and the registry invariant (a listener exactly for each non-empty list, all with one handler function) is kept |
| Events.Element.RemoveWords | component/images/webapp/images/jquery/jquery-1.4.4.js:2014-2101 | for a string of words each named list loses exactly the entries that match by guid and namespaces, emptied types and their listeners go, and a positional call deletes no entry |
| Events.Element.RemoveEach | component/images/webapp/images/jquery/jquery-1.4.4.js:2037-2048 | without a handler, the loop that calls `remove` for each entry and splices while it iterates equals the direct filter |
| Events.Element.RemoveAt | component/images/webapp/images/jquery/jquery-1.4.4.js:2041-2044 | one round of it, by a word with a name: the call with a position followed by the splice removes exactly the entry at that place, and the type with its last entry |
| Events.Element.RemoveByGuid | component/images/webapp/images/jquery/jquery-1.4.4.js:2050-2081 | the direct route filters by guid and namespaces; the positional one deletes nothing but an about-to-be-empty type |
| Events.Element.Remove | component/images/webapp/images/jquery/jquery-1.4.4.js:1971-2101 | every call of `remove` that comes to an end (exactly: `Removal.EndsExactly`), from all types, by a string of words, or with the position that it passes to itself, keeps the registry invariant and leaves the specified registry |
| Events.Element.RemoveEverywhere | component/images/webapp/images/jquery/jquery-1.4.4.js:2001-2010 | the loop over the bound types, one call of `remove` each, in any order, leaves of every list what neither its own word nor a further word asks for |
| Removal.EndsExactly | component/images/webapp/images/jquery/jquery-1.4.4.js:2001-2048 | in a model of the nested calls to any depth, through types, words and entries, a call of `remove` ends if and only if: from all types, the blank type is not bound; by words, a handler is given or no word without a name reaches an entry of the blank type. Then three levels are enough, and it leaves what is specified whatever the order of the types |
| Removal.BlankTypeSinks | component/images/webapp/images/jquery/jquery-1.4.4.js:2001-2010 | binding `.foo` binds the blank type, and `unbind()` then needs more than any depth of calls |
| Removal.LaterWordSinks | component/images/webapp/images/jquery/jquery-1.4.4.js:2037-2045 | after binding `click` and `.x`, `unbind("click .x")` needs more than any depth: for the matching entry it calls itself with `.x` |
| Removal.HandlerIgnoredExactly | component/images/webapp/images/jquery/jquery-1.4.4.js:2001-2010 | without types the handler is dropped: the result is what was asked for if and only if none is given or every entry in reach has its guid |
| Removal.HandlerIgnored | component/images/webapp/images/jquery/jquery-1.4.4.js:2001-2010 | two functions on click: `unbind()` with one takes both away |
| HandlerLists.RemoveAllLists | component/images/webapp/images/jquery/jquery-1.4.4.js:2016-2082 | after a string of words the list of a type is the old one, in order, without the entries that some word for the type asks for |
| HandlerLists.AddAllLists | component/images/webapp/images/jquery/jquery-1.4.4.js:1906-1962 | after a string of words the list of a type is the old one followed by one entry for every word of that type, in order |
| HandlerLists.LastAdded | component/images/webapp/images/jquery/jquery-1.4.4.js:1907-1925 | the entry that is added holds the function that was bound, under a guid of its own if there is one and else the function's |
| HandlerLists.UndottedReachesAll | component/images/webapp/images/jquery/jquery-1.4.4.js:2037-2060 | a word without a dot reaches the entries of all namespaces: without a handler nothing stays of the type, with one exactly the entries of other guids |
| HandlerLists.UndottedUndoesDotted | component/images/webapp/images/jquery/jquery-1.4.4.js:2019 | a handler bound with namespaces goes when its type is unbound without any |
| HandlerLists.DottedSparesPlain | component/images/webapp/images/jquery/jquery-1.4.4.js:2057 | a word with namespaces spares what was bound without any |
| HandlerLists.LiveIsBeginning | component/images/webapp/images/jquery/jquery-1.4.4.js:2016 | the loops over words end before the first empty one |
| HandlerLists.KeepIsFilter | component/images/webapp/images/jquery/jquery-1.4.4.js:2052-2060 | after removal no entry that was asked for is left and every other keeps its multiplicity |
| HandlerLists.KeepConcat | component/images/webapp/images/jquery/jquery-1.4.4.js:2052-2060 | removal treats parts of a list independently and keeps their order |
| HandlerLists.HitByNamespaces | component/images/webapp/images/jquery/jquery-1.4.4.js:2057 | a namespaced removal reaches a handler exactly if its namespaces include all those asked for, with multiplicity |
| HandlerLists.RemoveUndoesAdd | component/images/webapp/images/jquery/jquery-1.4.4.js:1906-1962 | unbinding what was just bound restores the registry when no other entry of that type has the guid |
| Events.Play | component/images/webapp/images/jquery/jquery-1.4.4.js:1906-2091 | after every run of add and remove calls, those for the whole element included, a native listener is attached for exactly the types with a handler list, and no list is empty |
| Namespaces.NamespaceTest | component/images/webapp/images/jquery/jquery-1.4.4.js:2027-2028 | for word names the sorted, joined pattern matches the sorted, joined namespaces of a handler if and only if the query is a sub-multiset of them |
| Namespaces.PatternIsSubsequence | component/images/webapp/images/jquery/jquery-1.4.4.js:2228-2232 | under the semantics of regular expressions the pattern finds exactly the queries that are subsequences of the dotted list |
| Namespaces.IncludedIsSubsequence | component/images/webapp/images/jquery/jquery-1.4.4.js:1915 | between sorted lists, inclusion as multisets implies being a subsequence |
| Namespaces.SubsequenceIsIncluded | component/images/webapp/images/jquery/jquery-1.4.4.js:2229 | a subsequence is included as a multiset |
| FxQueue.QueueProtocol | component/images/webapp/images/jquery/jquery-1.4.4.js:1334-1397 | over every run in which each started function signals at most once: the sentinel is at most at the head, there exactly while a function runs, no two functions run at once, started followed by pending is the enqueue order, and an idle queue is drained |
| FxQueue.StepKeeps | component/images/webapp/images/jquery/jquery-1.4.4.js:1357-1379 | each enqueue and each allowed signal keeps the protocol invariant |
| FxQueue.SignalStartsNext | component/images/webapp/images/jquery/jquery-1.4.4.js:1357-1379 | a signal starts exactly the oldest pending function, or drains the queue |
| FxQueue.AllowedExactly | component/images/webapp/images/jquery/jquery-1.4.4.js:1375-1377 | a signal keeps the invariant if and only if its function has not signalled before or the queue is already drained |
| FxQueue.SecondSignalBreaks | component/images/webapp/images/jquery/jquery-1.4.4.js:1375-1377 | a concrete run in which signalling twice has two functions running at once |
| FxQueue.Queue.Dequeue | component/images/webapp/images/jquery/jquery-1.4.4.js:1357-1379 | shifts away the sentinel, takes the next function, puts the sentinel back in front and starts the function |
| FxQueue.Queue.Enqueue | component/images/webapp/images/jquery/jquery-1.4.4.js:1383-1397 | appends the function and starts it when no function is running |
| FxQueue.Play | component/images/webapp/images/jquery/jquery-1.4.4.js:1334-1397 | a run of steps on a queue object is the run on values, so the protocol's conclusions hold of the object |
| Calendar.FieldsOfMadeDay | component/images/webapp/images/jquery/plugins/datejs/core.js:12 | a day number made from a valid year, month and date has those fields |
| Calendar.MadeDayOfFields | component/images/webapp/images/jquery/plugins/datejs/core.js:12 | every day number has valid fields by the library's month table and is made from them |
| Calendar.YearLength | component/images/webapp/images/jquery/plugins/datejs/core.js:12 | consecutive years start 365 days apart, 366 for a leap year of the library's rule |
| Calendar.Epoch | component/images/webapp/images/jquery/plugins/datejs/core.js:12 | day 0 is Thursday, 1 January 1970 |
| Week.WeekNumberExact | component/images/webapp/images/jquery/plugins/datejs/core.js:23-25 | for every date from year 0 on, `getWeek` is the ISO week if and only if the date is not a Sunday or January 1 in January or February of year 0 |
| Week.YearZeroFails | component/images/webapp/images/jquery/plugins/datejs/core.js:23-25 | January 1 of year 0: 1 instead of 52 |
| Week.WeekNumberIsIso | component/images/webapp/images/jquery/plugins/datejs/core.js:23-25 | from year 1 on `getWeek` is the ISO 8601 week number |
| Week.IsoWeekIsTheWeek | component/images/webapp/images/jquery/plugins/datejs/core.js:23-25 | the reference: every day lies in exactly one week of exactly one ISO year by the standard's Monday-to-Sunday, first-Thursday definition, and these are the functions used |
| Week.FractionCancels | component/images/webapp/images/jquery/plugins/datejs/core.js:23-24 | over exact fifths the unfloored term disappears: `f+3-d` is an integer, the day of the year of the week's Thursday |
| Week.LastWeek | component/images/webapp/images/jquery/plugins/datejs/core.js:24 | in the branch `n<0` the answer is the number of the previous year's last week |
| Week.WeeksInYear | component/images/webapp/images/jquery/plugins/datejs/core.js:24 | an ISO year has 52 or 53 weeks, and these lead to the next year's first Thursday |
| Dates.JsDate.AddMonths | component/images/webapp/images/jquery/plugins/datejs/core.js:14 | through the intermediate first of the month, the month count moves by exactly v and the date becomes the smaller of the old one and the target month's length; the time of day stays |
| Dates.ClampedFields | component/images/webapp/images/jquery/plugins/datejs/core.js:14 | the day so reached has exactly those fields |
| Dates.JsDate.Set | component/images/webapp/images/jquery/plugins/datejs/core.js:26-36 | applies the requested fields in the source's order or stops at the first invalid one, with all earlier fields applied (`Dates.SetKeeps`, `Dates.FirstBadExactly` and `Dates.BeforeExactly` say what these are) |
| Dates.JsDate.SetClock | component/images/webapp/images/jquery/plugins/datejs/core.js:26-29 | each given clock field replaces that field of the time of day and nothing else |
| Dates.JsDate.SetCalendar | component/images/webapp/images/jquery/plugins/datejs/core.js:30-32 | month, year and day steps with their clamps, and validation of the day against the month reached |
| Dates.SetIsExact | component/images/webapp/images/jquery/plugins/datejs/core.js:26-36 | a complete valid request yields exactly its seven fields from any starting date: no intermediate clamp shows |
| Dates.SetKeeps | component/images/webapp/images/jquery/plugins/datejs/core.js:26-36 | every valid request, with any fields missing: given fields come out as given, the others stay, and a missing date is cut to the new month, or to 28 where `ClampLeaks` says so |
| Dates.FirstBadExactly | component/images/webapp/images/jquery/plugins/datejs/core.js:25-35 | a request is refused at the first field, in the source's order, that is out of its range, the day judged by the month and year the request leads to |
| Dates.BeforeExactly | component/images/webapp/images/jquery/plugins/datejs/core.js:26-35 | the fields applied before an error are exactly the earlier ones |
| Dates.ClampLeaks | component/images/webapp/images/jquery/plugins/datejs/core.js:30-32 | without a day in the request the old date survives up to the target month's length if and only if it is not a move to February through a common year into a leap year from a date of 29 or more |
| Dates.ClampLeaksInFebruary | component/images/webapp/images/jquery/plugins/datejs/core.js:30-31 | from 31 January 2011 to February 2012: the 28th |
| Dates.JsDate.SetWeek | component/images/webapp/images/jquery/plugins/datejs/core.js:25 | moves to the Monday strictly after and then by whole weeks |
| Dates.SetWeekLands | component/images/webapp/images/jquery/plugins/datejs/core.js:25-39 | the result is the nth Monday of the ISO year of the Monday strictly after the start, and `getWeek` answers n if and only if that ISO year has a week n |
| Dates.JsDate.MoveToDayOfWeek | component/images/webapp/images/jquery/plugins/datejs/core.js:39 | with the source's signed remainder it lands on the first such weekday strictly after, or the last strictly before |
| Dates.JsDate.MoveToNthOccurrence | component/images/webapp/images/jquery/plugins/datejs/core.js:36-39 | the composition of moves lands on the specified occurrence and keeps the time of day |
| Dates.NthIsNth | component/images/webapp/images/jquery/plugins/datejs/core.js:36-39 | that day is of weekday w with exactly n-1 earlier ones in the month, and it leaves the month if and only if the month has fewer than n |
| Dates.LastIsLast | component/images/webapp/images/jquery/plugins/datejs/core.js:37-38 | -1 gives a day of weekday w inside the month after which the month has no other |
| Dates.OtherOccurrences | component/images/webapp/images/jquery/plugins/datejs/core.js:36-39 | 0 and the numbers below -1 move to the first such weekday |
| Dates.MonthEnds | component/images/webapp/images/jquery/plugins/datejs/core.js:36 | the month's start and end used here have that month and the dates 1 and its length |
| Dates.JsDate.SayWeekday | component/images/webapp/images/jquery/plugins/datejs/date-af-ZA.js:52-56 | the weekday sugar in its three modes; it throws exactly when the occurrence lies beyond the month's end |
| Dates.JsDate.SayNthWeekday | component/images/webapp/images/jquery/plugins/datejs/date-af-ZA.js:52-56 | an ordinal followed by a weekday, the second that `second()` adds being taken back: same outcome as the plain move |
| Clock.FieldsOfTime | component/images/webapp/images/jquery/plugins/datejs/core.js:26-29 | day, hour, minute, second and millisecond of a time value made from valid fields are those fields |
| Clock.TimeHasFields | component/images/webapp/images/jquery/plugins/datejs/core.js:26-29 | every time value has valid fields and is made from them |
| Operators.Many | component/images/webapp/images/jquery/plugins/datejs/date-af-ZA.js:72-74 | for a consuming rule `many` ends, its values are those of repeated application, it stops where it must, and leaves a suffix if the rule does |
| Operators.ManyIsUnique | component/images/webapp/images/jquery/plugins/datejs/date-af-ZA.js:72-74 | that outcome is determined |
| Operators.Sequence | component/images/webapp/images/jquery/plugins/datejs/date-af-ZA.js:84-91 | succeeds exactly when some k >= 1 leading rules match, separated by the delimiter, with no delimiter after the kth and the closing rule agreeing, and gives each rule's own value on its own text; a single rule is returned as it is |
| Operators.EndedIsUnique | component/images/webapp/images/jquery/plugins/datejs/date-af-ZA.js:84-91 | such a run is the only one: its length, texts, values and rest are determined |
| Operators.SingleRuleExactly | component/images/webapp/images/jquery/plugins/datejs/date-af-ZA.js:84 | a sequence of one rule reads what the general rule would if and only if the rule fails, or no delimiter follows and the closing rule has nothing against it |
| Operators.SingleRuleAccepts | component/images/webapp/images/jquery/plugins/datejs/date-af-ZA.js:84 | one rule followed by a delimiter: it succeeds, the general rule would fail |
| SetParser.Search | component/images/webapp/images/jquery/plugins/datejs/date-af-ZA.js:91-97 | the exhaustive search returns a chain that uses each rule at most once, whose rest is the shortest over all such chains in any order (the first such in the scan's order) |
| SetParser.Set | component/images/webapp/images/jquery/plugins/datejs/date-af-ZA.js:91-101 | nothing and the whole input when every rule fails, and otherwise the values of the best chain with the closing rule applied to its rest; never anything but some valid chain, even for rules that do not consume |
| SetParser.BestIsUnique | component/images/webapp/images/jquery/plugins/datejs/date-af-ZA.js:91-97 | what is best is determined, values and rest: shortest rest first, then the earlier rules, so the search order fixes one outcome |
| SetParser.BestFromTail | component/images/webapp/images/jquery/plugins/datejs/date-af-ZA.js:94-96 | prefixing a rule to the best chain of the remaining rules gives the best chain that starts with it |
| Memo.Cache.Call | component/images/webapp/images/jquery/plugins/datejs/date-af-ZA.js:77-78 | one call answers as the rule would through an empty cache, and fills only its own slot |
| Memo.CallAll | component/images/webapp/images/jquery/plugins/datejs/date-af-ZA.js:77-78 | the same for every history of calls |
| Memo.TransparentExactly | component/images/webapp/images/jquery/plugins/datejs/date-af-ZA.js:77-78 | the cache is transparent on an input if and only if it is not the name of a member every object inherits and the rule does not throw a foreign exception |
| Memo.ConstructorIsInherited | component/images/webapp/images/jquery/plugins/datejs/date-af-ZA.js:77-78 | on the text `constructor` a cache answers with an inherited member |
| Memo.ForeignIsReturned | component/images/webapp/images/jquery/plugins/datejs/date-af-ZA.js:77-78 | a foreign exception comes back as a value |
| Format.TokenizersAgree | component/images/webapp/images/jquery/plugins/datejs/core.js:46-48 | printing in one pass equals printing the pieces the grammar reads, for every format without backslash, `S` or `z` |
| Format.PadFour | component/images/webapp/images/jquery/plugins/datejs/core.js:9-10 | the four places of a year are its last four digits, except that years -999 to -1 show a sign |
| Grammar.EscapedPrints | component/images/webapp/images/jquery/plugins/datejs/core.js:47 | a backslash before a token prints the token's letters |
| Grammar.ReadFormat | component/images/webapp/images/jquery/plugins/datejs/date-af-ZA.js:139 | `many` over the token-or-literal rule splits the whole format into its pieces |
| Grammar.PiecesOfJoined | component/images/webapp/images/jquery/plugins/datejs/date-af-ZA.js:139 | a format put together from pieces that do not merge is read back as those pieces |
| Grammar.Each | component/images/webapp/images/jquery/plugins/datejs/date-af-ZA.js:81-84 | the loop over the rules of a format: all of them in a row, or failure |
| Grammar.PiecesBack | component/images/webapp/images/jquery/plugins/datejs/date-af-ZA.js:139 | text printed from the pieces parses to the setters of the printed fields with nothing left, unless a sign stands in the year's places |
| Grammar.SettersSet | component/images/webapp/images/jquery/plugins/datejs/date-af-ZA.js:105-109 | in whatever order and however often, the setters set exactly the fields that occur to the printed values |
| Grammar.RoundTrip | component/images/webapp/images/jquery/plugins/datejs/date-af-ZA.js:139-145 | for every format of separators and the six tokens in which each field occurs, parsing what was printed gives the date back if and only if it is a whole second and its year is 100 to 9999 (or a non-zero multiple of 10000 that is the present year) |
| Grammar.WrittenRoundTrip | component/images/webapp/images/jquery/plugins/datejs/date-af-ZA.js:139-145 | the same with the token rules as they are written |
| Grammar.WhatComesBack | component/images/webapp/images/jquery/plugins/datejs/date-af-ZA.js:105-116 | and for every date it says what comes back |
| PartialFormats.PartialBack | component/images/webapp/images/jquery/plugins/datejs/date-af-ZA.js:105-116 | for formats in which some of the six fields do not occur: the shown fields come back, a missing hour, minute or second is 0, a missing year or month is the present one, and a missing day is 1, or today's for a time that counts as alone |
| PartialFormats.DateOnly | component/images/webapp/images/jquery/plugins/datejs/date-af-ZA.js:106-116 | a date printed without a time comes back as the midnight of that day |
| PartialFormats.TimeOnlyExactly | component/images/webapp/images/jquery/plugins/datejs/date-af-ZA.js:106-109 | a time printed without a date comes back on today's date if and only if it is not in the first minute of the day, or today is a first |
| PartialFormats.JanuaryIsNoMonth | component/images/webapp/images/jquery/plugins/datejs/date-af-ZA.js:106 | month and time without a day: the day is 1, but today's in January |
| ExactParsing.AcceptsExactly | component/images/webapp/images/jquery/plugins/datejs/date-af-ZA.js:139-145 | a text of digits and separators is accepted by a format with each field once if and only if it is, as a whole, the text of numbers in their ranges, and it is read as these |
| ExactParsing.TextParses | component/images/webapp/images/jquery/plugins/datejs/date-af-ZA.js:105-116 | the text of full fields is parsed as exactly these fields, or rejected if the month has no such day |
| ExactParsing.ThirtiethOfFebruary | component/images/webapp/images/jquery/plugins/datejs/date-af-ZA.js:114 | 30 February is rejected in every format |
| ExactParsing.OrdinalTaken | component/images/webapp/images/jquery/plugins/datejs/date-af-ZA.js:139 | behind a day an ordinal ending is taken |
| ExactParsing.ParsedPrints | component/images/webapp/images/jquery/plugins/datejs/date-af-ZA.js:139-145 | a text with full fields that parses is what printing the date gives, so printing and parsing are inverse on both sides |
| ExactParsing.SamplePrints | component/images/webapp/images/jquery/plugins/datejs/core.js:46-48 | 4 March 2011, 05:06:07 prints as `2011-03-04T05:06:07` by the sortable pattern |
| Grammar.CachedRoundTrip | component/images/webapp/images/jquery/plugins/datejs/date-af-ZA.js:139-145 | the same with the token rules behind their caches, whose inherited members no printed text can name |
| Grammar.SmallYears | component/images/webapp/images/jquery/plugins/datejs/date-af-ZA.js:115 | dates of the years 1 to 99 come back 1900 years later |
| Grammar.YearFifty | component/images/webapp/images/jquery/plugins/datejs/date-af-ZA.js:115 | New Year's Day of year 50 comes back in 1950 |
| Grammar.RoundTripOfPieces | component/images/webapp/images/jquery/plugins/datejs/date-af-ZA.js:139-145 | the same stated for any list of pieces that do not merge |
| Grammar.SortableFormat | component/images/webapp/images/jquery/plugins/datejs/date-af-ZA.js:9 | the culture's sortable pattern is such a format |

## Left out

- Splitting a selector string into parts and simple selectors: parts and simple selectors are given, and which simple selector is peeled off next is left open.
- The search for the rightmost part (`Sizzle.find`) and the leftwards-only path through `posProcess`: the candidates are given.
- Positional selectors and `:not`: their index semantics differ between the two modes of the filter.
- The CLASS test as a pre-filter: it counts as a found pass where an ordinary test reports none; the array or list that results is the same.
- Attribute and pseudo tests on non-elements, where some browsers throw; other tests are one predicate on a node's features.
- `querySelectorAll`, `compareDocumentPosition`, `contains` and other calls into the browser; nodes of several trees in one `sortOrder`.
- UniqueSort.UniqueSort: the browser's sort is any decision tree of comparisons that sorts; one fixed algorithm of a browser is not.
- A type named like a member that every object inherits, such as `constructor`: the registry is a plain object and would find that member in place of a handler list; the model's registry has none.
- Type strings are given as their words, each with its name and namespaces; splitting a string at blanks and dots is not modelled.
- The order in which `for in` goes through the bound types is a parameter, a function of the registry.
- Live, special and delegated events, event dispatch, plain objects as event targets, and the `elem` and global bookkeeping fields of the registry.
- Handler functions get their guid before they are bound; a guid assigned inside `add` is not modelled, and neither is a handler that is `false` or missing.
- Events.Element.RemoveEach: the handler list is a sequence in a map field with a local copy spliced in step; JavaScript's sharing of the array object is not modelled.
- Explicit `dequeue` and `clearQueue` by user code, array replacement, and queues of other types than fx.
- Time zones, daylight saving, invalid dates, and the range limit of time values.
- Rounding in `getWeek`: the arithmetic is exact, `|0` truncates without 32-bit wrap-around (years stay below 275761).
- Week.WeekNumberExact: years before 0, where the truncated leap counts differ further.
- Dates.SetWeekLands: week numbers are claimed from year 0 on, where `Week.WeekNumberExact` holds.
- `getISOWeek` and the shared fields it leaves for `getWeek`; `moveToMonth`, `add` and the conversion of zones in `set`.
- Dates.JsDate.MoveToDayOfWeek: orientations other than +1 and -1 are not modelled; nor are `next`, `last`, `same` and the argument forms of the ordinals.
- `any`, `optional`, `not`, `process`, `replace`, `ignore` and the other one-line combinators, and the vector and generator wrappers.
- `Translator.finish` for relative phrases, and the meridian and time zone in `finishExact`.
- The cache of whole format parsers, keyed by the format string; the caches of the token rules are in `Grammar.CachedRoundTrip`.
- Tokens of the format grammar other than the six; they are a parameter of printer and parser. Single-letter format patterns, and literals with characters that mean something in a regular expression, are not part of this model.
- Format.TokenizersAgree: a backslash, `S` and `z` are read differently by printer and grammar, so formats with them are outside.
