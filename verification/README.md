# Models of the selector engine, callbacks and lock protocols

The repository is a collection of Java exercises together with a web project that carries
jQuery 3.1.1 and, inside it, Sizzle 2.3.3. This project models its algorithms with the most
state and states what they promise.

**Selector engine.** `Dom` is a finite ordered tree whose nodes are paths of child indices.
`Selector` compiles a token list into a right-to-left matcher and proves that the matcher
decides the declarative meaning of section 8 of Selectors Level 3. `Memo` is the engine with
the records that combinators leave on elements: one mutable record per walk, shared by every
element the walk visits, and one slot per element and direction that all combinators compete
for. Its invariant is stratified by `doneName`: records of lower combinators are settled while
a walk of a higher one is in progress. `Run` compiles a selector list and runs it over an
engine full of records of earlier runs. `DocumentOrder`, `UniqueSort`, `NthChild` and
`SeededMerge` model the fallback comparator, the in-place removal of duplicates, the cached
`:nth-child` and the merge of two sources of matches.

**Callbacks, Deferred, then.** `Callbacks` is the callback list as a state machine: JavaScript
runs one callback at a time, so a run is a sequence of operations in which a return marks that
the running callback has ended; operations between a call and its return are nested ones. Its
history (rosters, calls, withdrawals, accepted values) only records. `CallbackList` is the
closure with its variables updated in place, each method proved against the state machine.
`Deferred` wires two such lists; `DeferredObject` is that object over two `CallbackList`s.
`Then` is the depth counter of `then` with the stack of closures in progress (section 2.3.3.3.3
of Promises/A+), each in one of the places where it runs foreign code, and `ThenObject` the same
in place, settling a `DeferredObject`.

**Strings and tables.** `Escape` (CSS identifiers, section 2.1 of CSSOM), `ClassList` (class
names in padded text), `Namespaces` (the regular expression that selects event handlers) and
`EventTable` (handlers of one element, dispatch order, cloning).

**Java concurrency.** `TwinsLock` and `Handoff` are step systems for any number of threads in
which every atomic action is a step of its own. `ForkJoin` is the divide-and-conquer sum with
32-bit wrap-around and truncating division written out. `Collections` holds what several
modules share.

What the models show that a reader may not expect:

- `then`: a superseded source *can* settle the new deferred, in two ways. Between the test of
  `depth < maxDepth` and the attempt foreign code can run: the getter of a `then` property, or
  the exceptionHook, which reads the `name` of what was thrown. If such code has another thenable
  adopted, a value still resolves, and an exception still rejects because the second test allows
  a difference of one (`Then.IntrusionIsPossible`, `Then.HookIntrusionIsPossible`). Over every
  run, exactly this decides (`Then.LatestSettlesIff`).
- Positional selector lists: a group like `:first.foo` un-matches what other groups have matched
  before it and what lacks the class (`SeededMerge.UnmatchedByLater`), so the result of a list
  need not be the union of its groups (`SeededMerge.MatchedIsUnionIff`).
- `hasClass` also finds several class names in a row joined by single spaces, and finds the
  empty string on an element without classes (`ClassList.ContainsIsFinds`).
- `Sizzle.escape`: the parser's own `identifier` expression does not read the escapes that are
  written as code points with a closing space, such as a leading digit's, as one identifier
  (`Escape.EscapedIsIdentifier`), although unescaping undoes them.
- `CountTask`: a split is proper exactly when `start + end` does not overflow
  (`ForkJoin.SplitIsProperIff`).

Parameters that stand for the outside: filters, positional filters and post finders are
arbitrary functions; the platform's sort is any sorted permutation; the fairness test of the
lock answers anything; the functions handed to callback lists and to `then` may do anything that
the operations allow.

## Model

| member | source | states |
|---|---|---|
| Selector.MatcherFromTokens | TestHttp/web/js/dependence/jquery-3.1.1.js:2454-2510 | the loop over the tokens builds exactly the matcher that the lemmas below give a meaning to, with the `doneName`s handed out in order of creation |
| Selector.WalkMeaning | TestHttp/web/js/dependence/jquery-3.1.1.js:2271-2284 | following a pointer from element to element succeeds iff some qualifying node anywhere onward (ancestor, or earlier sibling) satisfies the inner matcher |
| Selector.NearestMeaning | TestHttp/web/js/dependence/jquery-3.1.1.js:2260-2269 | the `first` branch stops at the qualifying node that every other qualifying onward node lies beyond, and at none iff there is none |
| Selector.NearestIsRelated | TestHttp/web/js/dependence/jquery-3.1.1.js:1670-1675 | stopping at the closest node is the declarative `>` (the parent) and `+` (the last earlier element sibling) |
| Selector.CombinatorMeaning | TestHttp/web/js/dependence/jquery-3.1.1.js:2253-2315 | each of the four combinators accepts an element iff some node in the declarative relation to it satisfies what stands to the left |
| Selector.FoundationMeaning | TestHttp/web/js/dependence/jquery-3.1.1.js:2457-2476 | without a leading combinator the foundational matcher accepts the elements somewhere below a context node, or all of them in an inner context or in XML; with one, those that stand in that relation to a context node |
| Selector.ParseReads | TestHttp/web/js/dependence/jquery-3.1.1.js:2478-2507 | the compounds and relations that the meaning speaks of, written out, are the tokens |
| Selector.ElementMatcherMeaning | TestHttp/web/js/dependence/jquery-3.1.1.js:2317-2329 | the combined matcher, for one or several matchers, is their conjunction |
| Selector.FilterStep | TestHttp/web/js/dependence/jquery-3.1.1.js:2482-2505 | a simple selector narrows the last compound of every assignment, and nothing else |
| Selector.RelationStep | TestHttp/web/js/dependence/jquery-3.1.1.js:2479-2480 | a combinator turns "assignable up to x" into "assignable up to an element related to x", in both directions |
| Selector.CompileMeaning | TestHttp/web/js/dependence/jquery-3.1.1.js:2454-2510 | for every token list without positional filters the compiled matcher accepts an element iff an assignment of nodes to compounds ends at it and satisfies every filter, every combinator and the leading context |
| Memo.Engine.Match | TestHttp/web/js/dependence/jquery-3.1.1.js:2253-2329 | whatever records a run has left so far, every compiled matcher with all combinators nested in it answers as if nothing were cached, and leaves the records of combinators below `n` settled |
| Memo.Engine.MatchCached | TestHttp/web/js/dependence/jquery-3.1.1.js:2285-2314 | the memoised walk gives the uncached answer; a record of this run whose combinator is below is never stale, and slots change hands only downwards |
| Memo.Engine.MatchUncached | TestHttp/web/js/dependence/jquery-3.1.1.js:2276-2284 | the XML walk gives the same answer |
| Memo.Engine.MatchFirst | TestHttp/web/js/dependence/jquery-3.1.1.js:2260-2269 | the closest-node walk gives the uncached answer |
| Memo.Engine.Visit | TestHttp/web/js/dependence/jquery-3.1.1.js:2287-2309 | reading another walk's record, or taking the slot over, keeps every element that shares the record waiting for the right answer |
| Memo.Engine.RunInner | TestHttp/web/js/dependence/jquery-3.1.1.js:2302-2308 | while the inner matcher competes for the same slots, no settled record and no waiting element is disturbed |
| Memo.Engine.constructor | TestHttp/web/js/dependence/jquery-3.1.1.js:2286-2292 | an engine starts without records |
| Run.MatchersRegistered | TestHttp/web/js/dependence/jquery-3.1.1.js:2454-2510 | compilation hands out `doneName`s in strata: every combinator nested in another has the smaller one, and each names a single combinator |
| Run.CompileRegistered | TestHttp/web/js/dependence/jquery-3.1.1.js:2454-2510 | the same for the finished matcher |
| Run.CompileGroups | TestHttp/web/js/dependence/jquery-3.1.1.js:2623-2651 | matcher j accepts exactly what the j-th selector from the end selects, and all matchers of the list share one stratified numbering |
| Run.SuperMatcher | TestHttp/web/js/dependence/jquery-3.1.1.js:2515-2551 | a run appends exactly the elements some matcher accepts, in order, with the memo shared by all matchers and all elements of the run |
| Run.AcceptedIsSelected | TestHttp/web/js/dependence/jquery-3.1.1.js:2623-2651 | accepting by some matcher is being selected by some selector of the list |
| Run.SelectedInOrder | TestHttp/web/js/dependence/jquery-3.1.1.js:2532-2551 | the elements selected stand at exactly the places that some selector represents, in order |
| Run.Select | TestHttp/web/js/dependence/jquery-3.1.1.js:2512-2651 | end to end: compiling a selector list and running it, over slots full of records of earlier runs, yields exactly the elements that the list selects, in order |
| DocumentOrder.PrecedesIsLex | TestHttp/web/js/dependence/jquery-3.1.1.js:1490-1513 | coming first in the preorder traversal is being smaller in the lexicographic order of paths |
| DocumentOrder.SiblingCheck | TestHttp/web/js/dependence/jquery-3.1.1.js:963-983 | negative exactly when the first sibling comes first, or the first path has ended; never zero |
| DocumentOrder.Ancestry | TestHttp/web/js/dependence/jquery-3.1.1.js:1490-1498 | the pushed ancestors are the prefixes of the path from the root down |
| DocumentOrder.DivergeAt | TestHttp/web/js/dependence/jquery-3.1.1.js:1500-1508 | at the first index where two ancestor paths differ, the order of the two siblings there, or the end of one path, decides the order of the nodes |
| DocumentOrder.SortOrder | TestHttp/web/js/dependence/jquery-3.1.1.js:1461-1513 | the comparator is negative iff the first node precedes the second in preorder, positive iff it follows, zero iff they are the same node, and only then flags a duplicate; its path walk terminates |
| DocumentOrder.StrictTotalOrder | TestHttp/web/js/dependence/jquery-3.1.1.js:1461-1513 | hence it is a strict total order on the nodes of the tree |
| UniqueSort.ResultList.UniqueSort | TestHttp/web/js/dependence/jquery-3.1.1.js:1593-1620 | the list ends strictly increasing in document order with the same set of elements |
| UniqueSort.ResultList.NoteDuplicates | TestHttp/web/js/dependence/jquery-3.1.1.js:1604-1609 | the noted indices are, in ascending order, exactly those of elements that repeat their predecessor |
| UniqueSort.ResultList.SpliceAll | TestHttp/web/js/dependence/jquery-3.1.1.js:1610-1612 | splicing at those indices from the back removes exactly the repeats although every splice shifts what follows |
| UniqueSort.KeptIsResult | TestHttp/web/js/dependence/jquery-3.1.1.js:1593-1620 | dropping repeats of neighbours from a sorted list keeps the set and leaves no repeat at all |
| NthChild.ChildCache.Seek | TestHttp/web/js/dependence/jquery-3.1.1.js:1837-1868 | whatever was remembered in this run, the seek ends, wraps to the first child at most once, computes the true 1-based element index and remembers the element it stopped at |
| NthChild.ChildCache.NthChild | TestHttp/web/js/dependence/jquery-3.1.1.js:1802-1868 | accepts iff the element index is a*n + b for some n >= 0, for any order of queries in a run |
| NthChild.ChildCache.BeginRun | TestHttp/web/js/dependence/jquery-3.1.1.js:1854-1856 | what was remembered in an earlier run, even of another tree, is never used |
| NthChild.InCycleIsRepresents | TestHttp/web/js/dependence/jquery-3.1.1.js:1919-1921 | the test with JavaScript's remainder and division, for negative and zero steps too, decides index = a*n + b with n >= 0 |
| NthChild.IndexCounts | TestHttp/web/js/dependence/jquery-3.1.1.js:1864 | the element index is the number of element children up to the element |
| SeededMerge.SuperMatcher.Run | TestHttp/web/js/dependence/jquery-3.1.1.js:2532-2600 | `results` ends as its old contents followed by exactly the seed elements that an element matcher matched, or a set matcher matched and no later one un-matched, once each and in seed order |
| SeededMerge.MatchedInOrder | TestHttp/web/js/dependence/jquery-3.1.1.js:2584-2600 | the matched elements stand at exactly the matched places of the seed, in order |
| SeededMerge.BackwardsReverses | TestHttp/web/js/dependence/jquery-3.1.1.js:2416-2423 | a post finder gets the elements found from the last to the first |
| SeededMerge.MatchedIsUnionIff | TestHttp/web/js/dependence/jquery-3.1.1.js:2578-2596 | these are exactly the elements that any matcher of either kind matched iff whatever a set matcher un-matches is matched again by a later one |
| SeededMerge.UnionIff | TestHttp/web/js/dependence/jquery-3.1.1.js:2578-2582 | the same for the set matchers alone |
| SeededMerge.NeverRemovedIff | TestHttp/web/js/dependence/jquery-3.1.1.js:2398-2410 | nothing is ever un-matched iff every element matched earlier passes the post filter of each later set matcher that writes to the matches directly |
| SeededMerge.UnmatchedByLater | TestHttp/web/js/dependence/jquery-3.1.1.js:2384-2409 | ":first.foo, :last" on two elements of which the first has the class: the second is matched by ":last" and un-matched by ":first.foo" |
| SeededMerge.MatchedIffStays | TestHttp/web/js/dependence/jquery-3.1.1.js:2578-2582 | an element ends as matched iff some set matcher matched it and none after that un-matched it |
| SeededMerge.AppliedSplits | TestHttp/web/js/dependence/jquery-3.1.1.js:2361-2452 | every set matcher, with any pre filter, post filter (itself a set matcher or not) and post finder, keeps each element in exactly one of the two arrays, at its own index |
| SeededMerge.RemovesIff | TestHttp/web/js/dependence/jquery-3.1.1.js:2384-2409 | what was matched before is un-matched iff the set matcher has neither pre filter nor post finder and the element fails its post filter |
| SeededMerge.PlainPost | TestHttp/web/js/dependence/jquery-3.1.1.js:2398-2410 | a post filter without positional part un-matches exactly what it rejects |
| SeededMerge.PostByPlace | TestHttp/web/js/dependence/jquery-3.1.1.js:2398-2410 | any post filter, positional or not, decides by the place of an element in the list of those matched so far |
| SeededMerge.DirectAdds | TestHttp/web/js/dependence/jquery-3.1.1.js:2384-2410 | a direct set matcher matches what it picks and its post filter lets through |
| SeededMerge.PreAdds | TestHttp/web/js/dependence/jquery-3.1.1.js:2378-2436 | with a pre filter the positional filter counts only the unmatched elements that pass it |
| SeededMerge.FinderAdds | TestHttp/web/js/dependence/jquery-3.1.1.js:2414-2435 | with a post finder exactly the found elements that were unmatched are matched |
| SeededMerge.ApplySetMatcher | TestHttp/web/js/dependence/jquery-3.1.1.js:2368-2451 | the closure with its maps, its aliased arrays and its descending loops does just that |
| SeededMerge.ApplyPostFilter | TestHttp/web/js/dependence/jquery-3.1.1.js:2398-2410 | failing elements move back to where the positional filter took them from |
| SeededMerge.PickIndices | TestHttp/web/js/dependence/jquery-3.1.1.js:1067-1083 | a positional filter moves the picked elements from the unmatched to its matches and touches no other slot |
| SeededMerge.MoveMatched | TestHttp/web/js/dependence/jquery-3.1.1.js:2427-2435 | what was found in the filtered array moves at the mapped indices, and nothing else does |
| SeededMerge.ClaimFound | TestHttp/web/js/dependence/jquery-3.1.1.js:2427-2435 | what the post finder found moves wherever it is still unmatched |
| SeededMerge.CondenseMap | TestHttp/web/js/dependence/jquery-3.1.1.js:2340-2359 | the elements that pass the filter, in order, with the indices they came from |
| SeededMerge.SuperMatcher.MatchElements | TestHttp/web/js/dependence/jquery-3.1.1.js:2532-2569 | element matches are pushed in seed order, the others are left for the set matchers, and `matchedCount` is the number pushed |
| SeededMerge.SuperMatcher.Reintegrate | TestHttp/web/js/dependence/jquery-3.1.1.js:2584-2593 | popping from the back puts each element match into its own slot and takes exactly the element matches off `results` |
| SeededMerge.MergedIsMatched | TestHttp/web/js/dependence/jquery-3.1.1.js:2584-2596 | condensing the merged slots lists the matched elements once each, in seed order |
| SeededMerge.PushedIsMatched | TestHttp/web/js/dependence/jquery-3.1.1.js:2571-2578 | when the set filters are skipped, the element matches are already all matches |
| Escape.RoundTrip | TestHttp/web/js/dependence/jquery-3.1.1.js:682-714 | unescaping what `Sizzle.escape` made of any string gives the string back with U+0000 replaced by U+FFFD |
| Escape.EscapesOnly | TestHttp/web/js/dependence/jquery-3.1.1.js:697-714 | which characters are left as they are, which get a backslash, and which are written by their code point |
| Escape.ExactRoundTrip | TestHttp/web/js/dependence/jquery-3.1.1.js:1581-1583 | the round trip is exact iff the string has no U+0000 |
| Escape.EscapedIsIdentifier | TestHttp/web/js/dependence/jquery-3.1.1.js:616-652 | the escaped string is one `identifier` of the selector grammar iff the string is not empty, starts with no digit nor a hyphen and a digit, and has no control character but U+0000 and none from U+0080 to U+00A0 |
| Escape.RestRead | TestHttp/web/js/dependence/jquery-3.1.1.js:622 | without the special cases of the start: iff every unit is one that is not written by its code point and that an identifier may hold |
| Escape.UnescapeCode | TestHttp/web/js/dependence/jquery-3.1.1.js:682-697 | a hexadecimal escape up to 10FFFF is read greedily, its closing space is swallowed, and the code point comes back |
| Escape.UnescapeDigits | TestHttp/web/js/dependence/jquery-3.1.1.js:682-697 | one to six hexadecimal digits, in either case and as many as there are, are read as one code point, and one white space of any kind after them is swallowed |
| Escape.DigitValues | TestHttp/web/js/dependence/jquery-3.1.1.js:682-683 | the value of every digit in either case |
| Escape.UnescapeOther | TestHttp/web/js/dependence/jquery-3.1.1.js:682-688 | any other character loses its backslash, but for the line separators and a backslash at the end |
| Escape.ParseOfHex | TestHttp/web/js/dependence/jquery-3.1.1.js:683-692 | parsing undoes printing for every number |
| Escape.UnescapeSupplementary | TestHttp/web/js/dependence/jquery-3.1.1.js:690-696 | an escaped supplementary code point becomes its UTF-16 surrogate pair |
| Escape.OrIsSum | TestHttp/web/js/dependence/jquery-3.1.1.js:690-696 | the bitwise or with the surrogate mask is a sum, since the bits do not overlap |
| Callbacks.StepKeeps | TestHttp/web/js/dependence/jquery-3.1.1.js:3292-3440 | every operation, nested in a running callback or not, keeps what RunKeeps says |
| Callbacks.RunKeeps | TestHttp/web/js/dependence/jquery-3.1.1.js:3292-3440 | over every run of add, remove, fireWith, lock, disable and returns of callbacks, for every combination of once, memory and unique: what a pass has called followed by what is pending is its roster less what was withdrawn in time; accepted values get passes in the order fired; and the pass of a fired value, queued or not, began with the whole list, only that of a recalled one with less |
| Callbacks.StepServed | TestHttp/web/js/dependence/jquery-3.1.1.js:3300-3313 | no operation makes a pass begin behind the front of the list, except a recall |
| Callbacks.RunRemembers | TestHttp/web/js/dependence/jquery-3.1.1.js:3292-3334 | over every run: an idle list remembers the value of its last pass if it has the memory option and is not spent, and else nothing; a "once" list accepts one value; a spent list is locked and empty |
| Callbacks.IdleAdd | TestHttp/web/js/dependence/jquery-3.1.1.js:3340-3368 | add on an idle list that has run a pass starts another one for the new registrations, with that value, if the list has the memory option, and none otherwise |
| Callbacks.LockIsLostIff | TestHttp/web/js/dependence/jquery-3.1.1.js:3292-3295 | a locked list stays locked except when add recalls a value on a list that is not "once" |
| Callbacks.ExactlyOnce | TestHttp/web/js/dependence/jquery-3.1.1.js:3300-3313 | in a finished pass each registration ran once if it was due and not withdrawn before its turn, and otherwise not at all |
| Callbacks.AddKeeps | TestHttp/web/js/dependence/jquery-3.1.1.js:3340-3368 | adding keeps the accounts of called, pending, withdrawn and accepted that are part of RunKeeps, during a pass and with a recall |
| Callbacks.RemoveKeeps | TestHttp/web/js/dependence/jquery-3.1.1.js:3371-3384 | removing during a pass withdraws exactly the pending registrations of the function and skips nothing else |
| Callbacks.RemoveSplits | TestHttp/web/js/dependence/jquery-3.1.1.js:3371-3384 | `firingIndex` moves so that the pending part loses only the removed function |
| Callbacks.LockKeeps | TestHttp/web/js/dependence/jquery-3.1.1.js:3417-3423 | locking keeps the same accounts |
| Callbacks.DisableKeeps | TestHttp/web/js/dependence/jquery-3.1.1.js:3405-3409 | disabling keeps the same accounts, in the middle of a pass too |
| Callbacks.FireWithKeeps | TestHttp/web/js/dependence/jquery-3.1.1.js:3429-3440 | firing keeps the same accounts, during a pass or not |
| Callbacks.ContinueKeeps | TestHttp/web/js/dependence/jquery-3.1.1.js:3300-3334 | the return of a callback keeps the same accounts, through however many empty passes follow |
| Callbacks.AppendExact | TestHttp/web/js/dependence/jquery-3.1.1.js:3349-3361 | add registers every function, in order; with `unique` exactly those not in the list yet, once each |
| Callbacks.AddEffect | TestHttp/web/js/dependence/jquery-3.1.1.js:3340-3368 | during a pass, or with nothing remembered, the new registrations come after everything pending |
| Callbacks.RecallEffect | TestHttp/web/js/dependence/jquery-3.1.1.js:3343-3365 | with a remembered value the new registrations get a pass of their own with that value |
| Callbacks.FireWithEffect | TestHttp/web/js/dependence/jquery-3.1.1.js:3429-3440 | nothing once locked, a queued value during a pass, and else a pass over the whole list |
| Callbacks.ReturnEffect | TestHttp/web/js/dependence/jquery-3.1.1.js:3300-3313 | the first pending callback is called next; with none pending the pass is over, and the next queued value begins a pass over the whole list; with nothing queued the firing is over |
| Callbacks.RemoveEffect | TestHttp/web/js/dependence/jquery-3.1.1.js:3371-3384 | exactly the registrations of the function leave the list and what is pending, in place |
| Callbacks.RemoveAllEffect | TestHttp/web/js/dependence/jquery-3.1.1.js:3371-3384 | the same for several functions |
| Callbacks.LockEffect | TestHttp/web/js/dependence/jquery-3.1.1.js:3417-3423 | queued values are given up and no further value is accepted, while the pass in progress keeps all that is pending |
| Callbacks.DisableEffect | TestHttp/web/js/dependence/jquery-3.1.1.js:3405-3409 | nothing pending or queued is run, and no callback or value is accepted any more |
| CallbackList.CallbackList.constructor | TestHttp/web/js/dependence/jquery-3.1.1.js:3262-3289 | a new list is in the initial state |
| CallbackList.CallbackList.Fire | TestHttp/web/js/dependence/jquery-3.1.1.js:3292-3334 | the in-place loop of `fire`, up to its first call of a callback, is the specified transition |
| CallbackList.CallbackList.Resume | TestHttp/web/js/dependence/jquery-3.1.1.js:3300-3334 | the in-place loop, from the return of one callback to the call of the next, is the specified transition |
| CallbackList.CallbackList.Add | TestHttp/web/js/dependence/jquery-3.1.1.js:3340-3368 | the recursive push over nested argument lists, with the re-firing of the remembered value, adds the flattened functions |
| CallbackList.NestingIsIrrelevant | TestHttp/web/js/dependence/jquery-3.1.1.js:3349-3361 | nested lists of functions register like flat ones, and what is neither a function nor a list is passed over |
| CallbackList.CallbackList.Remove | TestHttp/web/js/dependence/jquery-3.1.1.js:3371-3384 | every argument is removed, one after the other |
| CallbackList.CallbackList.RemoveOne | TestHttp/web/js/dependence/jquery-3.1.1.js:3372-3382 | repeated search and splice removes every registration of the function and moves `firingIndex` with it |
| CallbackList.CallbackList.SpliceOut | TestHttp/web/js/dependence/jquery-3.1.1.js:3374-3381 | splices resumed from the last hit miss no occurrence; the index drops by the number of removals at or before it |
| CallbackList.CallbackList.InArray | TestHttp/web/js/dependence/jquery-3.1.1.js:3374 | the first index from the given one that holds the function, or -1 iff there is none |
| CallbackList.CallbackList.Lock | TestHttp/web/js/dependence/jquery-3.1.1.js:3417-3423 | refines the specified operation and keeps the list reachable |
| CallbackList.CallbackList.Disable | TestHttp/web/js/dependence/jquery-3.1.1.js:3405-3409 | refines the specified operation and keeps the list reachable |
| CallbackList.CallbackList.FireWith | TestHttp/web/js/dependence/jquery-3.1.1.js:3429-3439 | refines the specified operation and keeps the list reachable |
| CallbackList.CallbackList.Return | TestHttp/web/js/dependence/jquery-3.1.1.js:3302-3313 | refines the specified operation and keeps the list reachable |
| Deferred.SettlesOnce | TestHttp/web/js/dependence/jquery-3.1.1.js:3498-3517 | over every run of nested or repeated resolve, reject, done and fail: the first that settles fixes the state and the arguments; the losing side calls nothing; the winning side has called a prefix, in registration order and with those arguments, of its internal callbacks and everything ever registered on it, and all of it once none is running |
| Deferred.ReturnProgress | TestHttp/web/js/dependence/jquery-3.1.1.js:3302-3313 | the return of a callback of the winning side has the next one called, or ends the firing with everything called |
| Deferred.AllAreCalled | TestHttp/web/js/dependence/jquery-3.1.1.js:3292-3368 | after every run, finitely many returns bring the winning side to rest with everything ever registered on it called, in order, once each, with the first arguments |
| Deferred.StateIsFinal | TestHttp/web/js/dependence/jquery-3.1.1.js:3737-3745 | once the state has left pending no operation changes it |
| Deferred.FirstIsFinal | TestHttp/web/js/dependence/jquery-3.1.1.js:3429-3440 | later calls that settle have no say in side or arguments |
| Deferred.DriveInternal | TestHttp/web/js/dependence/jquery-3.1.1.js:3737-3759 | the callbacks the Deferred registers itself run before any user's: they set the state and disable the opposite list |
| Deferred.FreshFire | TestHttp/web/js/dependence/jquery-3.1.1.js:3292-3334 | the first settling call on a pending list fires it for good |
| Deferred.LiveAddFiring | TestHttp/web/js/dependence/jquery-3.1.1.js:3340-3368 | a callback added while the winning side is running is called in this pass, after those before it |
| Deferred.LiveRecall | TestHttp/web/js/dependence/jquery-3.1.1.js:3343-3365 | a callback added after the winning side has finished is called at once, with the first arguments |
| Deferred.DecidedStep | TestHttp/web/js/dependence/jquery-3.1.1.js:3292-3440 | every operation on a settled Deferred keeps it settled with the same outcome |
| DeferredObject.DeferredObject.constructor | TestHttp/web/js/dependence/jquery-3.1.1.js:3498-3509 | two lists with the internal callbacks registered, both waiting |
| DeferredObject.DeferredObject.Settle | TestHttp/web/js/dependence/jquery-3.1.1.js:3769-3772 | resolveWith and rejectWith on the two lists are the specified step |
| DeferredObject.DeferredObject.Listen | TestHttp/web/js/dependence/jquery-3.1.1.js:3732-3735 | done and fail on the two lists are the specified step |
| DeferredObject.DeferredObject.Return | TestHttp/web/js/dependence/jquery-3.1.1.js:3302-3313 | the return of a user's callback is the specified step |
| DeferredObject.DeferredObject.Drive | TestHttp/web/js/dependence/jquery-3.1.1.js:3737-3759 | internal callbacks run to the next user's callback, across both lists |
| Then.StaleIff | TestHttp/web/js/dependence/jquery-3.1.1.js:3563-3656 | an attempt to settle the new deferred fails to speak for the source adopted last iff the closure that makes it was overtaken: a thenable was adopted since the closure was started and it gives a value, or exactly one was, by others, and its exception is tested |
| Then.CaughtIff | TestHttp/web/js/dependence/jquery-3.1.1.js:3635-3656 | a caught exception makes an attempt, and which one, iff at most one thenable has been adopted since the closure was started |
| Then.AdoptedThrows | TestHttp/web/js/dependence/jquery-3.1.1.js:3604-3656 | what the `then` of the thenable adopted last throws rejects the new deferred |
| Then.AllLatestIff | TestHttp/web/js/dependence/jquery-3.1.1.js:3555-3661 | over every run: all attempts come from the source adopted last iff no closure is overtaken, told by how many thenables have been adopted since it was started |
| Then.LatestSettlesIff | TestHttp/web/js/dependence/jquery-3.1.1.js:3555-3661 | over every run: the new deferred is settled by the source adopted last iff no closure was overtaken before |
| Then.RunNested | TestHttp/web/js/dependence/jquery-3.1.1.js:3555-3661 | in particular if nothing is adopted by closures started from a getter, a hook or a callback of another one that may still make an attempt |
| Then.IntrusionIsPossible | TestHttp/web/js/dependence/jquery-3.1.1.js:3567-3588 | a `then` getter that calls the closure again lets a superseded source settle the new deferred |
| Then.HookIntrusionIsPossible | TestHttp/web/js/dependence/jquery-3.1.1.js:3638-3649 | so does the exceptionHook, which reads the `name` of what was thrown before `maxDepth` is tested, without any `then` getter |
| Then.RunOpened | TestHttp/web/js/dependence/jquery-3.1.1.js:3558-3565 | every closure on the stack was started when nothing adopted had superseded it |
| Then.Provenance | TestHttp/web/js/dependence/jquery-3.1.1.js:3555-3661 | the new deferred is only ever settled with what some closure gave or threw between its start and that attempt, or with its own arguments where a stand-in handler passes them on |
| Then.ChainSettlesOnce | TestHttp/web/js/dependence/jquery-3.1.1.js:3555-3661 | the new deferred settles at most once, as the first attempt says: its callbacks on that side, and only those, are called, with that attempt's payload; which spoke for the source adopted last iff no closure was overtaken before |
| Then.AdoptedResolves | TestHttp/web/js/dependence/jquery-3.1.1.js:3563-3629 | from any stack of closures in progress, the closure of the thenable adopted last settles the new deferred with its arguments, unchanged |
| Then.AdoptedRejects | TestHttp/web/js/dependence/jquery-3.1.1.js:3635-3656 | and so does its rejecting closure |
| Then.SupersededIsSilent | TestHttp/web/js/dependence/jquery-3.1.1.js:3563-3567 | from any stack, closures of superseded thenables change nothing |
| Then.SupersededThrows | TestHttp/web/js/dependence/jquery-3.1.1.js:3646-3656 | what the `then` of a superseded thenable throws changes nothing |
| Then.OwnOutcome | TestHttp/web/js/dependence/jquery-3.1.1.js:3616-3660 | a handler's value resolves and its exception rejects, each alone; without a handler the arguments are passed on, on the side they came from |
| ThenObject.Chain.constructor | TestHttp/web/js/dependence/jquery-3.1.1.js:3555-3557 | a call of `then` starts at depth 0 with a new pending deferred |
| ThenObject.Chain.Start | TestHttp/web/js/dependence/jquery-3.1.1.js:3558-3569 | a closure of a superseded depth does nothing; another runs its handler |
| ThenObject.Chain.Throw | TestHttp/web/js/dependence/jquery-3.1.1.js:3635-3644 | an exception goes to the hook, and one thrown by the hook or while rejecting leaves the closure |
| ThenObject.Chain.Catch | TestHttp/web/js/dependence/jquery-3.1.1.js:3646-3656 | once the hook has returned, the exception rejects the new deferred unless `maxDepth` has grown by two |
| ThenObject.Chain.Give | TestHttp/web/js/dependence/jquery-3.1.1.js:3616-3629 | a value that is no thenable resolves the new deferred, with the original arguments for the stand-in handler |
| ThenObject.Chain.GiveThenable | TestHttp/web/js/dependence/jquery-3.1.1.js:3600-3612 | adopting a thenable raises `maxDepth` before its `then` is called |
| ThenObject.Chain.Settle | TestHttp/web/js/dependence/jquery-3.1.1.js:3629-3656 | every attempt reaches the new deferred as one call of resolveWith or rejectWith |
| ThenObject.Chain.Settled | TestHttp/web/js/dependence/jquery-3.1.1.js:3555-3661 | hence the object of module DeferredObject that `then` returned shows the first attempt, its side and its payload, which spoke for the source adopted last iff no closure was overtaken before |
| Namespaces.TestIsScan | TestHttp/web/js/dependence/jquery-3.1.1.js:5115 | the expression, with its anchors, its gaps and its backtracking, finds the names one behind the other at dot boundaries |
| Namespaces.ScanIsSubsequence | TestHttp/web/js/dependence/jquery-3.1.1.js:5044 | on a dotted list that is occurring among the entries in order |
| Namespaces.CountsSubsequence | TestHttp/web/js/dependence/jquery-3.1.1.js:5102 | for sorted lists, being contained with multiplicity is enough to occur in order |
| Namespaces.LeTotal | TestHttp/web/js/dependence/jquery-3.1.1.js:5102 | the order in which names are sorted is total |
| Namespaces.NamespaceMatch | TestHttp/web/js/dependence/jquery-3.1.1.js:5101-5124 | the expression built from the sorted names asked for matches the handler's namespace iff the names are a sub-multiset of the handler's |
| EventTable.FitsByExpression | TestHttp/web/js/dependence/jquery-3.1.1.js:5122-5126 | the test of `remove` by the regular expression is the test by multisets, for names as they are split and sorted |
| EventTable.FitsIffNotSpared | TestHttp/web/js/dependence/jquery-3.1.1.js:5122-5126 | a handler is spared iff it was bound for another type, with another function, without one of the names, or for another selector |
| EventTable.EventTable.constructor | TestHttp/web/js/dependence/jquery-3.1.1.js:5000-5003 | an element starts without handlers |
| EventTable.EventTable.Add | TestHttp/web/js/dependence/jquery-3.1.1.js:5029-5076 | after any sequence of adds and removes the array holds the delegated handlers first, both parts in the order bound; adding appends to what is bound under the mapped type and leaves the other types alone |
| EventTable.EventTable.SpliceIn | TestHttp/web/js/dependence/jquery-3.1.1.js:5070-5076 | splicing at `delegateCount` or pushing at the end arranges one more bound handler |
| EventTable.BoundIsHistory | TestHttp/web/js/dependence/jquery-3.1.1.js:4969-5155 | after any sequence of adds and removes, bound under a type are exactly the handlers added there that no later remove fits, in the order added |
| EventTable.EventTable.Remove | TestHttp/web/js/dependence/jquery-3.1.1.js:5111-5149 | exactly the handlers leave that the test with the regular expression fits, the rest stay arranged with the right `delegateCount`, and the type is dropped iff none is left |
| EventTable.EventTable.SpliceMatching | TestHttp/web/js/dependence/jquery-3.1.1.js:5117-5136 | the backward splicing loop with its running `delegateCount` |
| EventTable.KeptArranged | TestHttp/web/js/dependence/jquery-3.1.1.js:5117-5136 | removing commutes with arranging |
| EventTable.KeptExact | TestHttp/web/js/dependence/jquery-3.1.1.js:5122-5127 | a handler stays iff it was bound and does not fit |
| EventTable.EventTable.Handlers | TestHttp/web/js/dependence/jquery-3.1.1.js:5221-5277 | the queue built from the array is the queue for the handlers bound |
| EventTable.EventTable.WalkUp | TestHttp/web/js/dependence/jquery-3.1.1.js:5243-5268 | the walk from the target outwards, with one test per selector and node |
| EventTable.PathExact | TestHttp/web/js/dependence/jquery-3.1.1.js:5243 | the walk visits the target and its ancestors below the element, and nothing else |
| EventTable.QueueExact | TestHttp/web/js/dependence/jquery-3.1.1.js:5221-5277 | a node is dispatched to iff it is eligible and matched by some delegated handler, with exactly the handlers whose selector matches it, in their order; and the element iff it has direct handlers, with exactly those, in their order |
| EventTable.MatchingPicks | TestHttp/web/js/dependence/jquery-3.1.1.js:5247-5261 | the handlers selected for a node stand at ascending places, exactly those whose selector matches |
| EventTable.PartsPick | TestHttp/web/js/dependence/jquery-3.1.1.js:5070-5076 | delegated and direct handlers are selected in the order bound |
| EventTable.KeptPicks | TestHttp/web/js/dependence/jquery-3.1.1.js:5117-5136 | what remove leaves is in the order bound |
| EventTable.PicksOnce | TestHttp/web/js/dependence/jquery-3.1.1.js:5243-5268 | a selection by places is unique |
| EventTable.QueueOrder | TestHttp/web/js/dependence/jquery-3.1.1.js:5221-5277 | delegated handlers run from the deepest node outwards, the direct ones last |
| EventTable.StableKept | TestHttp/web/js/dependence/jquery-3.1.1.js:5029-5036 | adding and removing keep every handler under a type that is mapped to itself |
| EventTable.ArrangedTwice | TestHttp/web/js/dependence/jquery-3.1.1.js:5668-5676 | adding the handlers of an array again, in the order of the array, reproduces it |
| EventTable.CloneType | TestHttp/web/js/dependence/jquery-3.1.1.js:5670-5675 | the clone gets the same array for the type, `delegateCount` included |
| EventTable.CloneEvents | TestHttp/web/js/dependence/jquery-3.1.1.js:5668-5676 | the clone's table equals the source's |
| ClassList.TokensOfJoin | TestHttp/web/js/dependence/jquery-3.1.1.js:7723-7726 | collapsing keeps the list of names |
| ClassList.BlankSplits | TestHttp/web/js/dependence/jquery-3.1.1.js:7723-7726 | space, tab, line feed, form feed and carriage return each separate names |
| ClassList.NoBlankIsName | TestHttp/web/js/dependence/jquery-3.1.1.js:7723-7726 | text without any of them is one name |
| ClassList.ContainsIsMembership | TestHttp/web/js/dependence/jquery-3.1.1.js:7754 | in padded text the padded name occurs iff it is one of the names |
| ClassList.ContainsIsFinds | TestHttp/web/js/dependence/jquery-3.1.1.js:7880-7884 | for every selector text: the padded text occurs iff it is a row of names joined by single spaces, or empty where there are no names |
| ClassList.AddAllMeaning | TestHttp/web/js/dependence/jquery-3.1.1.js:7745-7757 | addClass keeps the names there are and appends exactly the absent ones, once each and in the order given |
| ClassList.RemoveAllMeaning | TestHttp/web/js/dependence/jquery-3.1.1.js:7786-7802 | removeClass keeps exactly the names not given, as often as before and in order |
| ClassList.ToggleAllMeaning | TestHttp/web/js/dependence/jquery-3.1.1.js:7837-7850 | toggling flips membership once per time a name is given |
| ClassList.ToggleTwice | TestHttp/web/js/dependence/jquery-3.1.1.js:7837-7850 | toggling the same string twice restores the set of names |
| ClassList.ToggleIs | TestHttp/web/js/dependence/jquery-3.1.1.js:7845-7849 | toggling one name is adding it behind the others, or removing it |
| ClassList.Element.HasClass | TestHttp/web/js/dependence/jquery-3.1.1.js:7876-7889 | true iff the selector text is found as above; for a class name, iff it is a member |
| ClassList.Element.AddClass | TestHttp/web/js/dependence/jquery-3.1.1.js:7744-7766 | the attribute text becomes the collapsed list with the absent names appended |
| ClassList.Element.RemoveClass | TestHttp/web/js/dependence/jquery-3.1.1.js:7781-7811 | the attribute text becomes the collapsed list without the names; without arguments it becomes empty |
| ClassList.Element.RemoveInstances | TestHttp/web/js/dependence/jquery-3.1.1.js:7798-7801 | the replacement loop ends and leaves no instance, although padded names overlap in their spaces |
| ClassList.Element.ToggleClass | TestHttp/web/js/dependence/jquery-3.1.1.js:7835-7850 | the loop over hasClass, addClass and removeClass toggles the list of names |
| TwinsLock.StepKeeps | Test/src/com/matcha/lock/app/TwinsLock.java:98-142 | every single step, in particular every CAS and every counter write, keeps permits, holders and calls in flight in balance |
| TwinsLock.RunKeeps | Test/src/com/matcha/lock/app/TwinsLock.java:98-142 | in every interleaving of any number of threads: free permits + holders + calls in flight = the initial count, and each counter is its thread's acquires less releases |
| TwinsLock.FreeNeverNegative | Test/src/com/matcha/lock/app/TwinsLock.java:111-122 | the shared state never goes below zero |
| TwinsLock.AtMostCount | Test/src/com/matcha/lock/app/TwinsLock.java:98-142 | at most `count` threads hold the lock |
| TwinsLock.OutermostOnly | Test/src/com/matcha/lock/app/TwinsLock.java:126-142 | a permit comes back only after a thread's outermost release, and is taken only by a thread that held nothing |
| TwinsLock.ResultIsTruthful | Test/src/com/matcha/lock/app/TwinsLock.java:99-123 | tryAcquireShared reports success exactly when the thread then holds the lock, whatever the fairness test answered |
| TwinsLock.LostRace | Test/src/com/matcha/lock/app/TwinsLock.java:111-141 | a CAS fails only after another thread's CAS has succeeded since the read |
| TwinsLock.SoloAcquire | Test/src/com/matcha/lock/app/TwinsLock.java:98-123 | undisturbed, lock takes one permit when there is one, and else or when told not to compete fails with no trace but its result |
| TwinsLock.SoloReenter | Test/src/com/matcha/lock/app/TwinsLock.java:101-104 | lock by a holder goes one level deeper without a permit |
| TwinsLock.SoloRelease | Test/src/com/matcha/lock/app/TwinsLock.java:126-142 | undisturbed, unlock goes one level up and the outermost one returns the permit |
| TwinsLock.SoloNesting | Test/src/com/matcha/lock/app/TwinsLock.java:98-142 | however deep a holder nests its calls, as many unlocks take it back to where it was, without a permit moving |
| TwinsLock.SoloAcquires | Test/src/com/matcha/lock/app/TwinsLock.java:111-122 | from wherever a call of lock stands, a CAS lost or not, it takes a permit iff there is one when it goes on undisturbed, and otherwise fails |
| TwinsLock.SoloReturns | Test/src/com/matcha/lock/app/TwinsLock.java:132-141 | from wherever a call of unlock stands, it returns the permit |
| TwinsLock.AloneIsRun | Test/src/com/matcha/lock/app/TwinsLock.java:98-142 | these undisturbed calls are runs of the step system |
| TwinsLock.AlwaysEnabled | Test/src/com/matcha/lock/app/TwinsLock.java:98-142 | nothing but a thread's own state decides whether it can start a call or go on |
| Handoff.RunKeeps | TestConcurrentLinkedQueue/src/com/matcha/server/thread/OfferRunnable.java:26-34 | over every interleaving: tickets up to the maximum are items offered or about to be, every other ticket stopped one producer, and every poll is counted down or about to be |
| Handoff.FifoAndBounded | TestConcurrentLinkedQueue/src/com/matcha/server/thread/PollRunnable.java:25-41 | polled ++ queue = offered, at most `max` items are offered, and the latch is `max` less the count-downs done |
| Handoff.AfterAwait | TestConcurrentLinkedQueue/src/com/matcha/run/Test.java:40-52 | once await has returned, exactly `max` items have been offered and polled, in the same order, and the queue is empty |
| Handoff.NoneLeavesEarly | TestConcurrentLinkedQueue/src/com/matcha/server/thread/PollRunnable.java:30-40 | no consumer ends before every item has been polled |
| Handoff.FinalCount | TestConcurrentLinkedQueue/src/com/matcha/server/thread/OfferRunnable.java:29-33 | when P producers have stopped the counter is `max` + P and all items are offered |
| Handoff.NeverStuck | TestConcurrentLinkedQueue/src/com/matcha/server/thread/PollRunnable.java:25-41 | while main waits, some thread can take a step that brings its release closer |
| Handoff.CanFinish | TestConcurrentLinkedQueue/src/com/matcha/run/Test.java:34-52 | with a producer and a consumer, every reachable state can be continued to one in which await has returned |
| Handoff.ConsumerEnds | TestConcurrentLinkedQueue/src/com/matcha/server/thread/PollRunnable.java:30-40 | a consumer that has been told to stop ends when it tests the flag, at the latest after one more poll |
| Handoff.CanEnd | TestConcurrentLinkedQueue/src/com/matcha/run/Test.java:34-52 | every reachable state can be continued to one in which all threads have ended |
| Handoff.Begins | TestConcurrentLinkedQueue/src/com/matcha/run/Test.java:19-38 | every producer begins by drawing a ticket, and every consumer by testing its flag |
| ForkJoin.SplitIsProper | Test/src/com/matcha/forkjoin/task/CountTask.java:42-44 | within the bounds every split gives start <= middle < end under truncating division, so the recursion ends |
| ForkJoin.LeafIff | Test/src/com/matcha/forkjoin/task/CountTask.java:35 | within the bounds a task adds its range itself iff that has at most three numbers |
| ForkJoin.SplitIsProperIff | Test/src/com/matcha/forkjoin/task/CountTask.java:42 | over all of int a split is proper iff the sum of the bounds does not overflow |
| ForkJoin.OverflowingSplit | Test/src/com/matcha/forkjoin/task/CountTask.java:42-44 | four numbers beyond the bounds whose second half starts far below them |
| ForkJoin.LeavesPartition | Test/src/com/matcha/forkjoin/task/CountTask.java:34-50 | the leaf tasks are consecutive ranges of at most three numbers from the first to the last |
| ForkJoin.TilesExact | Test/src/com/matcha/forkjoin/task/CountTask.java:34-50 | hence every number of the range belongs to exactly one leaf |
| ForkJoin.Compute | Test/src/com/matcha/forkjoin/task/CountTask.java:31-53 | the result is the exact sum wrapped to 32 bits |
| ForkJoin.ResultIsGauss | Test/src/com/matcha/forkjoin/task/CountTask.java:31-53 | twice the result is congruent to (start + end)(end - start + 1) modulo 2^32 |

## Left out

- Run.SuperMatcher: the outermost run only. A nested run (`:not`, `:has`), which changes `dirruns` to a fractional value and back, is replaced by a pure filter; run identifiers are integers.
- Memo.Engine.Match: the `skip` path for `legend` inside a disabled fieldset, and a document that changes from HTML to XML within one run, are not modelled. `uniqueID` is the node itself.
- Selector.MatcherFromTokens: positional filters, for which the code returns a `setMatcher`, are not compiled; what `setMatcher` returns is modelled in SeededMerge from its five parts.
- SeededMerge.SuperMatcher.Run: seeds without gaps. For an empty seed the code leaves its counter a string and calls the set matchers on empty arrays, where they have nothing to pick.
- SeededMerge.ApplySetMatcher: the branch for a seed. The arrays it updates are passed and returned as values. A post finder, which works on contexts without a seed, is an arbitrary function of them.
- Run.Select: tokenizing, the compiler cache and the choice of a seed in `select`.
- DocumentOrder.SortOrder: nodes of one tree whose root is the document. `sourceIndex`, where present, is assumed to follow document order. `compareDocumentPosition` is foreign code.
- UniqueSort.ResultList.UniqueSort: the platform's sort is assumed to sort, and to have compared two equal elements if there are any, so that `hasDuplicate` is set.
- NthChild.ChildCache.NthChild: the forward `child` form outside XML. The per-element cache of `:nth-last-child` and the `of-type` forms are left out.
- Callbacks.RunKeeps: `stopOnFalse`, `empty` and callbacks that throw.
- Deferred.SettlesOnce: the progress list, on which no outcome depends; `notify` after settlement is not claimed to be silent.
- Deferred.StateIsFinal: the lists that `then` adds to are reached by an internal callback whose effect is left to module Then.
- Then.RunNested: progress handlers and the timing of `setTimeout`.
- ThenObject.Chain.Start: closures of depth 0 run when they are started; `setTimeout` decides when that is.
- Namespaces.NamespaceMatch: names without characters that mean something in a regular expression, and without line terminators; the code does not escape them.
- EventTable.EventTable.Add: namespaces of plain names only; the hooks of special events (setup, teardown, add, remove), parsing of "click.ns" strings, several types per call, and attaching the native listener.
- EventTable.EventTable.Remove: namespaces of plain names only, as for NamespaceMatch; removing from all types when no type is given.
- EventTable.EventTable.Handlers: running the queue, with propagation stopped by handlers, is not modelled.
- EventTable.CloneEvents: the data of elements other than events.
- ClassList.Element.ToggleClass: the forms with a function, a state or no class name; loops over several elements.
- TwinsLock.RunKeeps: the queue of waiting threads belongs to the library; an overflow of the counter after 2^31 nested locks; conditions. The lock is a step system on values, since its threads interleave inside its methods.
- Handoff.RunKeeps: overflow of the ticket counter and interruption; the queue, the latch and the counter are atomic. Also a step system on values.
- ForkJoin.Compute: the pool; a task's two halves are computed one after the other. Ranges outside -2^30 .. 2^30 are covered by SplitIsProperIff alone.
- The rest of jQuery (DOM manipulation, CSS, animation, queues, ajax), the other Java exercises (sockets, class loading, serialization, JDBC, ciphers, generic arrays) and the deque variant of the producers and consumers.
