# Top-3 rules of the L4_AJS lab script, in Dafny

The lab script `Lab_4.js` fetches four collections from the JSONPlaceholder REST
API (`/posts`, `/comments`, `/users`, `/todos`), applies a ranking or filtering
rule to each, and keeps the first three records. The same four rules appear
twice. They appear once in the callback and promise helpers, and once in the
sequential `getAllDataAsync`. This project models the rules and the
pipelines around them, and proves what each rule guarantees.

- `results.dfy`, module `Results`: the settled state of a promise, as a
  `Result` that supports `:-`.
- `records.dfy`, module `Records`: the fetched records. Strings are JavaScript
  strings, which are sequences of UTF-16 code units, so `title.length` is the
  number of code units.
- `stable_sort.dfy`, module `StableSort`: `Array.prototype.sort(comparefn)`.
  The comparator is a function `(T, T) -> int`, as in JavaScript. `Sort` is
  the specification: a stable insertion sort. `SortInPlace` sorts an `array`
  in place and is proved to compute `Sort`. The lemmas prove that `Sort`
  permutes, orders and keeps ties in input order. They also prove that any
  sorted arrangement that keeps ties in input order equals `Sort`. So the
  engine's own stable algorithm produces the same array.
- `rules.dfy`, module `Rules`: the four rules, each as a function of the
  fetched sequence, and their properties.
- `pipeline.dfy`, module `Pipeline`: the callback helpers
  (`getPostsSortedByTitleLength`, `getCommentsSortedByName`) and the promise
  helpers (`getUsersWithSelectedFields`, `getTodosUncompleted`), each applied
  to the outcome of its request. It also holds `getAllDataAsync`, a method
  of the `Client` class. It awaits the four requests in order. The client's
  `log` gains an event each time its `FetchData` step issues a request and
  each time one of its rule steps runs.

A request is not performed. A `Server` value gives, for each endpoint, the
outcome that `fetchData(url)` would settle with. That outcome is either the
decoded array or the request's error. Every rule is a function of its input,
or a method whose result is such a function of the input. So the same input
always gives the same output.

## Model

| member | source | states |
|---|---|---|
| `StableSort.Sort` | Lab_4.js:16 | the result of `Array.prototype.sort` with a comparator holds as many records as the input; its meaning is stated by the lemmas below |
| `StableSort.SortInPlace` | Lab_4.js:16 | sorting the fetched array in place leaves it equal to `Sort` of its old contents |
| `StableSort.InsertInPlace` | Lab_4.js:16 | one insertion step moves an element left past the greater elements of the sorted prefix, and leaves the rest of the array unchanged |
| `StableSort.SortPermutes` | Lab_4.js:16 | sorting only rearranges: the output has the same multiset of records as the input |
| `StableSort.SortSorted` | Lab_4.js:16 | under a consistent comparator, no record of the output compares greater than a later one |
| `StableSort.SortStable` | Lab_4.js:16 | records that compare equal keep their relative input order (stable sort, as ECMAScript requires) |
| `StableSort.SortedStableIsUnique` | Lab_4.js:16 | any sorted arrangement of the input that keeps ties in input order equals `Sort`, so every stable sorting algorithm gives the same array |
| `StableSort.SortedTiesUnique` | Lab_4.js:16 | two sorted sequences whose tie classes are equal, order included, are the same sequence |
| `StableSort.InsertSorted` | Lab_4.js:16 | inserting into a sorted sequence keeps it sorted |
| `StableSort.InsertTies` | Lab_4.js:16 | insertion places a record after every record tied with it |
| `Rules.Slice` | Lab_4.js:17 | `slice(0, n)` keeps `min(n, length)` elements, and they are the input's first elements in order |
| `Rules.TopOfSortCount` | Lab_4.js:16-17 | sorting and then `slice(0, k)` keeps `min(k, n)` records, all taken from the input |
| `Rules.TopOfSortOmitted` | Lab_4.js:16-17 | no record left out by the slice compares before a kept one |
| `Rules.TopOfSortStable` | Lab_4.js:16-17 | among tied records, the kept ones are the earliest fetched, in fetched order |
| `Rules.ByTitleLengthDesc` | Lab_4.js:16 | the posts comparator is negative exactly when the first post's title is longer, and zero exactly when the titles have equal length |
| `Rules.ByTitleLengthDescConsistent` | Lab_4.js:16 | the posts comparator is consistent (sign flips on swap, transitive) |
| `Rules.TopPosts` | Lab_4.js:16-17 | the posts rule returns `min(3, n)` posts |
| `Rules.TopPostsCount` | Lab_4.js:16-17 | the posts rule returns `min(3, n)` posts, all from the input |
| `Rules.TopPostsLongestFirst` | Lab_4.js:16-17 | the returned posts have non-increasing title lengths |
| `Rules.TopPostsOmittedNotLonger` | Lab_4.js:16-17 | every post not returned has a title no longer than any returned post's title |
| `Rules.TopPostsStable` | Lab_4.js:16-17 | posts with equal title lengths are returned earliest fetched first |
| `Rules.PostsScenario` | Lab_4.js:45 | titles "a", "abc", "ab", "abcd" are ranked "abcd", "abc", "ab" |
| `Rules.CodeUnitCompare` | Lab_4.js:23 | the name comparison returns -1, 0 or 1 |
| `Rules.CodeUnitCompareAntisymmetric` | Lab_4.js:23 | swapping the two names negates the comparison |
| `Rules.CodeUnitCompareZeroIffEqual` | Lab_4.js:23 | two names compare equal exactly when they are the same string |
| `Rules.CodeUnitCompareTransitive` | Lab_4.js:23 | "sorts no later than" is transitive on names |
| `Rules.ByName` | Lab_4.js:23 | the comments comparator returns -1, 0 or 1, and swapping the two comments negates it |
| `Rules.ByNameConsistent` | Lab_4.js:23 | the comments comparator is consistent |
| `Rules.TopComments` | Lab_4.js:23-24 | the comments rule returns `min(3, n)` comments |
| `Rules.ByNameTiesAreSameName` | Lab_4.js:23 | two comments tie under the comparator exactly when their names are equal |
| `Rules.TopCommentsCount` | Lab_4.js:23-24 | the comments rule returns `min(3, n)` comments, all from the input |
| `Rules.TopCommentsByName` | Lab_4.js:23-24 | the returned comments are in ascending name order |
| `Rules.TopCommentsOmittedNotBefore` | Lab_4.js:23-24 | every comment not returned has a name no earlier than any returned comment's name |
| `Rules.TopCommentsStable` | Lab_4.js:23-24 | comments with the same name are returned earliest fetched first |
| `Rules.Project` | Lab_4.js:30-31 | a user's summary carries the user's id, name, username, email and phone |
| `Rules.ProjectAll` | Lab_4.js:30-31 | mapping the projection yields one summary per user, each the projection of the user at the same index |
| `Rules.SelectedUsers` | Lab_4.js:30-32 | the users rule returns `min(3, n)` summaries, summary `i` being the projection of user `i` |
| `Rules.SelectedUsersSpec` | Lab_4.js:30-32 | the users rule returns `min(3, n)` records, and record `i` has exactly user `i`'s id, name, username, email and phone |
| `Rules.ProjectForgetsOnlyOtherFields` | Lab_4.js:30-31 | two users project alike exactly when they differ only in the dropped fields |
| `Rules.ProjectAllSliceCommute` | Lab_4.js:30-32 | projecting every user and slicing equals projecting only the first three users |
| `Rules.Incomplete` | Lab_4.js:38 | every todo the filter keeps has `completed` false, and the filter never lengthens the list |
| `Rules.UncompletedTodos` | Lab_4.js:38 | the todos rule returns at most three todos, none of them completed |
| `Rules.IncompleteMembers` | Lab_4.js:38 | a todo is kept by the filter exactly when it is in the input and its `completed` is false |
| `Rules.IncompleteAppend` | Lab_4.js:38 | the filter keeps input order: filtering a concatenation concatenates the filtered parts |
| `Rules.SliceOfIncompleteIsPrefixFilter` | Lab_4.js:38 | the first `k` incomplete todos are exactly the incomplete todos among some prefix of the input, and that prefix is the whole input unless `k` of them were found earlier |
| `Rules.UncompletedTodosSpec` | Lab_4.js:38 | the todos rule returns `min(3, number incomplete)` todos, all incomplete and from the input, and they are the first incomplete ones in fetched order |
| `Rules.TodosScenario` | Lab_4.js:38 | of completed, "x", "y", completed, the rule returns "x" and "y" |
| `Pipeline.ArrayOf` | Lab_4.js:9 | the decoded body is a fresh array holding the fetched records in order |
| `Pipeline.RankPosts` | Lab_4.js:45 | the posts array is sorted in place, stays a permutation of itself, and the result is the posts rule's output |
| `Pipeline.RankComments` | Lab_4.js:48 | the comments array is sorted in place, stays a permutation of itself, and the result is the comments rule's output |
| `Pipeline.GetPostsSortedByTitleLength` | Lab_4.js:14-19 | the callback receives the request's error unchanged, or the posts rule's output |
| `Pipeline.GetCommentsSortedByName` | Lab_4.js:21-26 | the callback receives the request's error unchanged, or the comments rule's output |
| `Pipeline.GetUsersWithSelectedFields` | Lab_4.js:28-34 | the promise rejects exactly when the request does, with its error, and otherwise fulfils with the users rule's output |
| `Pipeline.GetTodosUncompleted` | Lab_4.js:36-40 | the promise rejects exactly when the request does, with its error, and otherwise fulfils with incomplete todos from the input |
| `Pipeline.UrlInjective` | Lab_4.js:15 | the four endpoint URLs are pairwise different |
| `Pipeline.Outcome` | Lab_4.js:4-12 | the request to an endpoint rejects exactly when that endpoint's request fails |
| `Pipeline.AllDataOf` | Lab_4.js:42-60 | the call resolves exactly when all four requests succeed |
| `Pipeline.TraceOf` | Lab_4.js:42-57 | every run starts by requesting the posts, holds at most eight events, and ends with a request exactly when some request failed |
| `Pipeline.AllDataOfOutcome` | Lab_4.js:42-60 | the call resolves exactly when all four requests succeed, with the four rule outputs, and otherwise rejects with the first failed request's error |
| `Pipeline.TraceOfStopsAtFirstFailure` | Lab_4.js:42-57 | a request is issued exactly when every earlier one succeeded, and a rule runs exactly when its own request and every earlier one succeeded |
| `Pipeline.Client.FetchData` | Lab_4.js:44 | awaiting `fetchData` on an endpoint's URL logs that request and settles with the endpoint's outcome |
| `Pipeline.Client.SortPosts` | Lab_4.js:45 | the posts rule runs on a fresh array, returns the posts rule's output and logs that it ran |
| `Pipeline.Client.SortComments` | Lab_4.js:48 | the comments rule runs on a fresh array, returns the comments rule's output and logs that it ran |
| `Pipeline.Client.SelectUsers` | Lab_4.js:51-52 | the users rule returns its output and logs that it ran |
| `Pipeline.Client.FilterTodos` | Lab_4.js:55 | the todos rule returns its output and logs that it ran |
| `Pipeline.Client.GetAllDataAsync` | Lab_4.js:42-61 | built only from the logged fetch and rule steps, the pipeline returns the bind-chain result `AllDataOf` and appends exactly `TraceOf` to the log, so nothing runs after the first failed request |

## Left out

- `fetchData` (Lab_4.js:4-12): the HTTPS request, the chunk accumulation and
  `JSON.parse` are I/O and a foreign parser. Each request is represented by
  its settled outcome in `Server`.
- A body that does not parse does not reject the request. `JSON.parse`
  throws inside the `'end'` listener (Lab_4.js:9), outside the promise
  executor. The exception is uncaught, and the promise never settles. Only
  the request's `'error'` event (Lab_4.js:10) rejects, and `FetchError`
  carries only that case.
- HTTP status codes are not checked by the code, so an error response whose
  body parses is fulfilled. The model cannot fulfil with such a body: a
  fulfilled outcome is always an array of complete records.
- `TypeError`s raised by the rules on a body that parses to something other
  than an array, such as an error payload object or `null`, are not
  modelled. In the source, `.sort`, `.map` or `.filter` then throws. The
  callback helpers pass that error to the callback through `.catch`
  (Lab_4.js:18, Lab_4.js:25). The promise helpers and `getAllDataAsync`
  reject with it. `FetchError` has no case for it.
- `runAllExamples` (Lab_4.js:91-149): it starts the helpers without waiting
  for one another and uses `setTimeout` pauses. Interleaving and timing have
  no sequential contract. Each helper is modelled on its own.
- `displayResults` (Lab_4.js:63-89): console output only.
- Locale-aware collation behind `localeCompare` (Lab_4.js:23, Lab_4.js:48):
  it depends on ICU data. `CodeUnitCompare` orders names by UTF-16 code
  units instead. Real collation can order some names differently, for
  example by case.
- The engine's sorting algorithm: V8 uses TimSort. The model uses insertion
  sort. `SortedStableIsUnique` shows that any stable sort gives the same
  array under these consistent comparators.
- Records of unexpected shape: the source does no validation. A post without
  a `title` makes the comparator throw inside `.then`, and the error reaches
  the callback through `.catch`. A user without some field gets `undefined`
  for it. The model's records always hold every field the rules read.
- Callbacks that throw: in the source, `.catch(callback)` would call the
  callback a second time with that error (Lab_4.js:18, Lab_4.js:25). The
  callbacks in the script only log, so this is not modelled.
- The `try { ... } catch (error) { throw error; }` in `getAllDataAsync`
  (Lab_4.js:43-60) rethrows unchanged. It is modelled as passing the error
  through.
