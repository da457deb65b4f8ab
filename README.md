# simple-lit-router: route ranking and matching

A Dafny model of the routing core in `src/router.ts` of a small client-side
router for Lit components. The router keeps an array of route declarations
(`path` pattern plus a `render` callback). It sorts that array in place once,
by priority. To render, it walks the sorted array and returns the render
result of the first route whose pattern matches the current pathname.

Modules:

- `Wrappers` (`Wrappers.dfy`): `Option`, where `None` stands for `undefined`.
- `Parts` (`Parts.dfy`): `getParts` as `Split` (JavaScript's `split("/")`)
  followed by `DropEmpty` (`filter(part => part)`). It also holds the
  static/dynamic reading of one part (`Segment`, `Classify`): a part is
  dynamic exactly when it starts with `:`, and its name is the rest.
- `Priority` (`Priority.dfy`): the `Route` record and the sort comparator
  (`ComparePaths`, with `ScanShapes` as its `for` scan). It proves the
  comparator is a total preorder. `SortRoutes` sorts an `array<Route<T>>` in
  place with that comparator.
- `Matching` (`Matching.dfy`): `matches` as `Matches`. `FindMismatch` is the
  `filter`/`find` over zipped parts. `Bind` is the `reduce` that builds the
  parameter map.
- `Routing` (`Routing.dfy`): the `Router` class. Its constructor sorts the
  caller's array and keeps it as its own state. The `routes` field is
  fixed, and only the array's contents change, during construction.
  `RenderOutlet` is the first-match loop. `FirstMatch` is the specification of that loop.
- `Examples` (`Examples.dfy`): concrete instances of the rules, such as
  `/users/:id` against `/users/42`. Each example takes its paths as
  parameters built with `JoinPath`. A companion `...Text` lemma states the
  literal text of those paths.

The "zip" of two part arrays (`map((part, idx) => [part, other[idx]])`) is
modelled by recursing over both sequences in step.

`window.location.pathname` becomes the `pathname` parameter of
`RenderOutlet`. Each route's `render` is a function field
`map<string, string> -> Option<T>` that the model never looks inside.

## Model

| member | source | states |
|---|---|---|
| Parts.Split | src/router.ts:14 | `split("/")` yields one more piece than there are separators, and no piece contains '/' |
| Parts.JoinSplit | src/router.ts:14 | joining the split pieces with '/' gives back the original string |
| Parts.DropEmpty | src/router.ts:14 | the filter keeps only non-empty pieces, each taken from the input |
| Parts.DropEmptyKeeps | src/router.ts:14 | every non-empty piece is kept, as often as it occurs in the input |
| Parts.DropEmptySingle | src/router.ts:14 | a single piece is kept exactly when it is non-empty |
| Parts.DropEmptyAppend | src/router.ts:14 | filtering a concatenation concatenates the filtered halves. With DropEmptySingle this fixes the result, in input order, for every input |
| Parts.GetParts | src/router.ts:13-14 | no returned part is empty and no returned part contains '/' |
| Parts.GetPartsEmpty | src/router.ts:13-14 | a path has zero parts exactly when it consists only of '/' characters, so "" and "/" have none |
| Parts.GetPartsKeepsText | src/router.ts:13-14 | the parts, concatenated, are the path with its separators removed, so no other character is lost |
| Parts.GetPartsJoinPath | src/router.ts:13-14 | round trip: for non-empty parts without '/', reading the parts of "/p1/p2/..." gives back exactly those parts |
| Parts.Classify | src/router.ts:43-47 | a part starting with ':' is dynamic and names the rest (`substring(1)`). Any other part is static. The part can be read back from its segment (see ClassifyText) |
| Parts.ClassifyText | src/router.ts:43-47 | the static/dynamic reading of a part (`startsWith(":")`, `substring(1)`) is lossless, so equal segments mean equal parts |
| Priority.ScanShapes | src/router.ts:41-52 | the scan over the zipped parts returns only -1, 0 or 1 |
| Priority.ScanShapesMeaning | src/router.ts:41-52 | the scan returns 1 exactly when the first index where the kinds differ has the first pattern dynamic, -1 exactly when it has the second dynamic, and 0 exactly when the kinds agree everywhere |
| Priority.ComparePaths | src/router.ts:29-53 | the comparator returns only -1, 0 or 1 |
| Priority.CompareMeaning | src/router.ts:33-52 | fewer parts gives 1 and more parts gives -1, whatever the parts contain. With equal counts, the first index where exactly one part is dynamic decides: the static side ranks first. With no such index the result is 0 |
| Priority.CompareReflexive | src/router.ts:41-52 | comparing a route with itself gives 0 |
| Priority.CompareAntisymmetric | src/router.ts:29-53 | swapping the two arguments negates the result |
| Priority.CompareTransitive | src/router.ts:29-53 | "sorts no later than" is transitive, so the comparator is a consistent total preorder for `sort` |
| Priority.AdjacentToSorted | src/router.ts:29 | if every neighbouring pair is in order, every pair is in order (by transitivity) |
| Priority.Insert | src/router.ts:29 | one insertion round puts `a[..i+1]` in order and permutes the array |
| Priority.SortRoutes | src/router.ts:29-53 | after the in-place sort the array is a permutation of its old contents, and no route ranks strictly above a route placed earlier |
| Matching.FindMismatch | src/router.ts:72-75 | returns no index exactly when every static pattern part equals the location part at its index. Otherwise it returns the first static part that differs |
| Matching.Bind | src/router.ts:82-89 | the `reduce` only adds keys, and every key it adds is the name of a dynamic part. Its full meaning is in BindMeaning |
| Matching.BindMeaning | src/router.ts:82-89 | the fold's keys are the accumulator's keys plus one name per dynamic part. Each name is bound to the location part at its last occurrence (later duplicates overwrite). Other keys are unchanged |
| Matching.Matches | src/router.ts:64-92 | a match never has more pattern parts than pathname parts. Its full meaning is in MatchesMeaning |
| Matching.MatchesMeaning | src/router.ts:64-92 | no match when the pattern has more parts than the pathname. Otherwise it matches exactly when every static part agrees. On a match, the parameters are exactly the dynamic names, each bound to the pathname part at the last index with that name |
| Matching.MatchesIgnoresTail | src/router.ts:72-79 | pathname parts beyond the pattern's length do not affect the result |
| Matching.EmptyPatternMatchesAll | src/router.ts:68-79 | a pattern of separators only (such as "/") matches every pathname with an empty parameter map |
| Routing.FirstMatch | src/router.ts:100-105 | returns no index exactly when no route matches. Otherwise it returns an index that matches, with no match at any earlier index |
| Routing.FirstMatchRanksHighest | src/router.ts:26-29 | in a sorted table, the first matching route ranks no lower than any other matching route |
| Routing.Router.constructor | src/router.ts:19-53 | the router takes the caller's array as its own and sorts it in place. Afterwards the array is sorted and a permutation of what it held |
| Routing.Router.RenderOutlet | src/router.ts:97-106 | on any table, returns the first matching route's `render(params)`, even when it is `undefined`, and returns `undefined` when no route matches. While the table is sorted, that route ranks no lower than any other matching route |
| Examples.MatchUsersId | src/router.ts:64-92 | `/users/:id` matches `/users/42` with `{id: "42"}` |
| Examples.NoMatchAccounts | src/router.ts:72-79 | `/users/:id` does not match `/accounts/42` |
| Examples.PrefixMatch | src/router.ts:68-79 | `/users` matches `/users/42/extra` with no parameters |
| Examples.DuplicateNameLastWins | src/router.ts:82-89 | `/:x/:x` on `/1/2` binds `x` to `"2"` |
| Examples.DeeperFirst | src/router.ts:33-39 | `/a/:b/c` ranks before `/x/:y` |
| Examples.StaticBeforeDynamic | src/router.ts:41-52 | `/users/active` ranks before `/users/:id` |

## Left out

- Lit controller integration is not modelled: `addController`, the `requestUpdate` listener, `hostConnected` and `hostDisconnected` (src/router.ts:23-24, 56-62). They are framework lifecycle glue with no routing logic.
- `navigateEventHandler` and `Router.navigate` are not modelled (src/router.ts:111-124). They are browser side effects: `preventDefault`, `history.pushState` and the `popstate` dispatch.
- What `render` produces (`TemplateResult`) is not modelled. `render` is an arbitrary function field, and `None` stands for `undefined`.
- Priority.SortRoutes: the model sorts by insertion sort. It claims only what any correct `Array.prototype.sort` gives with a consistent comparator: the result is sorted and a permutation. The engine's algorithm, stability and tie order are not claimed.
- The parameter map is a `map<string, string>`. JavaScript object quirks for special keys such as `__proto__` are not modelled.
- Strings are sequences of characters. Percent-encoding and Unicode details of `location.pathname` are not modelled.
