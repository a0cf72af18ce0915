# zenith collections and route cache, in Dafny

A model of the three pieces of logic in the zenith iOS framework that exist apart from UIKit:

- `Map` (Sources/zenith/foundation/Map.swift): an immutable map from `String` to `Any`. The operations that change the map copy the private dictionary, change the copy and return a new `Map`. The others return a value, or the receiver with a value. No operation changes the receiver. Module `Map` (map.dfy) models it with functions over Dafny's `map<string, V>`. A generic `V` stands for `Any` and `Option<V>` (optional.dfy) stands for `Any?`. `split` walks its key list in a loop, so it is a loop method (`Map.Split`) proved equal to `Drop` and `Take`.
- `List` (Sources/zenith/foundation/List.swift): sequence helpers over a private `[Any]`. Module `List` (list.dfy) models them with functions over `seq<T>`, and Dafny equality stands for `AnyObject.isEqual`. `duplicate` and `startsWith` are loops in the source, so they are loop methods here.
- `Router.fetchController(for:)` (Sources/zenith/navigation/Router.swift): a memoising cache of view controllers keyed by route identifier. It is switched on or off once, when the router is created. Module `Routing` (router.dfy) models it as a class. The class has a mutable `routeCache: map<string, Controller>` field and a `const cacheRoutes`. `Controller` is a class. The `RouteOption` protocol only declares `controller`; the model assumes, as the protocol's documented example does, that every read of `route.controller` builds a new object.

Every Swift trap is a precondition. That covers `console.error` followed by `fatalError()`, an array index out of range, and the invalid range `0...n` with `n < 0`.

Several List operations do something other than what their doc comments or names say. The model follows the code:
- `delete(_:item:)` keeps only the elements equal to the item.
- `duplicate` makes `times + 1` copies.
- `keySort` repeats one pair and sorts nothing.
- `pop`, `replace` and `update` at an index have inverted guards. For every `at` below the count, negative ones included, they return the list unchanged; `at >= count` traps.
- `startsWith` traps whenever the prefix matches, so it can only return false.
- `flatten` is documented to flatten nested lists, but `compactMap { $0 }` over `[Any]` returns the list unchanged, nested lists included.

Module `ListIntended` (list_intended.dfy) holds the evidently intended versions of the clear-cut cases. Each sits beside a concrete input that tells the two apart (see "## Findings").

In `Map.merge` with a resolver, the code folds over the left map only and fetches every key from both maps. So a left key that is missing on the right is a fatal KeyError, and keys found only on the right are dropped. `Map.Merge` states exactly this.

## Model

| member | source | states |
|---|---|---|
| Map.Empty | Sources/zenith/foundation/Map.swift:14-16 | `init()` holds no key |
| Map.FromContext | Sources/zenith/foundation/Map.swift:18-20 | `init(_ context:)` has exactly the dictionary's keys, each with its value |
| Map.FromList | Sources/zenith/foundation/Map.swift:22-29 | the list initialiser keeps every key of every dictionary of the list, and the last dictionary's entries win outright |
| Map.FromListKeys | Sources/zenith/foundation/Map.swift:22-29 | the list initialiser holds a key iff some dictionary of the list holds it |
| Map.FromListLaterWins | Sources/zenith/foundation/Map.swift:22-29 | each key takes its value from the last dictionary of the list that holds it (`merge { $1 }`) |
| Map.FromTransform | Sources/zenith/foundation/Map.swift:31-40 | the transforming initialiser holds the key of every transformed element, and the last element's pair is stored as is |
| Map.FromTransformKeys | Sources/zenith/foundation/Map.swift:31-40 | the transforming initialiser holds a key iff some element is transformed to that key |
| Map.FromTransformLaterWins | Sources/zenith/foundation/Map.swift:31-40 | each key takes its value from the last element transformed to that key |
| Map.Count | Sources/zenith/foundation/Map.swift:42-44 | the count is zero exactly for the empty map |
| Map.Delete | Sources/zenith/foundation/Map.swift:46-52 | the key is absent afterwards and every other entry is kept; an absent key is no error |
| Map.DeleteIdempotent | Sources/zenith/foundation/Map.swift:46-52 | deleting twice equals deleting once; the count drops by one exactly when the key was present |
| Map.Drop | Sources/zenith/foundation/Map.swift:54-61 | keeps exactly the entries whose key is not listed, with their values |
| Map.Equal | Sources/zenith/foundation/Map.swift:63-65 | true iff both maps have the same keys and equal values under each |
| Map.Fetch | Sources/zenith/foundation/Map.swift:67-74 | requires the key (KeyError otherwise) and returns its value |
| Map.Get | Sources/zenith/foundation/Map.swift:76-82 | returns the same map, and the value if the key is present or else the default |
| Map.AbsentKey | Sources/zenith/foundation/Map.swift:76-82 | on an absent key `get` returns the same map with the default, `hasKey` is false and `delete` changes nothing |
| Map.GetAndUpdate | Sources/zenith/foundation/Map.swift:84-96 | requires the key; a non-nil `fun(old)` is stored under it, a nil one removes it; other entries are kept |
| Map.GetLazy | Sources/zenith/foundation/Map.swift:98-104 | returns the same map, and the value if the key is present or else the supplier's value |
| Map.HasKey | Sources/zenith/foundation/Map.swift:126-128 | returns the same map and whether the key is present |
| Map.Keys | Sources/zenith/foundation/Map.swift:130-132 | returns the same map and every key exactly once |
| Map.Values | Sources/zenith/foundation/Map.swift:134-136 | returns the same map and one value per entry, the i-th being the value of the i-th key of `keys` |
| Map.Merge | Sources/zenith/foundation/Map.swift:138-157 | without a resolver, the union with the right map winning on shared keys; with one, requires every left key on the right and yields exactly the left keys, each valued `fun(k, left[k], right[k])` |
| Map.Pop | Sources/zenith/foundation/Map.swift:159-168 | the key is absent afterwards and other entries are kept; returns its old value, or the default when it was absent |
| Map.PopLazy | Sources/zenith/foundation/Map.swift:170-176 | as `pop`, with the supplier's value when the key was absent |
| Map.Put | Sources/zenith/foundation/Map.swift:178-184 | the key maps to the value and every other entry is kept |
| Map.PutThenFetch | Sources/zenith/foundation/Map.swift:178-184 | after `put`, `hasKey` is true and `fetch` returns the value; the count grows by one exactly when the key is new |
| Map.PutNew | Sources/zenith/foundation/Map.swift:186-192 | the same map when the key is present, otherwise `put` |
| Map.PutNewLazy | Sources/zenith/foundation/Map.swift:194-203 | the same map when the key is present, otherwise `put` of the supplier's value |
| Map.Replace | Sources/zenith/foundation/Map.swift:205-213 | requires the key (KeyError otherwise); keeps the key set and equals `put` |
| Map.Split | Sources/zenith/foundation/Map.swift:215-229 | the loop leaves exactly `drop(keys)` as the remaining map and `take(keys)` as the split-off map; absent and repeated keys are skipped |
| Map.SplitReassembles | Sources/zenith/foundation/Map.swift:215-229 | the two halves of `split` have disjoint keys and merge back into the original map |
| Map.Take | Sources/zenith/foundation/Map.swift:231-237 | keeps exactly the entries whose key is listed, with their values |
| Map.EntriesEnumerate | Sources/zenith/foundation/Map.swift:239-245 | the dictionary's entries, as the model enumerates them, hold every entry exactly once |
| Map.ToList | Sources/zenith/foundation/Map.swift:239-245 | returns the same map and `count` pairs, one (key, value) pair per entry, no key twice |
| Map.ToListRoundTrip | Sources/zenith/foundation/Map.swift:239-245 | rebuilding a map from its `toList` pairs with the transforming initialiser gives a map `equal` to it |
| Map.Update | Sources/zenith/foundation/Map.swift:247-260 | requires the key (KeyError otherwise); keeps the key set, stores `fun(old)` under it and keeps every other entry |
| Map.UpdateWithInitial | Sources/zenith/foundation/Map.swift:262-271 | the key is always present afterwards, valued `fun(old ?? initial)`; every other entry is kept |
| List.ObjectAtIndex | Sources/zenith/foundation/List.swift:19-21 | requires an index in range; returns the same list and the element there |
| List.DeleteItem | Sources/zenith/foundation/List.swift:30-39 | the result is the item repeated as often as it occurs in the list: the filter keeps the equal elements |
| List.DeleteAt | Sources/zenith/foundation/List.swift:47-53 | requires an index in range; one element shorter, elements before it kept, elements after it shifted down by one |
| List.Duplicate | Sources/zenith/foundation/List.swift:61-69 | requires `times >= 0` (an invalid range traps); returns `times + 1` copies of the value |
| List.First | Sources/zenith/foundation/List.swift:76-78 | returns the same list and the first element, nil exactly for an empty list |
| List.Flatten | Sources/zenith/foundation/List.swift:85-87 | `compactMap { $0 }` over non-optional elements returns the list itself |
| List.FlattenTail | Sources/zenith/foundation/List.swift:94-96 | the list followed by the tail |
| List.Fold | Sources/zenith/foundation/List.swift:105-107 | `reduce` from the accumulator: the fold of a non-empty list applies `fun` to the fold of all but the last element and that last element |
| List.FoldAppend | Sources/zenith/foundation/List.swift:105-107 | `fold` is a left fold from the accumulator: folding one more element applies `fun` to the fold so far and that element |
| List.InsertAt | Sources/zenith/foundation/List.swift:109-114 | requires `0 <= index <= count`; the value sits at `index`, earlier elements are kept, later ones shift up by one |
| List.InsertThenObjectAt | Sources/zenith/foundation/List.swift:19-21 | `objectAtIndex` at the index just inserted at returns the inserted value; below it, the element that was there before |
| List.InsertThenDelete | Sources/zenith/foundation/List.swift:109-114 | deleting at the index just inserted at gives the original list |
| List.FirstKeyIndex | Sources/zenith/foundation/List.swift:117-118 | `firstIndex(where:)` on a list with a matching key finds the first pair with that key |
| List.KeyDelete | Sources/zenith/foundation/List.swift:116-126 | requires a pair with the key (fatal otherwise); removes the first such pair and keeps all others in order |
| List.KeyFind | Sources/zenith/foundation/List.swift:128-136 | requires a pair with the key (fatal otherwise); returns the first such pair, never the default |
| List.KeyMember | Sources/zenith/foundation/List.swift:138-146 | true iff some pair has the key |
| List.KeyReplace | Sources/zenith/foundation/List.swift:148-158 | requires a pair with the key (fatal otherwise); replaces the first such pair and keeps all others |
| List.KeySort | Sources/zenith/foundation/List.swift:160-170 | requires `0 <= position < count`; the result is one longer, keeps the pairs up to `position`, repeats the pair at `position`, and is the list plus one more copy of that pair |
| List.Last | Sources/zenith/foundation/List.swift:172-174 | the last element, nil exactly for an empty list |
| List.Pop | Sources/zenith/foundation/List.swift:176-187 | requires `at < count` (otherwise the read traps); returns the list unchanged and nil |
| List.Replace | Sources/zenith/foundation/List.swift:189-198 | requires `at < count` (otherwise the write traps); returns the list unchanged |
| List.StartsWith | Sources/zenith/foundation/List.swift:200-210 | requires that the prefix is not a prefix of the list (otherwise the loop reads `prefix[count]` and traps); returns false |
| List.Update | Sources/zenith/foundation/List.swift:218-229 | requires `at < count` (otherwise the read traps); returns the list unchanged |
| List.Zip | Sources/zenith/foundation/List.swift:239-241 | as long as the shorter list; the i-th element is the pair of the i-th elements |
| ListIntended.DeleteFirstItem | Sources/zenith/foundation/List.swift:23-25 | a list without the item comes back unchanged |
| ListIntended.DeleteFirstItemMultiset | Sources/zenith/foundation/List.swift:23-25 | exactly one occurrence of the item is removed when there is one, and nothing else |
| ListIntended.DeleteFirstItemAt | Sources/zenith/foundation/List.swift:23-25 | the occurrence removed is the first one, with everything before and after it kept in order |
| ListIntended.DeleteItemKeepsItem | Sources/zenith/foundation/List.swift:30-39 | on `[1, 2]` and item `1` the code returns `[1]`, the intended deletion `[2]` |
| ListIntended.DuplicateTimes | Sources/zenith/foundation/List.swift:55-59 | `times` copies of the value, as the doc comment describes |
| ListIntended.DuplicateTwo | Sources/zenith/foundation/List.swift:61-69 | for two copies the code returns three elements, the intended loop two |
| ListIntended.PopAt | Sources/zenith/foundation/List.swift:176-187 | in range, returns the element and a list one shorter; past the end, the list and nil |
| ListIntended.PopAtThenInsert | Sources/zenith/foundation/List.swift:176-187 | inserting the popped element where it was gives the list back |
| ListIntended.PopInRangeRemovesNothing | Sources/zenith/foundation/List.swift:176-187 | popping index 0 of `[1, 2]`: the code gives `([1, 2], nil)`, the intended guard `([2], 1)` |
| ListIntended.ReplaceAt | Sources/zenith/foundation/List.swift:189-198 | in range, the value is stored at `at` and all else kept; past the end, the list unchanged |
| ListIntended.ReplaceInRangeChangesNothing | Sources/zenith/foundation/List.swift:189-198 | replacing index 0 of `[1, 2]` by 9: the code gives `[1, 2]`, the intended guard `[9, 2]` |
| ListIntended.UpdateAt | Sources/zenith/foundation/List.swift:218-229 | in range, `fun(old)` is stored at `at` and all else kept; past the end, the list unchanged |
| ListIntended.UpdateInRangeChangesNothing | Sources/zenith/foundation/List.swift:218-229 | incrementing index 0 of `[1, 2]`: the code gives `[1, 2]`, the intended guard `[2, 2]` |
| ListIntended.StartsWithPrefix | Sources/zenith/foundation/List.swift:200-210 | true exactly when the prefix is an initial segment of the list |
| ListIntended.StartsWithOnPrefix | Sources/zenith/foundation/List.swift:200-210 | `[1]` is a prefix of `[1, 2]`: the code traps there, the intended loop returns true |
| Routing.BuildController | Sources/zenith/navigation/RouteOption.swift:20-34 | every read of `route.controller` yields a fresh controller built for that route |
| Routing.Router.constructor | Sources/zenith/navigation/Router.swift:18-30 | the cache starts empty and `cacheRoutes` is fixed to the argument (a `const`, never changed afterwards) |
| Routing.Router.FetchController | Sources/zenith/navigation/Router.swift:127-143 | caching off: a fresh controller, cache unchanged; caching on and cached: the cached controller, cache unchanged; caching on and not cached: a fresh controller, now cached under the identifier; existing entries are never replaced or removed |
| Routing.Router.FetchTwice | Sources/zenith/navigation/Router.swift:127-143 | with caching on, two fetches of one route in a row return the same controller, which the cache then holds |

## Left out

- `Map.from(struct:)`: it goes through `JSONEncoder` and `JSONSerialization`, which are foreign library calls (Map.swift:106-124).
- The `console` logger: it only writes debug output before a fatal error. Each such path is a violated precondition here.
- String equality of keys and identifiers: the model compares `Map` keys, the keys of the List key operations (`keyDelete`, `keyFind`, `keyMember`, `keyReplace`) and route identifiers code point by code point. Swift's `String` `==` and hashing use canonical equivalence, so `"\u{E9}"` and `"e\u{301}"` are one `[String: Any]` key in the source and two keys here. The model matches the source only on keys that share one Unicode normalisation form. Dafny has no Unicode normalisation to model this with.
- `NSDictionary.isEqual` and `AnyObject.isEqual`: they are Foundation's dynamic equality on `Any`. The model uses Dafny equality on the generic value type.
- Map.Keys: states membership, distinctness and length only. Swift leaves dictionary iteration order unspecified, so no order is claimed. `Keys`, `Values` and `ToList` are ghost functions over one enumeration fixed by choice (`Map.Entries`).
- Map.Values: states only that the i-th value belongs to the i-th key of `keys`. The order itself is unspecified, as for `Keys`.
- Map.ToList: states the pairs as a set of entries, never their order, for the same reason.
- Supplier laziness in `getLazy`, `popLazy` and `putNewLazy`: a pure model cannot observe that the supplier runs only when the key is absent. Only the returned values are modelled.
- Copy-then-mutate: `delete`, `put`, `pop`, `getAndUpdate` and `update` mutate a local copy of the dictionary. `List.delete(_:at:)`, `insertAt`, `keyDelete` and `keyReplace` do the same with a local copy of the array. No one else can see those copies, so each operation is modelled by the value it returns.
- The `as? [(String, Any)]` casts of the key operations: the model's lists hold (key, value) pairs by type, so the cast cannot fail. The "requires a list of tuples" trap on a failed cast is not modelled, and neither is `keyMember` returning false for a list that is not of pairs.
- The unused parameters (`position` of `keyDelete`, `keyFind`, `keyMember` and `keyReplace`, and `default` of `keyFind`) are kept and ignored, as in the source. `keySort` does use its `position`.
- Routing.BuildController: assumes every read of `route.controller` builds a new controller, as the documented computed property does (RouteOption.swift:20-27). The protocol (RouteOption.swift:34) does not require it, and the `fresh(c)` clauses of `FetchController` rest on this assumption.
- List.KeySort: models the concatenation the code performs. The source gives no sort key and no order, so there is no evidently intended sort to prove against.
- `List.toString` and `List.wrap`: they depend on Swift string interpolation of `Any` and on a runtime type cast.
- Swift's 64-bit `Int` is modelled as an unbounded `int`. The overflow of `at + 1` at `Int.max` in `pop`, `replace` and `update` lies outside their preconditions.
- `Router.navigate`, `present` and `move`: they are UIKit presentation (key window, navigation controller, window root, animation). `browserCache` is never used.
- Routes are reduced to an identifier string. The default identifier is the type name of the route's controller, obtained by reflection. Two routes with the same identifier share one cache entry: `Router.Valid` only promises that a cached controller was built for a route with that identifier. The documented example at RouteOption.swift:16-28 hits this: both `.home` and `.about` return a `UINavigationController`, so both have the identifier "UINavigationController", and with caching on, fetching `.about` after `.home` returns the home controller.
- `ViewController`, `ViewComponent`, `Component`, `StateViewComponent`, `alert` and the `UINavigationController` extension: they are UIKit lifecycle glue.

## Findings

| source | as written | input that shows it | evidently intended | confidence | as-written member | corrected member |
|---|---|---|---|---|---|---|
| Sources/zenith/foundation/List.swift:30-39 | the filter keeps the elements equal to the item | `delete([1, 2], item: 1)` gives `[1]` | remove the first occurrence of the item (doc comment, lines 23-25), giving `[2]` | high; not executed | List.DeleteItem; ListIntended.DeleteItemKeepsItem | ListIntended.DeleteFirstItem; ListIntended.DeleteFirstItemAt; ListIntended.DeleteFirstItemMultiset |
| Sources/zenith/foundation/List.swift:61-69 | `for _ in 0...times` appends `times + 1` copies | `duplicate(7, times: 2)` has 3 elements | `times` copies (doc comment, lines 55-59) | medium; not executed | List.Duplicate; ListIntended.DuplicateTwo | ListIntended.DuplicateTimes |
| Sources/zenith/foundation/List.swift:176-187 | guard `count < at + 1` is inverted: an index in range returns `(list, nil)`, an index past the end traps | `pop([1, 2], at: 0)` gives `([1, 2], nil)` | remove and return the element in range, `(list, nil)` past the end | high; not executed | List.Pop; ListIntended.PopInRangeRemovesNothing | ListIntended.PopAt; ListIntended.PopAtThenInsert |
| Sources/zenith/foundation/List.swift:189-198 | the same inverted guard: an index in range is not replaced, one past the end traps | `replace([1, 2], at: 0, value: 9)` gives `[1, 2]` | store the value in range, unchanged past the end | high; not executed | List.Replace; ListIntended.ReplaceInRangeChangesNothing | ListIntended.ReplaceAt |
| Sources/zenith/foundation/List.swift:218-229 | the same inverted guard: an index in range is not updated, one past the end traps | `update([1, 2], at: 0) { $0 + 1 }` gives `[1, 2]` | store `fun(old)` in range, unchanged past the end | high; not executed | List.Update; ListIntended.UpdateInRangeChangesNothing | ListIntended.UpdateAt |
| Sources/zenith/foundation/List.swift:200-210 | the loop `0...prefix.count` reads `prefix[prefix.count]` once all indices match, so the function traps instead of returning true | `startsWith([1, 2], prefix: [1])` traps | loop over `0..<prefix.count` and return true for a prefix | high; not executed | List.StartsWith; ListIntended.StartsWithOnPrefix | ListIntended.StartsWithPrefix |
