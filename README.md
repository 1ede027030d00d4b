# School directory page: a Dafny model

The page (`src/pages/index.tsx`) fetches a list of schools, may ask the
browser for the user's position, and renders the list sorted by distance
from the user, or by name when no position is known. A search box scrolls
to the school named exactly as the query if there is one, else to the
first school whose name contains the query, ignoring case. The model
covers the sequential logic behind that page:

- `schools.dfy`: the school record and the coordinates (module `Schools`).
- `stable_sort.dfy`: `Array.prototype.sort` with a consistent comparator,
  as a stable insertion sort (module `StableSort`). ES2019 (section
  22.1.3.27 of ECMA-262, 10th edition) requires `sort` to be stable. There
  are two parts: the function `Sort` and the in-place array method
  `SortInPlace`, which is proved to compute it. `Sort` is proved sorted, a
  permutation and stable. `StableSortUnique` proves that any sorted, stable
  rearrangement is equal to `Sort`'s result. So the model gives the same
  array as any conforming engine, whatever sorting algorithm the engine
  runs.
- `search.dfy`: `searchSchools` as a function from the fetched list and the
  query to an `Outcome` (module `Search`). The outcome holds three things:
  the index `find` returns, the alerts in the order they are shown, and the
  element that is scrolled into view. The lower-casing is ASCII `ToLower`.
  `includes` is a recursive `Includes`, proved equal to "occurs at some
  offset".
- `page.dfy`: the component (module `Page`). Class `Home` holds the five
  state cells `schools`, `location`, `userLocation`, `searchQuery` and
  `hoveredSchool`, and a ghost history of the geolocation fixes. Its
  methods are the handlers and `sortSchools`. `sortSchools` copies the
  fetched array into a fresh array and sorts the copy in place.

Parameters stand for the parts that are not modelled:
- `km` is the distance in kilometres that the page's `distance` function
  computes.
- `nameLeq(x, y)` stands for `x.localeCompare(y) <= 0`. It is assumed to be
  a total preorder.

The `schools` cell holds the `schools` field of the response body. `None`
stands for a body without that field, and the initial `[]` is such a body.
In that case the optional chaining gives no sorted view, and the search
finds nothing.

Some facts the proofs bring out:
- An element whose id is the raw query exists only when some school is
  named exactly as the query. That school's name contains the query in any
  case. So the not-found alert fires exactly when no school matches, and
  then it always comes after the "valid name" warning (`NoMatchBothAlerts`).
- The warning does not stop the search. A non-empty matching query shorter
  than four characters still scrolls (`ShortQueryStillScrolls`).
- An exact-name element wins over the first substring match
  (`ExactNameBeatsFirstMatch`).

## Model

| member | source | states |
|---|---|---|
| `Search.ToLower` | src/pages/index.tsx:112 | lower-casing keeps the length and maps each character on its own |
| `Search.IncludesIff` | src/pages/index.tsx:112 | `Includes(s, q)` holds exactly when `q` occurs in `s` at some offset |
| `Search.IncludesLength` | src/pages/index.tsx:112 | a string that includes `q` is at least as long as `q` |
| `Search.HasElement` | src/pages/index.tsx:113-120 | when `getElementById` finds an element for an id, some listed school matches that id case-insensitively, because each listed school's element has the school's name as its id (lines 178, 199, 224) |
| `Search.FindIndex` | src/pages/index.tsx:112 | `find` returns the first school in list order whose lower-cased name contains the lower-cased query; no earlier school matches; no result means no school matches |
| `Search.Resolve` | src/pages/index.tsx:111-126 | the outcome of a search: the warning fires exactly when the query is shorter than 4 or nothing matched; the not-found alert fires exactly when neither an exact-id element nor a match exists; at most two alerts, the warning first; the scroll goes to the element whose id is the query, else to the element whose id is the matched school's name, else nowhere |
| `Search.NotFoundMessageQuotesQuery` | src/pages/index.tsx:122 | the not-found alert's text quotes the raw query, right after "Sorry, we couldn't find '" |
| `Search.ExactNameMatches` | src/pages/index.tsx:112-117 | whenever an element with the query as id exists, `find` has a match |
| `Search.NoMatchBothAlerts` | src/pages/index.tsx:115-123 | the not-found alert fires exactly when nothing matches; then the alerts are exactly the warning followed by the not-found alert, and nothing scrolls |
| `Search.MatchedNameHasElement` | src/pages/index.tsx:119-120 | for a non-empty query the matched school's element exists, so the fall-back scroll is never a no-op |
| `Search.ScrollOrNotFound` | src/pages/index.tsx:117-123 | for a non-empty query the search either scrolls or alerts not-found, never both and never neither; it scrolls to the element whose id is the query if there is one, else to the element whose id is the first match's name |
| `Search.ShortQueryStillScrolls` | src/pages/index.tsx:115-120 | a non-empty matching query shorter than 4 characters gets the warning and still scrolls, without the not-found alert |
| `Search.HasElementPermutation` | src/pages/index.tsx:173-178 | which element ids exist does not depend on the order of the listed schools |
| `Search.ExactNameBeatsFirstMatch` | src/pages/index.tsx:112-118 | on the list "Oaks", "Oak" with query "Oak", `find` returns "Oaks" but the page scrolls to "Oak", with the warning shown |
| `StableSort.InsertPermutes` | src/pages/index.tsx:100-107 | inserting adds exactly the inserted element |
| `StableSort.SortPermutes` | src/pages/index.tsx:97-107 | the sorted list is a permutation of the input |
| `StableSort.InsertSorted` | src/pages/index.tsx:100-107 | insertion into a sorted list keeps it sorted |
| `StableSort.SortSorted` | src/pages/index.tsx:100-107 | under a consistent comparator the result is non-decreasing |
| `StableSort.InsertKeepsEquals` | src/pages/index.tsx:100-107 | inserting an element places it after all elements equal to it and leaves every other group of equal elements as it was |
| `StableSort.SortStable` | src/pages/index.tsx:100-107 | elements the comparator calls equal keep their input order |
| `StableSort.StableSortUnique` | src/pages/index.tsx:100-107 | two sorted, stable arrangements of the same elements are equal |
| `StableSort.SortIsTheStableSort` | src/pages/index.tsx:100-107 | any sorted, stable result of sorting a list is exactly `Sort` of that list |
| `StableSort.SortInPlace` | src/pages/index.tsx:100-107 | sorting the array in place leaves it holding `Sort` of its old contents |
| `StableSort.InsertInPlace` | src/pages/index.tsx:100-107 | one pass of the in-place sort inserts the next element into the sorted prefix and leaves the rest alone |
| `Page.ByDistance` | src/pages/index.tsx:100-105 | `a` may stay in front of `b` exactly when `distanceA - distanceB` is not positive; this comparator is always consistent |
| `Page.ByName` | src/pages/index.tsx:107 | `a` may stay in front of `b` exactly when `a.name.localeCompare(b.name)` is not positive; this comparator is consistent whenever collation is |
| `Page.ViewOrderIsPreorder` | src/pages/index.tsx:99-107 | the comparator `sortSchools` picks is consistent: always when the location is known, and otherwise when collation is a total preorder |
| `Page.SearchBeforeFetch` | src/pages/index.tsx:112-123 | with no list (`undefined?.find`), a search finds nothing, shows the warning then the not-found alert, and scrolls nowhere |
| `Page.SortedViewProperties` | src/pages/index.tsx:97-108 | the sorted view is a permutation of the fetched list; it is non-decreasing in distance from the user when the location is known and in name order otherwise; equal keys keep fetched order |
| `Page.RenderedIdsAreFetchedNames` | src/pages/index.tsx:173-178 | the rendered (sorted) list has an element for exactly the ids the fetched list has |
| `Page.Home.constructor` | src/pages/index.tsx:15-22 | initial state: no list, flag false, coordinates (0, 0), empty query, nothing hovered |
| `Page.Home.SetSchools` | src/pages/index.tsx:25-29 | storing the response body replaces the list and nothing else |
| `Page.Home.Success` | src/pages/index.tsx:31-44 | success stores the coordinates and sets the flag; the coordinates are always the latest fix, or (0, 0) before any |
| `Page.Home.Error` | src/pages/index.tsx:46-50 | error clears the flag, keeps the last coordinates, and afterwards `getDistance` gives null for every school |
| `Page.Home.HandleSearchChange` | src/pages/index.tsx:134 | the query becomes the input's value; nothing else changes |
| `Page.Home.HandleHover` | src/pages/index.tsx:136 | the hovered school is set; nothing else changes |
| `Page.Home.HandleHoverLeave` | src/pages/index.tsx:138 | the hovered school is cleared; nothing else changes |
| `Page.Home.GetDistance` | src/pages/index.tsx:84-91 | null exactly when the flag is false; otherwise the distance from the latest geolocation fix, never from the (0, 0) placeholder |
| `Page.Home.SortSchools` | src/pages/index.tsx:94-109 | no view when the `schools` field is missing; otherwise a fresh array holding the stable sort of the fetched list under the comparator the flag selects, with the fetched array left as it was |
| `Page.Home.SearchSchools` | src/pages/index.tsx:111-126 | the outcome is the search resolution of the query against the fetched list, and afterwards the query is empty, whatever the outcome |
| `Page.Home.HandleSearch` | src/pages/index.tsx:128-131 | searches for the current query; afterwards the submit button (disabled while the query is empty, line 161) is disabled |

## Left out

- Schools.School: records are assumed well-formed, as the types require. The source accepts any JSON and throws a `TypeError` on malformed data; the model does not capture these exceptions. A `null` body throws during render at src/pages/index.tsx:97 (`schools[0].schools`) and in a search at :112 (`schools.schools`). A record without a string `name` throws in the name sort at :107 (`a.name.localeCompare`) and in a search at :112 (`school.name.toLowerCase()`); that search stops before :125, so the query is not cleared and no alert is shown.
- The great-circle `distance` formula (src/pages/index.tsx:59-81) and the `toFixed(2)` formatting in `getDistance`. These are floating-point trigonometry and decimal output. The model takes the distance in kilometres as the parameter `km` over reals, and `GetDistance` returns that real instead of a two-decimal string.
- Page.ByDistance: a comparator result that is `NaN` is not modelled. Such a result could come from `acos` of an argument below -1, which `distance` does not clamp. The model compares real distances, so its comparator is always consistent.
- `localeCompare` collation. It is the parameter `nameLeq`, assumed to be a total preorder, as a consistent comparator must be.
- Search.ToLower: lower-cases ASCII letters only. `toLowerCase` applies full Unicode case mapping, which can also change a string's length.
- Search.Resolve: the query length is counted in characters, whereas `length` counts UTF-16 code units.
- Search.Resolve: the scroll target is an id, not an element. When two schools share a name, `getElementById` returns the first element in document order, which is the first of them in the sorted view. That need not be the school `find` returned.
- Search.HasElement: only the elements the list renders are considered. Any other element on the page whose id happens to equal the query (for example a framework's root element) is not modelled.
- The network fetch, the `navigator.geolocation` request with its options, and the `useEffect` re-runs (src/pages/index.tsx:25-29, 52-56, 140-147) are asynchronous browser I/O. Only the resulting state updates are modelled: `SetSchools`, `Success` and `Error`. The position's accuracy and the error's code and message are only logged, so they are left out, along with all `console` output.
- `alert`, `getElementById` and `scrollIntoView` are DOM and browser calls. They appear only as values in the search `Outcome`. `e.preventDefault()` in `handleSearch` is left out.
- The JSX rendering, the tooltips, the layout switch on `window.innerWidth`, the county display tweak and the assets (src/pages/index.tsx:150-238) are presentation only. From the rendering, the model keeps just the fact that each listed school gets an element whose id is its name.
- Page.Home.HandleSearch: does not require a non-empty query. The browser does not submit the form while the button is disabled, but the handler itself does not check. An empty query is resolved as the code would resolve it.
