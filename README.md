# Org-chart search, filter and expansion — a Dafny model

The application shows a company org chart as a collapsible tree. A search
box and two drop-downs (department, grade) narrow it: every employee is
checked against the three filters, subtrees with no matching employee are
pruned, and the survivors are flagged as highlighted (the name matches) or
exact matches (all three filters match). Each rendered node keeps an
expand/collapse choice of the user's and shows its reports exact matches first.

This project models that core in Dafny and proves what it guarantees:

- `Grades.dfy` — `GetGrade`, the rating-to-letter bucketing.
- `Text.dfy` — ASCII lower-casing and substring search (`toLowerCase`, `includes`).
- `OrgChart.dfy` — the records: `Employee` as loaded (with a `reports`
  list that may be missing), `Filtered` as produced by the search.
- `Search.dfy` — the three match predicates, `SearchTree` (the post-order
  rebuild), `FilterForest` (the entry point over the roots) and the lemmas
  about them: survival iff the subtree holds a match, the flags and copied
  fields of every survivor, well-formedness of the result, and the
  unfiltered case.
- `ChildOrder.dfy` — the exact-matches-first order as a stable partition,
  the in-place array sort that produces it, and its permutation, partition,
  stability and uniqueness lemmas.
- `Expansion.dfy` — the tri-state expansion policy as pure functions with
  lemmas; `TreeNodes.dfy` — the `TreeNode` class holding that state and
  its reports array, with `ToggleExpand` and `ShownReports`.

On these points the code behaves differently from what a reader might
expect; the model follows the code:

- `isHighlighted` is the name match alone, so with an empty search term every
  kept node is highlighted (`Search.EmptyTermHighlightsAll`); the flags are
  not forced false.
- The department filter compares exactly, case included
  (`Search.DepartmentMatchCases`: "sales" does not select "Sales").
- The default expansion is `isRoot || isExactMatch || isHighlighted`, with no
  extra term for an active search.
- A click on a node with no stored choice stores `!isRoot`, not the negation
  of what is shown; a highlighted or matching non-root node therefore stays
  open on its first click (`Expansion.FirstToggleFlipsUnlessMatched`).

## Model

| member | source | states |
|---|---|---|
| `Grades.GetGrade` | src/App.js:13-18 | The grade is "A" iff rating >= 4.0, "B" iff 3.0 <= rating < 4.0, "C" iff 2.0 <= rating < 3.0, "D" iff rating < 2.0 (negatives included); always one of the four letters. |
| `Grades.GradeBoundaries` | src/App.js:13-18 | Each band includes its lower bound: 4.0, 3.999, 3.0, 2.999, 2.0, 1.999, -1 grade A, B, B, C, C, D, D. |
| `Text.LowerChar` | src/App.js:22 | An upper-case ASCII letter becomes the letter 32 code points above it (its lower-case form); every other character is kept; the result is never an upper-case ASCII letter. |
| `Text.ToLower` | src/App.js:22 | Lower-casing keeps the length. |
| `Text.ToLowerAt` | src/App.js:22 | Lower-casing works position by position: each character of the result is the lower-cased character at the same index. |
| `Text.ToLowerIdempotent` | src/App.js:22 | Lower-casing twice equals lower-casing once. |
| `Text.ToLowerCaseBlind` | src/App.js:22 | Two strings that differ only in ASCII case lower-case to the same string. |
| `Text.Contains` | src/App.js:22 | `includes` holds for the empty needle, and never holds for a needle longer than the haystack. |
| `Text.ContainsIffOccurs` | src/App.js:22 | `includes` holds iff the needle occurs at some offset of the haystack (the empty needle occurs everywhere). |
| `Search.NameMatch` | src/App.js:21-22 | An empty term matches every name; a matching term is never longer than the name. |
| `Search.DepartmentMatch` | src/App.js:24-27 | "All" passes every department and an "Executive" passes every filter; any other pass needs the department to equal the filter exactly. |
| `Search.GradeMatch` | src/App.js:29-30 | "All" passes every rating; a filter that passes anything is "All" or one of the four letters. |
| `Search.IsMatch` | src/App.js:21-30 | With an empty term and both filters "All" every employee matches; a matching term is never longer than the name. |
| `Search.NameMatchIgnoresCase` | src/App.js:21-22 | The name match is unchanged when the name or the term is lower-cased first. |
| `Search.NameMatchCaseBlind` | src/App.js:21-22 | Names and terms that differ only in ASCII case give the same name match. |
| `Search.NameMatchIffOccurs` | src/App.js:21-22 | The name matches iff the term is empty or the lower-cased term occurs in the lower-cased name. |
| `Search.NameMatchExample` | src/App.js:21-22 | "ali" and "ALI" both match "Alice". |
| `Search.DanNameMatches` | src/App.js:21-22 | "dan" matches "Dan". |
| `Search.CarolNameMisses` | src/App.js:21-22 | "dan" does not match "Carol". |
| `Search.DepartmentMatchCases` | src/App.js:24-27 | "Executive" passes every department filter; otherwise a filter other than "All" passes exactly the identically spelled department, so "sales" does not pass "Sales". |
| `Search.GradeMatchBands` | src/App.js:29-30 | The grade filter passes iff it is "All" or it is the letter of the rating's band; any other filter passes nothing. |
| `OrgChart.Children` | src/App.js:33-37 | The reports of an employee, a missing list counting as none; each report is strictly smaller than its manager, so the recursion terminates. |
| `Search.Compact` | src/App.js:37 | Dropping the null results never lengthens, and gives an empty list iff every result is null. |
| `Search.CompactMembers` | src/App.js:37 | Dropping the null results keeps exactly the present values. |
| `Search.CompactAppend` | src/App.js:32-37 | Dropping nulls distributes over concatenation, so survivors keep their original order. |
| `Search.CompactAllSome` | src/App.js:32-37 | When no result is null, dropping nulls keeps every result in place. |
| `Search.SearchReports` | src/App.js:32-36 | The reports are searched one by one, a missing list counting as empty: one result per report. |
| `Search.SearchTree` | src/App.js:20-49 | A kept node is an exact match or keeps at least one report, and never keeps more reports than it had. |
| `Search.SearchTreeSurvives` | src/App.js:39-48 | A node is kept iff it matches all three filters or the search of at least one of its reports keeps that report. |
| `Search.SearchTreeCopies` | src/App.js:40-47 | A kept node copies name, position, department, image and metrics; `isHighlighted` is the name match; `isExactMatch` is the conjunction of the three matches (so it implies `isHighlighted`); its reports are the non-null searches of the original reports, in order. |
| `Search.SurvivesIffSubtreeMatch` | src/App.js:20-49 | A node is kept iff some node of its subtree matches all three filters. |
| `Search.SearchTreeWellFormed` | src/App.js:39-48 | In every returned tree, every exact match is highlighted and every node that is not an exact match has a kept report; so every kept leaf is an exact match. |
| `Search.Unfiltered` | src/App.js:41-47 | The reference tree with every node kept and flagged has the input's name and number of reports at each node. |
| `Search.NoFilterKeepsAll` | src/App.js:21-47 | With an empty term and both filters "All" the search returns the whole tree, same shape and child order, every node an exact match. |
| `Search.EmptyTermHighlightsAll` | src/App.js:21-22 | With an empty term every kept node is highlighted, whatever the other filters. |
| `Search.FilterForest` | src/App.js:119-123 | The result forest is no longer than the roots and holds exactly the non-null searches of the roots. |
| `Search.FilterForestAppend` | src/App.js:119-123 | The forest filter keeps the order of the roots. |
| `Search.FilterForestSurvivors` | src/App.js:119-123 | The result forest is empty iff no root's subtree holds a match (so an empty input gives an empty result); every tree in it is well formed. |
| `Search.FilterForestNoFilter` | src/App.js:119-123 | With no term and no filters every root comes back whole, in order. |
| `Search.DanExample` | src/App.js:20-49 | Searching "dan" keeps the leaf "Dan" as a highlighted exact match with no reports. |
| `Search.CarolExample` | src/App.js:20-49 | Searching "dan" keeps the executive "Carol" unflagged, holding only Dan. |
| `Search.FilterForestSingle` | src/App.js:119-123 | A forest of one root filters to that root's search result, or to nothing. |
| `Search.SearchExample` | src/App.js:119-123 | The forest [Carol] searched for "dan" is exactly [Carol unflagged, holding Dan flagged as highlighted and exact match]. |
| `ChildOrder.Keep` | src/App.js:101 | Selecting one group never lengthens the list. |
| `ChildOrder.KeepFlags` | src/App.js:101 | Every entry of a selected group carries that group's flag. |
| `ChildOrder.KeepLengths` | src/App.js:101 | The two groups together are as long as the list. |
| `ChildOrder.KeepAppend` | src/App.js:101 | Selecting a group distributes over concatenation. |
| `ChildOrder.ExactFirst` | src/App.js:101 | The exact-first order (exact matches, then the rest) is as long as the reports. |
| `ChildOrder.ExactFirstPermutation` | src/App.js:101 | The exact-first order is a permutation of the reports. |
| `ChildOrder.ExactFirstPartitioned` | src/App.js:101 | In the exact-first order every exact match precedes every other report. |
| `ChildOrder.ExactFirstStable` | src/App.js:101 | Within each group the exact-first order keeps the original relative order. |
| `ChildOrder.ExactFirstUnique` | src/App.js:101 | Any partitioned arrangement that keeps the order inside both groups equals the exact-first order: it is what a stable sort with comparator `b.isExactMatch - a.isExactMatch` yields. |
| `ChildOrder.PlaceGroup` | src/App.js:101 | Writes one group, in order, into the array from a start index and leaves the entries before it alone. |
| `ChildOrder.SortExactFirst` | src/App.js:100-101 | Sorting the reports array in place leaves it holding the exact-first order of its old contents. |
| `Expansion.Effective` | src/App.js:59-63 | A stored user choice decides; with none, the node is open iff it is a root, an exact match or highlighted. |
| `Expansion.Toggled` | src/App.js:55-57 | After a click the user's choice is always set. |
| `Expansion.ToggleTwiceRestores` | src/App.js:55-57 | Once set, two clicks restore the stored choice. |
| `Expansion.ToggleTwiceFromUnset` | src/App.js:55-57 | From unset, two clicks leave the node open exactly when it is a root. |
| `Expansion.ToggleFlipsChosen` | src/App.js:55-63 | Once set, every click flips whether the reports are shown. |
| `Expansion.FirstToggleFlipsUnlessMatched` | src/App.js:55-63 | The first click flips what is shown iff the node is a root or neither an exact match nor highlighted. |
| `Expansion.DefaultOpenOnSearchResult` | src/App.js:59-63 | On a search result an unset node is open iff it is a root or highlighted. |
| `Expansion.EmptyTermOpensAll` | src/App.js:21-22 | With an empty term every kept node is open by default. |
| `TreeNodes.TreeNode.constructor` | src/App.js:52-53 | A new node has no user choice and a reports array holding its reports. |
| `TreeNodes.TreeNode.IsExpanded` | src/App.js:59-63 | The node's stored choice when there is one; otherwise open iff it is a root, an exact match or highlighted. |
| `TreeNodes.TreeNode.ToggleExpand` | src/App.js:55-57 | A click stores the negated choice, or `!isRoot` when none was stored; the reports array still holds the node's reports. |
| `TreeNodes.TreeNode.ShownReports` | src/App.js:98-104 | When expanded, the reports array is sorted in place into exact-first order and shown; when collapsed nothing is shown and nothing moves; the array stays a permutation of the node's reports. |

## Left out

- Rendering: the JSX markup, CSS classes, icons, the `<input>`/`<select>` wiring and the "No results found" message are presentation and are not modelled; the filter values are parameters.
- The React state hook is modelled as a plain field of `TreeNode`; which node instance keeps its state across a re-filter (React reconciles by `key={index}`) is framework behaviour and is not modelled.
- The zoom scale (`zoomIn`, `zoomOut`) is floating-point presentation arithmetic and is not modelled.
- Loading the employee data from `data.json` is input; the forest is a parameter of `FilterForest`.
- `TreeNodes.TreeNode.ToggleExpand` can be called on any node; in the application the button only appears when the node has reports.
- `Text.ToLower` lower-cases ASCII letters only; JavaScript's full Unicode case mapping is not modelled.
- Ratings are modelled as exact reals; floating-point rounding, `NaN` and a missing `metrics` record (which would throw) are not modelled.
- `!searchTerm` also treats `null` and `undefined` as empty; the model's term is always a string.
- `TreeNodes.TreeNode.ShownReports` sorts a reports array owned by the node; in the application the sort mutates the `reports` array of the shared search result, which the immutable `Filtered` values do not capture.
- Display-only fields (`image`, `position`, and the metrics other than `rating`) are carried as opaque strings.
