# Address-book view model in Dafny

The address-book page (`interview/app/page.tsx`) fetches the contact list once. Everything it then shows is derived in memory from that list and four pieces of state: the search query, the sort field, the sort direction and the company filter. This project models that derivation and proves what it computes:

- **Control state** (`controls.dfy`, module `Controls`). The class `ViewControls` holds the four `useState` fields. Its constructor sets the initial state. Its methods are the handlers that change the state: `handleSearchChange`, `setCompanyFilter` and `handleSortChange`. Clicking the active sort field flips the direction. Clicking another field selects it, ascending.
- **Company list** (`companies.dfy`, module `CompanyList`). The `companies` memo maps users to their company names, removes duplicates with `Set`, and sorts with the default `sort()`. The result is exactly the names that occur, each once, strictly ascending. It is empty while the list is absent.
- **Visible contacts** (`view_model.dfy`, module `ViewModel`). The `filteredAndSortedUsers` memo is a method that follows the source step by step.
  - It copies the list.
  - Unless the trimmed query is empty, it keeps the users whose lower-cased name, email or company name, or whose phone as stored, contains the lower-cased query.
  - Unless the filter is `"all"`, it keeps that company's users.
  - It then sorts an array in place by the lower-cased key of the chosen field, negating the comparison for a descending sort.
  
  The method is proved equal to the function `VisibleUsers` and is given its properties:
  - every user occurs as often as in the input if it passes both filters, otherwise not at all;
  - the output is sorted;
  - users with equal keys keep their input order;
  - toggling the direction exactly reverses users with different keys and keeps tied users in order.
- **Stable sort** (`stable_sort.dfy`, module `StableSort`). `SortBy` is the outcome of a stable sort under the page's comparator. It is shown to be:
  - a permutation of its input;
  - sorted;
  - stable within each group of equal keys.
  
  `SortedGroupsDetermine` proves that these properties fix the output uniquely, so any stable sort (V8's TimSort included) returns `SortBy`'s result. `SortInPlace` is an insertion sort on an array, proved to leave exactly `SortBy` of the old contents.
- **Strings** (`strings.dfy`): ASCII `toLowerCase`, `includes`, `trim` with the ECMAScript white-space set, and a three-way lexicographic comparison. The comparison is shown to be antisymmetric and transitive, and zero exactly on equal strings.
- **Retry back-off** (`retry.dfy`): `retryDelay = min(1000 * 2 ** attemptIndex, 10000)`. It is bounded and non-decreasing, it starts at 1000 ms, and it is the 10000 ms cap from the fifth attempt on.
- `seqs.dfy` holds `Array.prototype.filter` and its counting lemma. `contacts.dfy` and `wrappers.dfy` hold the data model. `scenarios.dfy` holds worked cases: search case rules, the untrimmed query, and case-distinct company names.

The page matches the phone number against the *lower-cased* query (`user.phone.includes(query)`, where `query` has already been lowered). So a query of `CAFE` does not find a phone stored as `555-CAFE`. The model follows the code, and `Scenarios.SearchPhoneKeepsCase` states this case.

## Model

| member | source | states |
|---|---|---|
| Controls.ViewControls.constructor | interview/app/page.tsx:33-36 | Initial state: empty query, sorted by name, ascending, company filter `"all"`. |
| Controls.ViewControls.HandleSearchChange | interview/app/page.tsx:97-99 | The new search text replaces the query; nothing else changes. |
| Controls.ViewControls.SetCompanyFilter | interview/app/page.tsx:36 | The chosen company replaces the filter; nothing else changes. |
| Controls.ViewControls.HandleSortChange | interview/app/page.tsx:101-108 | The field becomes the chosen one. If it was already active, the direction flips; otherwise it is ascending. Query and filter are untouched. |
| Controls.HandleSortChangeTwice | interview/app/page.tsx:101-108 | Two clicks on the active field restore the original direction. Two clicks on another field leave it selected, descending. Query and filter are kept. |
| Controls.Flip | interview/app/page.tsx:103 | The toggled direction always differs from the old one. |
| Controls.FlipTwice | interview/app/page.tsx:103 | Toggling twice restores the direction. |
| CompanyList.Distinct | interview/app/page.tsx:49 | Deduplication with `Set`: every name of the input occurs exactly once, and no other name occurs. |
| CompanyList.SortedDistinctNames | interview/app/page.tsx:49-50 | After deduplication and sorting, the names are exactly those present, and they are strictly ascending. |
| CompanyList.Companies | interview/app/page.tsx:47-51 | Empty when users are absent. A name is listed exactly when some user's company has it. The list is strictly ascending, so there are no repeats. |
| ViewModel.SelectedCount | interview/app/page.tsx:58-70 | After both filter steps, a user occurs as often as in the input if it passes the (blank-or-matching) search and the company test, and otherwise not at all. |
| ViewModel.SelectedMembers | interview/app/page.tsx:68-70 | Exactly the input users passing both tests remain. With a company chosen, every remaining user belongs to that company. |
| ViewModel.SelectedLength | interview/app/page.tsx:56-70 | Filtering never lengthens the list. |
| ViewModel.BlankQueryKeepsAll | interview/app/page.tsx:58 | An all-white-space query with filter `"all"` keeps the whole list, in order. |
| ViewModel.FilteredAndSortedUsers | interview/app/page.tsx:53-95 | The result equals `VisibleUsers`: empty when users are absent, never longer than the input (the "showing" count, line 126), exact multiplicities per the filters, ordered by the lower-cased key (non-decreasing ascending, non-increasing descending), and equal keys in input order. |
| ViewModel.VisibleUsersSpec | interview/app/page.tsx:56-92 | The sorted selection is a permutation of the filtered list, sorted in the chosen direction, and stable within each key. |
| ViewModel.ToggleDirectionReverses | interview/app/page.tsx:91 | Toggling the active field from ascending to descending exactly reverses the order of any two shown users whose keys differ. |
| ViewModel.ToggleDirectionKeepsTies | interview/app/page.tsx:90-91 | Toggling the direction leaves users with equal keys in the same relative order. |
| StableSort.SortBy | interview/app/page.tsx:72-92 | The stable sort's result has the input's length. |
| StableSort.SortByPermutes | interview/app/page.tsx:72-92 | Sorting is a permutation (same multiset). |
| StableSort.SortBySorted | interview/app/page.tsx:72-92 | Every earlier element compares no greater than every later one under the comparator. |
| StableSort.SortByStable | interview/app/page.tsx:90-91 | Elements with equal keys keep their input order; a tie (0 or -0) never reorders. |
| StableSort.SortedGroupsDetermine | interview/app/page.tsx:72-92 | Two sorted sequences with the same tie groups are equal, so any stable sort yields `SortBy`'s result. |
| StableSort.SortedOrder | interview/app/page.tsx:72-92 | In a sorted sequence an element that compares strictly lower occurs before, and never after, the other. |
| StableSort.ToggleReverses | interview/app/page.tsx:90-91 | For elements with different keys, `x` precedes `y` in the ascending sort exactly when `y` precedes `x` in the descending sort. |
| StableSort.ToggleKeepsTies | interview/app/page.tsx:90-91 | Ascending and descending sorts have identical tie groups. |
| StableSort.InsertInPlace | interview/app/page.tsx:72 | One insertion step: the prefix becomes the sorted insertion of the next element; the rest of the array is unchanged. |
| StableSort.SortInPlace | interview/app/page.tsx:72 | `result.sort(...)` in place: the array ends as `SortBy` of its old contents. |
| StableSort.CmpZero | interview/app/page.tsx:90-91 | The comparator, in either direction, is zero exactly when the keys are equal. |
| StableSort.CmpAntisymmetric | interview/app/page.tsx:90-91 | Swapping the arguments negates the comparator. |
| StableSort.CmpTransitive | interview/app/page.tsx:90-91 | "Sorts no later than" is transitive in both directions. |
| Seqs.Filter | interview/app/page.tsx:60 | `filter` never lengthens its input. |
| Seqs.FilterCount | interview/app/page.tsx:60 | `filter` keeps each passing element as often as it occurs and drops failing ones entirely. |
| Seqs.FilterMember | interview/app/page.tsx:69 | An element is in the filtered list exactly when it is in the input and passes. |
| Strings.LowerChar | interview/app/page.tsx:59 | A capital `A`-`Z` becomes its small letter (code point plus 32); every other character is kept; no capital is left. |
| Strings.ToLower | interview/app/page.tsx:59 | Lower-casing keeps the length (its characters are stated by ToLowerSpec). |
| Strings.ToLowerSpec | interview/app/page.tsx:59-63 | In the lowered string every capital has become its small letter, every other character is unchanged, no capital remains, and lowering again changes nothing. |
| Strings.Contains | interview/app/page.tsx:61-64 | `includes` holds exactly when the needle occurs at some index. |
| Strings.AbsentCharNotContained | interview/app/page.tsx:61-64 | A needle with a character the haystack lacks is not included. |
| Strings.TrimStart | interview/app/page.tsx:58 | Trimming the start drops only white space, and what remains starts with none. |
| Strings.TrimEnd | interview/app/page.tsx:58 | Trimming the end drops only white space, and what remains ends with none. |
| Strings.Trim | interview/app/page.tsx:58 | The trimmed query is empty exactly when every character is white space, and otherwise has no white space at either end. |
| Strings.TrimEmptyIff | interview/app/page.tsx:58 | Trimming both ends leaves nothing exactly when the query is all white space. |
| Strings.TrimEnds | interview/app/page.tsx:58 | A non-empty trimmed string starts and ends with a non-white-space character. |
| Strings.TrimIsSlice | interview/app/page.tsx:58 | The trimmed string is the slice of the query that starts right after its leading white space. |
| Strings.TrimTailWhiteSpace | interview/app/page.tsx:58 | Everything after that slice is white space. |
| Strings.Compare | interview/app/page.tsx:90 | The three-way comparison is -1, 0 or 1. |
| Strings.CompareZero | interview/app/page.tsx:90 | The comparison is zero exactly on equal strings. |
| Strings.CompareAntisymmetric | interview/app/page.tsx:90 | Swapping the strings negates the comparison. |
| Strings.CompareTransitive | interview/app/page.tsx:50 | The comparison is a transitive order, as `sort()` and `localeCompare` require. |
| Retry.RetryDelay | interview/app/page.tsx:43 | The delay is between 1000 and 10000 ms on every attempt. |
| Retry.RetryDelayFirstSteps | interview/app/page.tsx:43 | The first delays are 1000, 2000, 4000 and 8000 ms. |
| Retry.RetryDelayMonotone | interview/app/page.tsx:43 | A later attempt never waits less. |
| Retry.RetryDelayCapped | interview/app/page.tsx:43 | From attempt index 4 on, the delay equals the 10000 ms cap. |
| Retry.Pow2Monotone | interview/app/page.tsx:43 | `2 ** n` does not decrease as `n` grows. |
| Scenarios.SearchFindsLoweredEmail | interview/app/page.tsx:59-62 | Query `cafe` finds email `user@CAFE.com`. |
| Scenarios.SearchFindsPhone | interview/app/page.tsx:64 | Query `cafe` finds phone `555-cafe`. |
| Scenarios.SearchPhoneKeepsCase | interview/app/page.tsx:59-64 | Neither `cafe` nor `CAFE` finds phone `555-CAFE`, since the phone is not lowered but the query is. |
| Scenarios.SearchFindsName | interview/app/page.tsx:59-61 | Query `ann` finds name `Ann`. |
| Scenarios.SearchIsUntrimmed | interview/app/page.tsx:58-64 | The untrimmed query is matched: `ann ` (trailing space) finds none of the fields of `Ann`. |
| Scenarios.DistinctKeepsFirstOccurrences | interview/app/page.tsx:49 | Names `Acme`, `acme`, `Beta` stay three entries in first-occurrence order. |
| Scenarios.SortNamesByCode | interview/app/page.tsx:50 | Sorting them gives `Acme`, `Beta`, `acme` (upper case before lower case). |
| Scenarios.CompaniesKeepCase | interview/app/page.tsx:47-51 | The company list for those users is `Acme`, `Beta`, `acme`. |

## Left out

- The tRPC query hook, `staleTime` caching and the execution of `retry: 3` (interview/app/page.tsx:38-45) belong to a foreign library. Only the delay formula is modelled.
- React hook machinery (`useState`, `useMemo`, `useCallback`) and render branching (interview/app/page.tsx:110-158) are left out. The state is the `ViewControls` class and the memos are a function and a method taking the state as parameters. Re-running on input change is not modelled.
- The 300 ms search debounce of `SearchBar.tsx` is timer behaviour. `HandleSearchChange` receives the already-debounced text.
- The presentational components (`UserCard`, `FilterControls`, `ErrorState`, `EmptyState`, `LoadingState`, `layout`) are pure rendering.
- The server-side seed and read endpoint (HTTP fetch, field defaulting, duplicate-skip insert) is not part of this model. Its source is not among the modelled files.
- Strings.ToLower: its own contract states only the length; what happens to each character is the lemma ToLowerSpec, kept apart so that the proofs reading sort and search keys stay small. Either way it lowers ASCII `A`-`Z` only. Full Unicode case mapping (for example `İ` or `ẞ`) is not modelled.
- Strings.Trim: which slice of the query is kept is stated by TrimIsSlice and TrimTailWhiteSpace on `TrimEnd(TrimStart(s))`, the function's definition, rather than in its own contract, for the same reason.
- Strings.Compare: `localeCompare` uses ICU collation, and `sort()` without a comparator compares UTF-16 code units. Both are modelled by one lexicographic order on Dafny characters. The model therefore does not capture locale-dependent ordering (such as accented letters sorting next to their base letter), nor the UTF-16 order of astral characters against `U+E000`-`U+FFFF`.
- StableSort.SortInPlace: V8 sorts with TimSort, the model with insertion sort. `SortedGroupsDetermine` shows the results coincide for any stable sort under the same comparator. The intermediate array states and comparator call order differ and are not modelled.
- ViewModel.FilteredAndSortedUsers: contact records are values, so the object identity and aliasing of the JavaScript copies (`[...users]`, which copies references) are not modelled.
