# Sliding-window sorted views, modelled in Dafny

The sliding-window collection keeps the ascending-sorted contents of a window
of fixed size as the window slides one position at a time over an input vector
of `double`s. Three classes do this, and this project models all three as
Dafny classes with a `Valid()` invariant:

- `SortAndReplace` is the incremental strategy. The first `get()` fills a list
  with `(origin, value)` pairs for the first window and sorts it. Every later
  uncached `get()` erases the entry whose origin is the position that left the
  window. It finds that entry by origin, not by value. It then inserts the
  admitted element in front of the first entry not less than it. A cache flag
  makes `get()` do this at most once per position.
- `SimpleSort` is the baseline. At every new position it copies the window
  into a buffer of `window` values and sorts the buffer from scratch.
- `Sorter` is an earlier incremental variant. It does no validation and has
  no cache flag. It erases the entry whose origin is the current position,
  returns silently when there is none, and its first `get()` fills and then
  steps at once.

The module `Window` holds what the classes share:
- the `(origin, value)` entry;
- the two linear `find_if` scans, as loops proved against recursive
  definitions;
- erasure by origin and ordered insertion, as recursive definitions tied to
  the position-and-slice form the methods compute;
- the reference arrangement `Ascending`, an insertion sort proved to be the
  unique ascending permutation of its argument;
- `IsSortedWindow(s, data, lo, w)`: `s` is non-decreasing by value and holds
  exactly the entries `(i, data[i])` for `i` in `[lo, lo + w)`.

The central results:
- Every `SortAndReplace` and `SimpleSort` view equals
  `Ascending(data[index..index + window])`.
- Hence the two strategies agree at every position of the benchmark loop
  (`Drivers.Algorithms`).
- The "Unexpected error." branch of the replacement is unreachable, as long
  as every position fits the list's `int` origins (see "## Left out").
- The list after `Sorter.get()` at position `p` is a sorted view of the
  window at `p + 1`.

The module `Drivers` holds the benchmark's stepping loops. The module
`Scenarios` replays the unit tests, with the tests' expected vectors as
postconditions.

## Model

| member | source | states |
|---|---|---|
| Window.Validate | sort_and_replace.h:41-52 | construction fails exactly for an empty input, a zero window or a window longer than the input, with the error of the first check that fails: the checks both validating classes make, in their order; `SimpleSort` sizes its buffer before them (see "## Left out") |
| Window.InsertSortedCorrect | simple_sort.h:79 | inserting a value into the reference arrangement adds exactly that value and keeps an ascending sequence ascending |
| Window.AscendingCorrect | simple_sort.h:79 | the reference arrangement of a sequence is ascending and a permutation of it |
| Window.SortedEqual | simple_sort.h:79 | two ascending sequences with the same multiset of values are equal, so the sorted output of a window is fully determined |
| Window.SortedUnique | simple_sort.h:79 | every ascending permutation of `s` is `Ascending(s)` |
| Window.AscendingOfSorted | tests/sort_and_replace_test.cpp:27 | an input that is already ascending is its own sorted view |
| Window.FirstWithOrigin | sort_and_replace.h:94 | the by-origin scan's result is within the list and, when inside it, points at an entry with that origin |
| Window.FirstWithOriginAtMost | sort_and_replace.h:94 | any entry with the origin lies at or after the scan's result, so the scan finds the first one |
| Window.FirstWithOriginIs | sort_and_replace.h:94 | the scan's result is `k` exactly when no entry before `k` has the origin and the entry at `k` (if any) has it |
| Window.FirstNotLess | sort_and_replace.h:103 | the insertion-point scan's result is within the list and, when inside it, points at an entry not less than the value |
| Window.FirstNotLessSkips | sort_and_replace.h:103 | every entry before the insertion point is less than the inserted value |
| Window.FirstNotLessIs | sort_and_replace.h:103 | the insertion point is `k` exactly when all entries before `k` are less and the entry at `k` (if any) is not |
| Window.FindOrigin | sort_and_replace.h:94 | the linear scan loop returns the position of the first entry with the given origin, `|s|` if none |
| Window.FindFirstNotLess | sort_and_replace.h:103 | the linear scan loop returns the position of the first entry not less than the value, `|s|` if none |
| Window.RemoveAt | sort_and_replace.h:99 | `erase` at a position leaves one entry fewer; what it removes is stated by `RemoveAtMultiset` and `RemoveAtCorrect` |
| Window.RemoveAtMultiset | sort_and_replace.h:99 | erasing at a position removes exactly the entry there from the multiset of entries |
| Window.RemoveAtCorrect | sort_and_replace.h:99 | erasing at a position removes exactly that entry from the multiset and keeps a sorted list sorted |
| Window.EraseOrigin | sort_and_replace.h:94-99 | erasing by an origin no entry has leaves the list as it is |
| Window.EraseOriginAt | sort_and_replace.h:94-99 | erasing by origin is erasing at the position the by-origin scan returns: the entries before and after keep their relative order |
| Window.EraseOriginCorrect | sort_and_replace.h:94-99 | erasing by origin removes exactly the first entry with that origin and keeps a sorted list sorted |
| Window.InsertOrdered | sort_and_replace.h:103-104 | `emplace` in front of the first entry not less than the new one adds one entry; where it goes and what it keeps is stated by `InsertOrderedAt` and `InsertOrderedCorrect` |
| Window.InsertOrderedAt | sort_and_replace.h:103-104 | ordered insertion places the new entry exactly at the position the insertion-point scan returns |
| Window.InsertAtPointCorrect | sort_and_replace.h:103-104 | placing an entry at the insertion point adds exactly that entry and keeps a sorted list sorted |
| Window.InsertOrderedCorrect | sort_and_replace.h:103-104 | ordered insertion adds exactly the new entry and keeps a sorted list sorted |
| Window.SortByValue | sort_and_replace.h:89 | the list sort yields a permutation of the list that is non-decreasing by value |
| Window.Values | sort_and_replace.h:77 | what `get()` hands out of the list: one value per entry, the value of the entry at the same position, so in the list's stored order |
| Window.ValuesPermutation | sort_and_replace.h:77 | permuting entries permutes the values handed out |
| Window.WindowValues | sort_and_replace.h:75-78 | the values of a sorted view of a window are that window's slice in ascending order |
| Window.FilledWindow | sort_and_replace.h:83-90 | filling with `(i, data[i])` for `i < window` and sorting gives a sorted view of the first window whose values are `Ascending(data[..window])` |
| Window.WindowMembers | sort_and_replace.h:93-94 | every entry of a sorted view of a window has its origin in the window and carries that input's value |
| Window.ExpiredFound | sort_and_replace.h:93-98 | in a sorted view of the window at `lo`, the scan for origin `lo` finds `(lo, data[lo])`, so the "Unexpected error." throw is unreachable |
| Window.Replaced | sort_and_replace.h:93-104 | the whole replacement for origin `lo`: it fails exactly when the by-origin scan finds nothing, and otherwise keeps the list's length |
| Window.ReplaceExpired | sort_and_replace.h:93-104 | the by-origin scan, the `erase` at what it finds, the insertion-point scan and the `emplace` compute exactly the replacement `Replaced`, and nothing when the first scan finds nothing |
| Window.EraseExpired | sort_and_replace.h:93-99 | in a sorted view of the window at `lo`, the erasure for origin `lo` removes `(lo, data[lo])` and leaves a sorted view of `[lo + 1, lo + w)` |
| Window.InsertAdmitted | sort_and_replace.h:101-104 | inserting `(lo + w, data[lo + w])` at the insertion point of a sorted view of `[lo + 1, lo + w)` gives a sorted view of the window at `lo + 1` |
| Window.SlideKeepsWindow | sort_and_replace.h:91-105 | the replacement for origin `lo` on a sorted view of the window at `lo` succeeds and yields a sorted view of the window at `lo + 1` |
| Window.ReplacedIsNextWindow | sort_and_replace.h:91-105 | proof helper of `SlideKeepsWindow`: its last conclusion, stated about the list `t` the replacement produced, so that `SortAndReplace.Step` can name the new list |
| Window.WindowLength | sort_and_replace.h:101-104 | a sorted view of a window holds exactly `window` entries |
| Window.EmptyWindow | sliding_window_sorted.h:73 | the sorted view of an empty window is the empty list |
| Window.ExpiredAbsent | sliding_window_sorted.h:83-87 | once the list describes the window at `lo`, no entry has origin `lo - 1`, so a step for `lo - 1` finds nothing and changes nothing |
| SortAndReplaceWindow.SortAndReplace.constructor | sort_and_replace.h:35-53 | on arguments that pass the checks, the object starts at position 0 with an invalid cache and an empty list |
| SortAndReplaceWindow.SortAndReplace.Create | sort_and_replace.h:35-53 | construction fails, with the error of the first failing check, exactly when the checks fail, and otherwise yields a valid object at position 0 |
| SortAndReplaceWindow.SortAndReplace.Last | sort_and_replace.h:54-57 | `last()` holds exactly at position `|data| - window` |
| SortAndReplaceWindow.SortAndReplace.Next | sort_and_replace.h:58-66 | at the last position nothing changes; otherwise the position advances by one and the cache is invalidated; the list is untouched |
| SortAndReplaceWindow.SortAndReplace.Get | sort_and_replace.h:67-79 | returns `Ascending(data[index..index + window])`, the values of the list; a cached list is left unchanged; an uncached list at a later position is the replacement of the previous one |
| SortAndReplaceWindow.SortAndReplace.Step | sort_and_replace.h:81-114 | brings the list to a sorted view of the window at `index`: by filling at position 0, by the replacement for origin `index - 1` after that |
| SortAndReplaceWindow.SortAndReplace.Slide | sort_and_replace.h:113 | the `replace()` that ends every later step, on a sorted view of the previous window: it goes through, and the new list is the replacement for origin `index - 1` |
| SortAndReplaceWindow.SortAndReplace.Add | sort_and_replace.h:83-90 | appends `(i, data[i])` for every `i` of the first window and sorts: a permutation of the old list plus those entries, non-decreasing by value |
| SortAndReplaceWindow.SortAndReplace.Replace | sort_and_replace.h:91-105 | fails (the throw, list untouched) exactly when no entry has origin `index - 1`; otherwise erases that entry and inserts the admitted one at the insertion point |
| SimpleSortWindow.ShiftedSorted | simple_sort.h:79 | putting a value after the elements not greater than it and before those greater than it keeps an ascending sequence ascending |
| SimpleSortWindow.ShiftedInsert | simple_sort.h:79 | that placement is the reference insertion of the value |
| SimpleSortWindow.ShiftIn | simple_sort.h:79 | one round of the in-place sort moves `a[i]` left past the greater elements before it, shifting them right by one |
| SimpleSortWindow.AscendingSnoc | simple_sort.h:79 | the sorted prefix of length `i + 1` is the sorted prefix of length `i` with `input[i]` inserted |
| SimpleSortWindow.InsertionRound | simple_sort.h:79 | one round extends the sorted prefix of the buffer by one element and leaves the rest as it was |
| SimpleSortWindow.SortAscending | simple_sort.h:79 | the in-place sort leaves `Ascending` of the buffer's old contents in the buffer |
| SimpleSortWindow.SimpleSort.constructor | simple_sort.h:34-53 | on arguments that pass the checks, the object starts at position 0 with an invalid cache and a fresh buffer of `window` slots |
| SimpleSortWindow.SimpleSort.Create | simple_sort.h:34-53 | construction fails, with the error of the first failing check, exactly when the checks fail |
| SimpleSortWindow.SimpleSort.Last | simple_sort.h:54-57 | `last()` holds exactly at position `|data| - window` |
| SimpleSortWindow.SimpleSort.Next | simple_sort.h:58-66 | at the last position nothing changes; otherwise the position advances by one and the cache is invalidated |
| SimpleSortWindow.SimpleSort.Get | simple_sort.h:67-74 | returns the buffer, which is `Ascending(data[index..index + window])`; a cached buffer is left unchanged |
| SimpleSortWindow.SimpleSort.Step | simple_sort.h:76-81 | copies the window at `index` into the buffer and sorts it, so the buffer is the window in ascending order, and sets the cache flag |
| SlidingWindowSorted.Stepped | sliding_window_sorted.h:82-96 | the step after the fill keeps the list's length, and leaves the list as it is when no entry has the origin |
| SlidingWindowSorted.SteppedWindow | sliding_window_sorted.h:82-96 | from a sorted view of the window at `p` (or already at `p + 1`) the step for origin `p` gives a sorted view of the window at `p + 1`; it finds the entry exactly when the list was not yet ahead, and it changes nothing when the list was already ahead |
| SlidingWindowSorted.Sorter.constructor | sliding_window_sorted.h:46-50 | stores the input and the window and checks nothing; the list starts empty |
| SlidingWindowSorted.Sorter.HasNext | sliding_window_sorted.h:51-54 | `hasNext()` holds exactly when the window does not yet end at the end of the input |
| SlidingWindowSorted.Sorter.Next | sliding_window_sorted.h:55-61 | advances the position by one exactly when `hasNext()`, otherwise changes nothing; the list is untouched |
| SlidingWindowSorted.Sorter.Get | sliding_window_sorted.h:62-66 | returns the list; the first call sets the position to 0; afterwards the list is a sorted view of the window one position ahead of the current one, and a second call at the same position leaves it unchanged |
| SlidingWindowSorted.Sorter.Advance | sliding_window_sorted.h:82-96 | the step after the fill: the new list is the replacement for origin `inputIt` when there is such an entry and the old list otherwise, and it describes the window at `inputIt + 1` |
| SlidingWindowSorted.Sorter.Fill | sliding_window_sorted.h:71-80 | on an empty list, fills `(i, input[i])` for `i < window`, sorts it into a sorted view of the first window and sets the position to 0 |
| SlidingWindowSorted.Sorter.Replace | sliding_window_sorted.h:82-96 | erases the entry with origin `inputIt` and inserts the admitted one at the insertion point, or leaves the list unchanged when there is no such entry |
| Drivers.RunSortAndReplace | benchmark/benchmarks.cpp:51-59 | driven by `get(); while (!last()) { next(); get(); }`, the incremental strategy hands out `|data| - window + 1` views and view `p` is `Ascending(data[p..p + window])` |
| Drivers.NextAndGet | benchmark/benchmarks.cpp:56-57 | one `next()` and `get()` before the last position moves the incremental strategy one position on and hands out that window in ascending order |
| Drivers.Views | benchmark/benchmarks.cpp:36-44 | the views of the first `n` positions: `n` of them, view `p` being `Ascending(data[p..p + window])` |
| Drivers.RunSimpleSort | benchmark/benchmarks.cpp:36-44 | driven the same way, the baseline hands out the same number of views, view `p` being `Ascending(data[p..p + window])` |
| Drivers.SimpleStart | benchmark/benchmarks.cpp:37-38 | construction and the first `get()` of the baseline give a valid, cached object at position 0 and the view of the first window |
| Drivers.SimpleNextAndGet | benchmark/benchmarks.cpp:41-42 | one `next()` and `get()` before the last position moves the baseline one position on, and the views collected so far grow by the view of that window |
| Drivers.Algorithms | benchmark/benchmarks.cpp:32-63 | on the same input and window the two strategies return equal vectors at every position, each an ascending permutation of its slice |
| Drivers.RunSorter | sliding_window_sorted.h:55-66 | driven once per position while the next step has an element to read, the earlier variant hands out `|input| - window` views, view `p` being `Ascending(input[p + 1..p + 1 + window])` |
| Drivers.SorterNextAndGet | sliding_window_sorted.h:55-66 | one `next()` and `get()` of the earlier variant, with room for the element its step reads, moves the position on by one and hands out the values of the window one position further, ascending |
| Scenarios.InvalidInstantiation | tests/sort_and_replace_test.cpp:6-19 | an empty input, window 0 and window 5 over four values are refused with their three errors |
| Scenarios.WindowEqualsInputSize | tests/sort_and_replace_test.cpp:21-35 | with the window as long as the input the view is `[1, 2, 3, 4]`, `last()` holds, and `next()` then `get()` gives the same view |
| Scenarios.StepByStep | tests/sort_and_replace_test.cpp:37-55 | `[1..7]` with window 5 gives `[1..5]`, `[2..6]`, `[3..7]` |
| Scenarios.IterateToEnd | tests/sort_and_replace_test.cpp:63-68 | stepping with `!last()` ends at the last position with the last window in ascending order |
| Scenarios.Iteration | tests/sort_and_replace_test.cpp:57-81 | `[3.1, 7.2, 1.9, 4.5, 5.1, 18.1, 0.9]` with window 3 ends at `[0.9, 5.1, 18.1]`, and `[3.1]` with window 1 at `[3.1]` |
| Scenarios.SimpleStepByStep | simple_sort.h:58-81 | the baseline gives `[1..5]` and then `[2..6]` on the step test's input |
| Scenarios.SorterRunsAhead | sliding_window_sorted.h:62-96 | the earlier variant's first `get()` on `[1, 2, 3]` with window 2 leaves the position at 0 but hands out the values `[2, 3]` of the window at 1 |

## Left out

- Floating point: the `double` values are only compared, so they are modelled as `real`. NaN is excluded, which makes the order total.
- `std::shared_ptr` ownership is not modelled. Nor is the const-pointer "move" in the constructors: it copies, so the later checks still see the input.
- `std::list` nodes and iterators become a `seq` of entries with integer positions. The position iterators become integer distances from the start of the input.
- The internals of `std::sort` and `std::list::sort` are not modelled. The buffer sort is an insertion sort, proved to give the unique ascending permutation, which is what any correct sort gives.
- Window.SortByValue: states only "non-decreasing by value and a permutation". The `<=` comparator is not a strict weak ordering, so the order among equal values is left open. `SortAndReplace::get()` and `SimpleSort::get()` hand out only values, so for them this never shows in the output.
- SlidingWindowSorted.Sorter.Get: `Sorter::get()` returns the `(origin, value)` list itself (sliding_window_sorted.h:62-66), so its callers see the order among equal values that the fill's sort leaves open. The model states that order only as far as `SortByValue` does.
- SlidingWindowSorted.Sorter.Get: returns a copy of the list. The source returns a `const` reference to the live list, through which a caller sees every later in-place step; that aliasing is not modelled.
- The `std::cout` debug printing in `Sorter::step` and the `operator<<` for the list have no functional effect and are not modelled.
- The benchmark's clock, its `mt19937` random inputs and its report printing are not modelled. Only its stepping loops are (`Drivers`).
- The `invalid_argument` throws are a `Failure` result of `Create`. The constructors themselves require valid arguments.
- The "Unexpected error." throw of `SortAndReplace` is a `false` result of `Replace`. `Step` proves that result never occurs for origins as unbounded integers.
- Window.ExpiredFound: origins are unbounded integers, so the model assumes every position fits `int`, that is `|data| <= 0x8000_0000`. The same holds for `SortAndReplaceWindow.SortAndReplace` and everything built on `ExpiredFound`. The source stores each origin in the list's `int` (sort_and_replace.h:118), narrowing the `ptrdiff_t` distance (sort_and_replace.h:87, 102-104). Once the window slides past position 2^31, the by-origin scan (sort_and_replace.h:93-94) looks for a distance the stored, narrowed origin no longer equals, and the source throws "Unexpected error." (sort_and_replace.h:97). The model does not reach that throw.
- SimpleSortWindow.SimpleSort.Create: the source sizes its buffer, `sorter(window)` (simple_sort.h:37), before the argument checks (simple_sort.h:41-52). A window above `vector<double>::max_size()` therefore fails with `std::length_error` even on an empty input. That includes `(size_t)-1`, which is what a negative `int` window becomes. A window too large to allocate fails with `std::bad_alloc`. Neither is an `invalid_argument`, and the model's `Create` reports only the three checks. `SortAndReplace` allocates nothing in its constructor, so it is not affected.
- SortAndReplaceWindow.SortAndReplace.Next: requires the cache to be valid or the window to be at the end. This is the calling protocol the tests and the benchmark follow. A second `next()` without a `get()` in between would leave an expired entry in the list, and a `next()` before the first `get()` reaches the throw. Neither misuse is modelled.
- SlidingWindowSorted.Sorter.Next: requires that the list is already ahead of the position, that the window is empty, or that there is no next position. This is the same calling protocol for the earlier variant.
- SlidingWindowSorted.Sorter.Get: requires room for the element the step reads: `inputIt + window < |input|` whenever an entry is erased, and `window < |input|` on the first call. The source reads past the end of the input otherwise. So a loop that calls `get()` after every `hasNext()`-guarded `next()` is covered only up to the last position with room; `Drivers.RunSorter` stops there.
- SlidingWindowSorted.Sorter.Get: states the window the list describes (sorted and holding exactly its entries) but not the list itself. The exact list, including the order of equal values, is stated on `Sorter.Advance`, the step `get()` performs after the first fill.
- `Sorter`'s window is a signed `difference_type`. Only non-negative windows are modelled. With an empty window the list stays empty, and every `get()` refills it and resets the position to 0, as the source does.
- The `Sorter` position is uninitialised until the first `get()`. Until then `hasNext()` and `next()` are not modelled, because the source's behaviour is undefined there.
