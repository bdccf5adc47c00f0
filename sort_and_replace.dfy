/** The incremental strategy: the sorted window is built once, then kept up to
    date by erasing the expiring entry (found by its origin, not its value) and
    inserting the admitted one in front of the first entry not less than it. */
module SortAndReplaceWindow {
  import opened Window

  class SortAndReplace {
    /** The shared, read-only input. */
    const data: seq<Value>
    const window: nat
    /** Left edge of the window, as a distance from the start of `data`. */
    var index: nat
    /** The cache flag: `sorter` already describes the window at `index`. */
    var isSorted: bool
    /** The list of `(origin, value)` pairs kept in ascending value order. */
    var sorter: seq<Entry>

    /** Before the first `Get` the list is empty; after a `Get` it is a sorted
        view of the window at `index`; after an effective `Next` it is still
        the sorted view of the window one position to the left. */
    ghost predicate Valid()
      reads this
    {
      && Validate(data, window) == None
      && index + window <= |data|
      && (!isSorted && index == 0 ==> sorter == [])
      && (isSorted || index > 0 ==> IsSortedWindow(sorter, data, if isSorted then index else index - 1, window))
    }

    /** The constructor on arguments that pass its checks. */
    constructor (input: seq<Value>, window: nat)
      requires Validate(input, window) == None
      ensures Valid()
      ensures data == input && this.window == window
      ensures index == 0 && !isSorted && sorter == []
    {
      data := input;
      this.window := window;
      index := 0;
      isSorted := false;
      sorter := [];
    }

    /** Construction, with the `invalid_argument` throws as a `Failure`. */
    static method Create(input: seq<Value>, window: nat) returns (r: Result<SortAndReplace, InitError>)
      ensures r.Failure? <==> Validate(input, window).Some?
      ensures r.Failure? ==> Validate(input, window) == Some(r.error)
      ensures r.Success? ==> fresh(r.value) && r.value.Valid()
      ensures r.Success? ==> r.value.data == input && r.value.window == window
      ensures r.Success? ==> r.value.index == 0 && !r.value.isSorted && r.value.sorter == []
    {
      var error := Validate(input, window);
      if error.Some? {
        return Failure(error.value);
      }
      var s := new SortAndReplace(input, window);
      return Success(s);
    }

    /** The window has reached the end of the input: the only position where
        `Last` holds is `|data| - window`. */
    predicate Last()
      reads this
      requires Valid()
      ensures Last() <==> index == |data| - window
    {
      index >= |data| - window
    }

    /** Slides the window one position unless it is at the end. The caller must
        have asked for the current window first (or be at the end): a second
        slide without a `Get` in between would skip a removal. */
    method Next()
      requires Valid()
      requires isSorted || Last()
      modifies this`index, this`isSorted
      ensures Valid()
      ensures old(Last()) ==> index == old(index) && isSorted == old(isSorted)
      ensures !old(Last()) ==> index == old(index) + 1 && !isSorted
      ensures sorter == old(sorter)
    {
      if Last() {
        return;
      }
      index := index + 1;
      isSorted := false;
    }

    /** The values of the window at `index`, ascending; the list is brought up
        to date at most once per position. */
    method Get() returns (result: seq<Value>)
      requires Valid()
      modifies this`sorter, this`isSorted
      ensures Valid() && isSorted && index == old(index)
      ensures result == Values(sorter)
      ensures result == Ascending(data[index..index + window])
      ensures old(isSorted) ==> sorter == old(sorter)
      ensures !old(isSorted) && index > 0 ==> Some(sorter) == Replaced(old(sorter), data, index - 1, window)
    {
      if !isSorted {
        Step();
        isSorted := true;
      }
      result := Values(sorter);
      WindowValues(sorter, data, index, window);
    }

    /** Brings the list up to the window at `index`: the first step fills and
        sorts, every later one replaces. With origins as unbounded integers the
        "Unexpected error." throw of the replacement is never reached. */
    method Step()
      requires 0 < window && index + window <= |data|
      requires index == 0 ==> sorter == []
      requires index > 0 ==> IsSortedWindow(sorter, data, index - 1, window)
      modifies this`sorter
      ensures IsSortedWindow(sorter, data, index, window)
      ensures index > 0 ==> Some(sorter) == Replaced(old(sorter), data, index - 1, window)
    {
      if index == 0 {
        Add();
      } else {
        ghost var before := sorter;
        Slide();
        ReplacedIsNextWindow(before, sorter, data, index - 1, index, window);
      }
    }

    /** The `replace()` call that ends every later step. The list is a sorted
        view of the previous window, so the entry with origin `index - 1` is
        found and the replacement goes through. */
    method Slide()
      requires 0 < index && 0 < window && index + window <= |data|
      requires IsSortedWindow(sorter, data, index - 1, window)
      modifies this`sorter
      ensures Some(sorter) == Replaced(old(sorter), data, index - 1, window)
    {
      ghost var before := sorter;
      ExpiredFound(before, data, index - 1, window);
      var ok := Replace();
      assert ok;
    }

    /** Appends `(i, data[i])` for every `i` of the first window, then sorts the
        list by value. */
    method Add()
      requires window <= |data|
      modifies this`sorter
      ensures SortedByValue(sorter)
      ensures multiset(sorter) == multiset(old(sorter)) + multiset(WindowEntries(data, 0, window))
      ensures old(sorter) == [] ==> IsSortedWindow(sorter, data, 0, window)
    {
      var i := 0;
      while i < window
        invariant i <= window
        invariant sorter == old(sorter) + WindowEntries(data, 0, i)
      {
        sorter := sorter + [Entry(i, data[i])];
        i := i + 1;
      }
      sorter := SortByValue(sorter);
      if old(sorter) == [] {
        FilledWindow(sorter, data, window);
      }
    }

    /** Erases the entry whose origin is `index - 1` and inserts
        `(index - 1 + window, data[index - 1 + window])` in front of the first
        entry not less than it. `ok` is false (the "Unexpected error." throw,
        list untouched) when no entry has that origin. */
    method Replace() returns (ok: bool)
      requires 0 < index && index - 1 + window < |data|
      modifies this`sorter
      ensures ok <==> Replaced(old(sorter), data, index - 1, window).Some?
      ensures ok ==> Some(sorter) == Replaced(old(sorter), data, index - 1, window)
      ensures !ok ==> sorter == old(sorter)
    {
      var replaced := ReplaceExpired(sorter, data, index - 1, window);
      if replaced.None? {
        return false;
      }
      sorter := replaced.value;
      ok := true;
    }
  }
}
