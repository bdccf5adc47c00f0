/** The earlier incremental variant. It shares the remove-then-insert core of
    `SortAndReplace`, but validates nothing, keeps no cache flag (every `Get`
    runs a step), removes the entry whose origin is the current position
    itself, and does nothing when no such entry is left. The first `Get` fills
    and sorts the first window and then immediately performs a step, so after
    `Get` at position `p` the list describes the window at `p + 1`. */
module SlidingWindowSorted {
  import opened Window

  /** The step without the fill: the list after the replacement for origin
      `lo`, or the list unchanged when no entry has that origin. */
  function Stepped(s: seq<Entry>, data: seq<Value>, lo: nat, w: nat): (r: seq<Entry>)
    requires FirstWithOrigin(s, lo) < |s| ==> lo + w < |data|
    ensures |r| == |s|
    ensures FirstWithOrigin(s, lo) == |s| ==> r == s
  {
    match Replaced(s, data, lo, w)
    case None => s
    case Some(t) => t
  }

  /** Whether the list is the window at `lo` (`from == lo`) or already the one
      at `lo + 1` (`from == lo + 1`), a step for origin `lo` leaves the window
      at `to`, which is `lo + 1`: it replaces exactly when the list was not yet
      ahead, and reads `data[lo + w]` only then. An empty window stays empty
      and where it was. */
  lemma SteppedWindow(s: seq<Entry>, data: seq<Value>, lo: nat, w: nat, from: nat, to: nat)
    requires from == lo || (0 < w && from == lo + 1)
    requires to == if w == 0 then lo else lo + 1
    requires from + w <= |data| && IsSortedWindow(s, data, from, w)
    requires from == lo && 0 < w ==> lo + w < |data|
    ensures FirstWithOrigin(s, lo) < |s| <==> from == lo && 0 < w
    ensures FirstWithOrigin(s, lo) < |s| ==> lo + w < |data|
    ensures from == to ==> Stepped(s, data, lo, w) == s
    ensures to + w <= |data|
    ensures IsSortedWindow(Stepped(s, data, lo, w), data, to, w)
    ensures |Stepped(s, data, lo, w)| == w
    ensures Values(Stepped(s, data, lo, w)) == Ascending(data[to..to + w])
  {
    if w == 0 {
      EmptyWindow(s, data, lo);
      assert data[lo..lo] == [];
    } else {
      if from == lo + 1 {
        ExpiredAbsent(s, data, lo + 1, w);
      } else {
        SlideKeepsWindow(s, data, lo, w);
      }
      WindowValues(Stepped(s, data, lo, w), data, lo + 1, w);
      WindowLength(Stepped(s, data, lo, w), data, lo + 1, w);
    }
  }

  class Sorter {
    /** The shared, read-only input. */
    const input: seq<Value>
    /** The window size; the constructor accepts any value. */
    const window: nat
    /** The current position; it is only given a value by the first `Get`. */
    var inputIt: nat
    /** The list of `(origin, value)` pairs kept in ascending value order. */
    var sorter: seq<Entry>
    /** Whether `inputIt` has been given a value by a first `Get`. */
    ghost var started: bool
    /** The position of the window the list describes: `inputIt` after a
        `Next`, `inputIt + 1` after a `Get`. */
    ghost var listAt: nat

    /** Before the first `Get` the list is empty. Afterwards it is a sorted view
        of the window at `listAt`, which is `inputIt` or, for a non-empty
        window, one position ahead of it. */
    ghost predicate Valid()
      reads this
    {
      && (!started ==> sorter == [])
      && (started ==>
            && inputIt + window <= |input|
            && listAt + window <= |input|
            && (listAt == inputIt || (0 < window && listAt == inputIt + 1))
            && |sorter| == window
            && IsSortedWindow(sorter, input, listAt, window))
    }

    /** The constructor stores its arguments and checks nothing. */
    constructor (input: seq<Value>, window: nat)
      ensures Valid()
      ensures this.input == input && this.window == window
      ensures sorter == [] && !started
    {
      this.input := input;
      this.window := window;
      inputIt := 0;
      sorter := [];
      started := false;
      listAt := 0;
    }

    /** There is a later position: inside the input that is exactly when the
        window does not yet end at the last element. */
    predicate HasNext()
      reads this
      requires Valid() && started
      ensures HasNext() <==> inputIt + window < |input|
    {
      inputIt + window != |input|
    }

    /** Moves to the next position when there is one. The list must already
        have been brought past the current position (or the window be empty,
        or there be no next position), or the step at the new position would
        find nothing to remove and leave the list behind. */
    method Next()
      requires Valid() && started
      requires listAt == inputIt + 1 || window == 0 || !HasNext()
      modifies this`inputIt, this`listAt
      ensures Valid() && started
      ensures old(HasNext()) ==> inputIt == old(inputIt) + 1 && listAt == inputIt
      ensures !old(HasNext()) ==> inputIt == old(inputIt) && listAt == old(listAt)
      ensures sorter == old(sorter)
    {
      if HasNext() {
        inputIt := inputIt + 1;
        listAt := inputIt;
        if window == 0 {
          EmptyWindow(sorter, input, old(listAt));
          assert WindowEntries(input, inputIt, inputIt) == [];
        }
      }
    }

    /** One step, returning the list. On the first call (empty list) the first
        window is filled and sorted and the position set to 0. Then the entry
        with origin `inputIt` is erased and `(inputIt + window,
        input[inputIt + window])` inserted in front of the first entry not less
        than it; when no entry has that origin nothing changes. The step reads
        `input[inputIt + window]` whenever it erases, so the caller must leave
        room for it. */
    method Get() returns (result: seq<Entry>)
      requires Valid()
      requires window <= |input|
      requires !started && window > 0 ==> window < |input|
      requires started && listAt == inputIt && window > 0 ==> inputIt + window < |input|
      modifies this`inputIt, this`sorter, this`started, this`listAt
      ensures Valid() && started
      ensures result == sorter
      ensures old(sorter) == [] ==> inputIt == 0
      ensures old(sorter) != [] ==> inputIt == old(inputIt)
      ensures listAt == if window == 0 then inputIt else inputIt + 1
      ensures Values(sorter) == Ascending(input[listAt..listAt + window])
      ensures 0 < window ==> inputIt + 1 + window <= |input|
      ensures old(started) && old(listAt) == inputIt + 1 ==> sorter == old(sorter)
    {
      if sorter == [] {
        Fill();
      }
      Advance();
      result := sorter;
    }

    /** The step once the list holds a window: the replacement for origin
        `inputIt`, which brings the list one position ahead of `inputIt`
        (a zero-size window stays empty). */
    method Advance()
      requires Valid() && started
      requires listAt == inputIt && window > 0 ==> inputIt + window < |input|
      modifies this`sorter, this`listAt
      ensures Valid()
      ensures listAt == if window == 0 then inputIt else inputIt + 1
      ensures FirstWithOrigin(old(sorter), inputIt) < |old(sorter)| ==> inputIt + window < |input|
      ensures sorter == Stepped(old(sorter), input, inputIt, window)
      ensures old(listAt) == inputIt + 1 ==> sorter == old(sorter)
      ensures Values(sorter) == Ascending(input[listAt..listAt + window])
    {
      var to := if window == 0 then inputIt else inputIt + 1;
      SteppedWindow(sorter, input, inputIt, window, listAt, to);
      Replace();
      listAt := to;
    }

    /** The first-call branch of the step: appends `(i, input[i])` for every
        `i` of the first window, sorts the list by value and sets the position
        to 0. */
    method Fill()
      requires window <= |input|
      requires sorter == []
      modifies this`inputIt, this`sorter, this`started, this`listAt
      ensures IsSortedWindow(sorter, input, 0, window) && |sorter| == window
      ensures inputIt == 0 && started && listAt == 0
    {
      var i := 0;
      while i < window
        invariant i <= window
        invariant sorter == WindowEntries(input, 0, i)
      {
        sorter := sorter + [Entry(i, input[i])];
        i := i + 1;
      }
      sorter := SortByValue(sorter);
      inputIt := 0;
      started := true;
      listAt := 0;
      FilledWindow(sorter, input, window);
      WindowLength(sorter, input, 0, window);
    }

    /** Erases the entry whose origin is `inputIt` and inserts
        `(inputIt + window, input[inputIt + window])` in front of the first
        entry not less than it; returns without a change when no entry has that
        origin. */
    method Replace()
      requires FirstWithOrigin(sorter, inputIt) < |sorter| ==> inputIt + window < |input|
      modifies this`sorter
      ensures sorter == Stepped(old(sorter), input, inputIt, window)
    {
      var replaced := ReplaceExpired(sorter, input, inputIt, window);
      if replaced.Some? {
        sorter := replaced.value;
      }
    }
  }
}
