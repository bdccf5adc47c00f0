/** The unit tests of the incremental strategy, replayed on the model: each
    method drives fresh objects exactly as the corresponding test does, and its
    postcondition is the test's expectation. */
module Scenarios {
  import opened Window
  import opened SortAndReplaceWindow
  import opened SimpleSortWindow
  import opened SlidingWindowSorted
  import opened Drivers

  /** An empty input, a zero window and a window larger than the input are each
      refused with their own error. */
  method InvalidInstantiation() returns (empty: InitError, zero: InitError, tooLarge: InitError)
    ensures empty == EmptyInput && zero == ZeroWindow && tooLarge == WindowExceedsInput
  {
    var r := SortAndReplace.Create([], 1);
    empty := r.error;
    var input := [1.0, 2.0, 3.0, 4.0];
    r := SortAndReplace.Create(input, 0);
    zero := r.error;
    r := SortAndReplace.Create(input, 5);
    tooLarge := r.error;
  }

  /** A window as long as the input: the first view is the whole input sorted,
      the view is already the last one, and a `next` there changes nothing. */
  method WindowEqualsInputSize() returns (first: seq<Value>, last: bool, second: seq<Value>)
    ensures first == [1.0, 2.0, 3.0, 4.0]
    ensures last
    ensures second == [1.0, 2.0, 3.0, 4.0]
  {
    var input := [1.0, 2.0, 3.0, 4.0];
    var s := new SortAndReplace(input, 4);
    first := s.Get();
    AscendingOfSorted(input);
    assert input[0..4] == input;
    last := s.Last();
    s.Next();
    second := s.Get();
  }

  /** The windows of size 5 of `[1, ..., 7]` are already ascending. */
  lemma AscendingSteps(input: seq<Value>)
    requires input == [1.0, 2.0, 3.0, 4.0, 5.0, 6.0, 7.0]
    ensures Ascending(input[0..5]) == [1.0, 2.0, 3.0, 4.0, 5.0]
    ensures Ascending(input[1..6]) == [2.0, 3.0, 4.0, 5.0, 6.0]
    ensures Ascending(input[2..7]) == [3.0, 4.0, 5.0, 6.0, 7.0]
  {
    assert input[0..5] == [1.0, 2.0, 3.0, 4.0, 5.0];
    AscendingOfSorted(input[0..5]);
    assert input[1..6] == [2.0, 3.0, 4.0, 5.0, 6.0];
    AscendingOfSorted(input[1..6]);
    assert input[2..7] == [3.0, 4.0, 5.0, 6.0, 7.0];
    AscendingOfSorted(input[2..7]);
  }

  /** Two slides over an ascending input move the view one value at a time. */
  method StepByStep() returns (first: seq<Value>, second: seq<Value>, third: seq<Value>)
    ensures first == [1.0, 2.0, 3.0, 4.0, 5.0]
    ensures second == [2.0, 3.0, 4.0, 5.0, 6.0]
    ensures third == [3.0, 4.0, 5.0, 6.0, 7.0]
  {
    var input := [1.0, 2.0, 3.0, 4.0, 5.0, 6.0, 7.0];
    AscendingSteps(input);
    var s := new SortAndReplace(input, 5);
    first := s.Get();
    second := NextAndGet(s);
    third := NextAndGet(s);
  }

  /** Steps `s` to its last window, as the iteration test's `for (; !last(); )`
      loop does, and returns the last view. */
  method IterateToEnd(s: SortAndReplace) returns (result: seq<Value>)
    requires s.Valid()
    modifies s
    ensures s.Valid() && s.index == |s.data| - s.window
    ensures result == Ascending(s.data[|s.data| - s.window..])
  {
    result := s.Get();
    while !s.Last()
      invariant s.Valid() && s.isSorted
      invariant result == Ascending(s.data[s.index..s.index + s.window])
      decreases |s.data| - s.index
    {
      result := NextAndGet(s);
    }
    assert s.data[s.index..s.index + s.window] == s.data[|s.data| - s.window..];
  }

  /** The last windows of the iteration test's two inputs, in ascending order. */
  lemma IterationWindows(input: seq<Value>, one: seq<Value>)
    requires input == [3.1, 7.2, 1.9, 4.5, 5.1, 18.1, 0.9]
    requires one == [3.1]
    ensures Ascending(input[|input| - 3..]) == [0.9, 5.1, 18.1]
    ensures Ascending(one[|one| - 1..]) == [3.1]
  {
    assert input[|input| - 3..] == [5.1, 18.1, 0.9];
    SortedUnique([0.9, 5.1, 18.1], input[|input| - 3..]);
    assert one[|one| - 1..] == one;
    AscendingOfSorted(one);
  }

  /** Iterating to the end leaves the last window sorted: `[5.1, 18.1, 0.9]`
      as `[0.9, 5.1, 18.1]`, and a single-element input as itself. */
  method Iteration() returns (longer: seq<Value>, single: seq<Value>)
    ensures longer == [0.9, 5.1, 18.1]
    ensures single == [3.1]
  {
    var input := [3.1, 7.2, 1.9, 4.5, 5.1, 18.1, 0.9];
    var one := [3.1];
    IterationWindows(input, one);
    var s := new SortAndReplace(input, 3);
    longer := IterateToEnd(s);
    var t := new SortAndReplace(one, 1);
    single := IterateToEnd(t);
  }

  /** The baseline strategy gives the same views as the step test expects. */
  method SimpleStepByStep() returns (first: seq<Value>, second: seq<Value>)
    ensures first == [1.0, 2.0, 3.0, 4.0, 5.0]
    ensures second == [2.0, 3.0, 4.0, 5.0, 6.0]
  {
    var input := [1.0, 2.0, 3.0, 4.0, 5.0, 6.0, 7.0];
    AscendingSteps(input);
    var s := new SimpleSort(input, 5);
    first := s.Get();
    s.Next();
    second := s.Get();
  }

  /** The earlier variant's first `get` already performs a step: on
      `[1, 2, 3]` with a window of 2 it hands out the window at position 1, and
      the entry for position 0 is gone. */
  method SorterRunsAhead() returns (values: seq<Value>, position: nat)
    ensures values == [2.0, 3.0]
    ensures position == 0
  {
    var input := [1.0, 2.0, 3.0];
    assert input[1..3] == [2.0, 3.0];
    AscendingOfSorted(input[1..3]);
    var s := new Sorter(input, 2);
    var list := s.Get();
    values := Values(list);
    position := s.inputIt;
  }
}
