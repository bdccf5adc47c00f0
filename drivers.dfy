/** The stepping loop that drives a window sorter to the end of its input:
    ask for the current window, and while the window is not the last one,
    slide and ask again. The benchmark runs this loop over both strategies
    on the same input; here it collects what every `Get` returned. */
module Drivers {
  import opened Window
  import opened SortAndReplaceWindow
  import opened SimpleSortWindow
  import opened SlidingWindowSorted

  /** The incremental strategy driven over every position. The list always
      holds the expiring entry when it is looked for, so no step fails, and
      the loop slides exactly `|data| - window` times. */
  method RunSortAndReplace(data: seq<Value>, window: nat) returns (views: seq<seq<Value>>)
    requires Validate(data, window) == None
    ensures |views| == |data| - window + 1
    ensures forall p :: 0 <= p < |views| ==> views[p] == Ascending(data[p..p + window])
  {
    var s := new SortAndReplace(data, window);
    var result := s.Get();
    views := [result];
    while !s.Last()
      invariant s.Valid() && s.isSorted
      invariant s.data == data && s.window == window
      invariant |views| == s.index + 1
      invariant forall p :: 0 <= p < |views| ==> views[p] == Ascending(data[p..p + window])
      decreases |data| - s.index
    {
      result := NextAndGet(s);
      views := views + [result];
    }
  }

  /** One turn of the loop: a `next` followed by a `get`, seen through the
      window it hands out. */
  method NextAndGet(s: SortAndReplace) returns (result: seq<Value>)
    requires s.Valid() && s.isSorted && !s.Last()
    modifies s
    ensures s.Valid() && s.isSorted && s.index == old(s.index) + 1
    ensures result == Ascending(s.data[s.index..s.index + s.window])
  {
    s.Next();
    result := s.Get();
  }

  /** The views a driver hands out at its first `n` positions: at position
      `p`, the window at `p` in ascending order. */
  function Views(data: seq<Value>, window: nat, n: nat): (r: seq<seq<Value>>)
    requires n == 0 || n - 1 + window <= |data|
    ensures |r| == n
    ensures forall p :: 0 <= p < n ==> r[p] == Ascending(data[p..p + window])
  {
    if n == 0 then []
    else Views(data, window, n - 1) + [Ascending(data[n - 1..n - 1 + window])]
  }

  /** The baseline strategy driven over every position. */
  method RunSimpleSort(data: seq<Value>, window: nat) returns (views: seq<seq<Value>>)
    requires Validate(data, window) == None
    ensures |views| == |data| - window + 1
    ensures forall p :: 0 <= p < |views| ==> views[p] == Ascending(data[p..p + window])
  {
    var s;
    s, views := SimpleStart(data, window);
    while !s.Last()
      invariant s.Valid() && s.isSorted
      invariant s.data == data && s.window == window
      invariant views == Views(data, window, s.index + 1)
      decreases |data| - s.index
    {
      views := SimpleNextAndGet(s, views);
    }
  }

  /** The baseline's loop set up: construction and the first `get`. */
  method SimpleStart(data: seq<Value>, window: nat) returns (s: SimpleSort, views: seq<seq<Value>>)
    requires Validate(data, window) == None
    ensures fresh(s) && fresh(s.sorter)
    ensures s.Valid() && s.isSorted && s.index == 0
    ensures s.data == data && s.window == window
    ensures views == Views(data, window, 1)
  {
    s := new SimpleSort(data, window);
    var result := s.Get();
    views := [result];
  }

  /** One turn of the baseline's loop: a `next` followed by a `get`, whose
      view joins those handed out at the earlier positions. */
  method SimpleNextAndGet(s: SimpleSort, views: seq<seq<Value>>) returns (next: seq<seq<Value>>)
    requires s.Valid() && s.isSorted && !s.Last()
    requires views == Views(s.data, s.window, s.index + 1)
    modifies s, s.sorter
    ensures s.Valid() && s.isSorted && s.index == old(s.index) + 1
    ensures next == Views(s.data, s.window, s.index + 1)
  {
    s.Next();
    var result := s.Get();
    next := views + [result];
  }

  /** Both strategies over the same input and window, as the benchmark runs
      them: at every position they hand out the same ascending values. */
  method Algorithms(data: seq<Value>, window: nat) returns (simple: seq<seq<Value>>, incremental: seq<seq<Value>>)
    requires Validate(data, window) == None
    ensures simple == incremental
    ensures |incremental| == |data| - window + 1
    ensures forall p :: 0 <= p < |incremental| ==> SortedValues(incremental[p])
    ensures forall p :: 0 <= p < |incremental| ==> multiset(incremental[p]) == multiset(data[p..p + window])
  {
    simple := RunSimpleSort(data, window);
    incremental := RunSortAndReplace(data, window);
    forall p | 0 <= p < |incremental|
      ensures SortedValues(incremental[p]) && multiset(incremental[p]) == multiset(data[p..p + window])
    {
      AscendingCorrect(data[p..p + window]);
    }
  }

  /** The earlier variant driven once per position for as long as the next
      step has an element to admit. After the `Get` at position `p` the list
      holds the window at `p + 1`, so the views run one position ahead and the
      window at position 0 is never handed out. */
  method RunSorter(input: seq<Value>, window: nat) returns (views: seq<seq<Value>>)
    requires 0 < window < |input|
    ensures |views| == |input| - window
    ensures forall p :: 0 <= p < |views| ==> views[p] == Ascending(input[p + 1..p + 1 + window])
  {
    var s := new Sorter(input, window);
    var list := s.Get();
    views := [Values(list)];
    while s.inputIt + 1 + window < |input|
      invariant s.Valid() && s.started
      invariant s.input == input && s.window == window
      invariant s.listAt == s.inputIt + 1
      invariant |views| == s.inputIt + 1
      invariant forall p :: 0 <= p < |views| ==> views[p] == Ascending(input[p + 1..p + 1 + window])
      decreases |input| - s.inputIt
    {
      var view := SorterNextAndGet(s);
      views := views + [view];
    }
  }

  /** One turn of the earlier variant's loop: a `next` followed by a `get`,
      seen through the values of the list it returns. */
  method SorterNextAndGet(s: Sorter) returns (view: seq<Value>)
    requires s.Valid() && s.started && 0 < s.window
    requires s.listAt == s.inputIt + 1 && s.inputIt + 1 + s.window < |s.input|
    modifies s
    ensures s.Valid() && s.started
    ensures s.inputIt == old(s.inputIt) + 1 && s.listAt == s.inputIt + 1
    ensures view == Ascending(s.input[s.inputIt + 1..s.inputIt + 1 + s.window])
  {
    s.Next();
    var list := s.Get();
    view := Values(list);
  }
}
