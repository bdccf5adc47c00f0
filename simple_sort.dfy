/** The baseline strategy: every time the window has moved, its slice of the
    input is copied into a buffer of `window` values and the buffer is sorted
    from scratch. Its output is the reference the incremental strategy must
    reproduce. */
module SimpleSortWindow {
  import opened Window

  /** Putting `x` between the elements of an ascending sequence not greater
      than it and those greater than it keeps the sequence ascending. */
  lemma ShiftedSorted(p: seq<Value>, x: Value, j: nat)
    requires SortedValues(p)
    requires j <= |p|
    requires j > 0 ==> p[j - 1] <= x
    requires j < |p| ==> x < p[j]
    ensures SortedValues(p[..j] + [x] + p[j..])
  {
    var r := p[..j] + [x] + p[j..];
    assert forall k :: 0 <= k < j ==> r[k] == p[k];
    assert forall k :: j < k < |r| ==> r[k] == p[k - 1];
    forall a, b | 0 <= a < b < |r|
      ensures r[a] <= r[b]
    {
      if b < j {
      } else if b == j {
        assert p[a] <= p[j - 1];
      } else if a == j {
        assert p[j] <= p[b - 1];
      } else if a < j {
      } else {
      }
    }
  }

  /** A sorted prefix with `x` placed after every element not greater than it
      and before every element greater than it is the ordered insertion of `x`. */
  lemma ShiftedInsert(p: seq<Value>, x: Value, j: nat)
    requires SortedValues(p)
    requires j <= |p|
    requires j > 0 ==> p[j - 1] <= x
    requires j < |p| ==> x < p[j]
    ensures p[..j] + [x] + p[j..] == InsertSorted(p, x)
  {
    var r := p[..j] + [x] + p[j..];
    ShiftedSorted(p, x, j);
    InsertAtMultiset(p, x, j);
    InsertSortedCorrect(p, x);
    SortedEqual(r, InsertSorted(p, x));
  }

  /** One round of the insertion sort: `a[i]` moves left past every element of
      `a[..i]` greater than it, and lands at `j`. */
  method ShiftIn(a: array<Value>, i: nat) returns (j: nat)
    requires i < a.Length
    modifies a
    ensures j <= i
    ensures a[..] == old(a[..j]) + [old(a[i])] + old(a[j..i]) + old(a[i + 1..])
    ensures j > 0 ==> old(a[j - 1]) <= old(a[i])
    ensures j < i ==> old(a[i]) < old(a[j])
  {
    var x := a[i];
    j := i;
    while j > 0 && a[j - 1] > x
      invariant 0 <= j <= i
      invariant forall k :: 0 <= k < j ==> a[k] == old(a[k])
      invariant forall k :: j < k <= i ==> a[k] == old(a[k - 1])
      invariant forall k :: i < k < a.Length ==> a[k] == old(a[k])
      invariant j < i ==> x < old(a[j])
      invariant x == old(a[i])
    {
      a[j] := a[j - 1];
      j := j - 1;
    }
    a[j] := x;
    ghost var shifted := old(a[..j]) + [old(a[i])] + old(a[j..i]) + old(a[i + 1..]);
    forall k | 0 <= k < a.Length
      ensures a[k] == shifted[k]
    {
      if k < j {
      } else if k == j {
      } else if k <= i {
        assert shifted[k] == old(a[j..i])[k - j - 1];
      } else {
        assert shifted[k] == old(a[i + 1..])[k - i - 1];
      }
    }
  }

  /** The prefix `input[..i + 1]` in ascending order is `input[i]` inserted into
      the ascending arrangement of `input[..i]`. */
  lemma AscendingSnoc(input: seq<Value>, i: nat)
    requires i < |input|
    ensures Ascending(input[..i + 1]) == InsertSorted(Ascending(input[..i]), input[i])
  {
    assert input[..i + 1][..i] == input[..i];
  }

  /** One round of the insertion sort extends the sorted prefix by one element:
      if `before` is `input[..i]` in ascending order followed by the rest of
      `input`, moving `before[i]` left to `j` gives `input[..i + 1]` in ascending
      order followed by the rest. */
  lemma InsertionRound(input: seq<Value>, before: seq<Value>, after: seq<Value>, i: nat, j: nat)
    requires i < |input|
    requires before == Ascending(input[..i]) + input[i..]
    requires j <= i
    requires after == before[..j] + [before[i]] + before[j..i] + before[i + 1..]
    requires j > 0 ==> before[j - 1] <= before[i]
    requires j < i ==> before[i] < before[j]
    ensures after == Ascending(input[..i + 1]) + input[i + 1..]
  {
    var prefix := Ascending(input[..i]);
    var x := input[i];
    assert before[..i] == prefix;
    assert before[i] == x && before[i + 1..] == input[i + 1..];
    assert before[..j] == prefix[..j] && before[j..i] == prefix[j..];
    AscendingCorrect(input[..i]);
    ShiftedInsert(prefix, x, j);
    AscendingSnoc(input, i);
  }

  /** Sorts the buffer in place, ascending (the `std::sort` with `std::less`):
      an insertion sort whose sorted prefix grows by one element per round. */
  method SortAscending(a: array<Value>)
    modifies a
    ensures a[..] == Ascending(old(a[..]))
  {
    ghost var input := a[..];
    var i := 0;
    while i < a.Length
      invariant 0 <= i <= a.Length
      invariant a[..] == Ascending(input[..i]) + input[i..]
    {
      ghost var before := a[..];
      var j := ShiftIn(a, i);
      InsertionRound(input, before, a[..], i, j);
      i := i + 1;
    }
    assert input[..a.Length] == input;
  }

  class SimpleSort {
    /** The shared, read-only input. */
    const data: seq<Value>
    const window: nat
    /** The working buffer, allocated with `window` slots. */
    const sorter: array<Value>
    /** Left edge of the window. */
    var index: nat
    /** The cache flag: the buffer already holds the window at `index`, sorted. */
    var isSorted: bool

    ghost predicate Valid()
      reads this, sorter
    {
      && Validate(data, window) == None
      && sorter.Length == window
      && index + window <= |data|
      && (isSorted ==> sorter[..] == Ascending(data[index..index + window]))
    }

    /** The constructor on arguments that pass its checks. */
    constructor (input: seq<Value>, window: nat)
      requires Validate(input, window) == None
      ensures Valid() && fresh(sorter)
      ensures data == input && this.window == window
      ensures index == 0 && !isSorted
    {
      data := input;
      this.window := window;
      sorter := new Value[window];
      index := 0;
      isSorted := false;
    }

    /** Construction, with the `invalid_argument` throws as a `Failure`. */
    static method Create(input: seq<Value>, window: nat) returns (r: Result<SimpleSort, InitError>)
      ensures r.Failure? <==> Validate(input, window).Some?
      ensures r.Failure? ==> Validate(input, window) == Some(r.error)
      ensures r.Success? ==> fresh(r.value) && fresh(r.value.sorter) && r.value.Valid()
      ensures r.Success? ==> r.value.data == input && r.value.window == window
      ensures r.Success? ==> r.value.index == 0 && !r.value.isSorted
    {
      var error := Validate(input, window);
      if error.Some? {
        return Failure(error.value);
      }
      var s := new SimpleSort(input, window);
      return Success(s);
    }

    /** The window has reached the end of the input: the only position where
        `Last` holds is `|data| - window`. */
    predicate Last()
      reads this, sorter
      requires Valid()
      ensures Last() <==> index == |data| - window
    {
      index >= |data| - window
    }

    /** Slides the window one position unless it is at the end. */
    method Next()
      requires Valid()
      modifies this`index, this`isSorted
      ensures Valid()
      ensures old(Last()) ==> index == old(index) && isSorted == old(isSorted)
      ensures !old(Last()) ==> index == old(index) + 1 && !isSorted
    {
      if Last() {
        return;
      }
      index := index + 1;
      isSorted := false;
    }

    /** The values of the window at `index`, ascending. The buffer is rebuilt
        only when the window has moved since the last call. */
    method Get() returns (result: seq<Value>)
      requires Valid()
      modifies this`isSorted, sorter
      ensures Valid() && isSorted && index == old(index)
      ensures result == sorter[..]
      ensures result == Ascending(data[index..index + window])
      ensures old(isSorted) ==> sorter[..] == old(sorter[..])
    {
      if !isSorted {
        Step();
      }
      result := sorter[..];
    }

    /** Copies the window at `index` into the buffer (`copy_n`) and sorts it. */
    method Step()
      requires Valid()
      modifies this`isSorted, sorter
      ensures Valid() && isSorted
    {
      var i := 0;
      while i < window
        invariant i <= window
        invariant sorter[..i] == data[index..index + i]
      {
        sorter[i] := data[index + i];
        i := i + 1;
      }
      assert sorter[..] == data[index..index + window];
      SortAscending(sorter);
      isSorted := true;
    }
  }
}
