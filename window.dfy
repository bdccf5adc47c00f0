/** The vocabulary shared by the three sliding-window sorters: input values,
    `(origin, value)` entries, the window of entries a position covers, the
    two linear scans, ordered insertion, erasure, and the reference ordering
    that every strategy must reproduce. */
module Window {

  /** The sources hold `double`s that are only ever compared; NaN is excluded,
      so the values form a total order, and `real` keeps every comparison the
      sources make (it does not keep `-0.0` and `+0.0` apart, which those
      comparisons cannot tell apart either). */
  type Value = real

  /** An element of a sorted window: where it came from in the input, and its value. */
  datatype Entry = Entry(origin: int, value: Value)

  /** The three `invalid_argument` messages of the validating constructors. */
  datatype InitError = EmptyInput | ZeroWindow | WindowExceedsInput

  datatype Option<T> = None | Some(value: T)

  datatype Result<T, E> = Success(value: T) | Failure(error: E)

  /** The constructor checks of `SortAndReplace` and `SimpleSort`, in the order
      they are made. */
  function Validate(input: seq<Value>, window: nat): (r: Option<InitError>)
    ensures r == None <==> 0 < |input| && 1 <= window <= |input|
    ensures r == Some(EmptyInput) <==> |input| == 0
    ensures r == Some(ZeroWindow) <==> |input| > 0 && window == 0
    ensures r == Some(WindowExceedsInput) <==> |input| > 0 && window > |input|
  {
    if |input| == 0 then Some(EmptyInput)
    else if window < 1 then Some(ZeroWindow)
    else if |input| < window then Some(WindowExceedsInput)
    else None
  }

  // ---------------------------------------------------------------------------
  // Orderings and the reference sort

  predicate SortedValues(s: seq<Value>) {
    forall i, j :: 0 <= i < j < |s| ==> s[i] <= s[j]
  }

  predicate SortedByValue(s: seq<Entry>) {
    forall i, j :: 0 <= i < j < |s| ==> ValueAt(s, i) <= ValueAt(s, j)
  }

  /** The value stored at position `i`. `SortedByValue` quantifies over it, so
      a pair of positions is compared only where a proof names it. */
  function ValueAt(s: seq<Entry>, i: nat): Value
    requires i < |s|
  {
    s[i].value
  }

  /** What `get()` hands out of a list of entries: the values, in stored order. */
  function Values(s: seq<Entry>): (r: seq<Value>)
    ensures |r| == |s|
    ensures forall i {:trigger r[i]} :: 0 <= i < |s| ==> r[i] == s[i].value
  {
    seq(|s|, i requires 0 <= i < |s| => s[i].value)
  }

  /** Insertion of one value in front of the first element not less than it
      (reference definition). */
  function InsertSorted(s: seq<Value>, v: Value): (r: seq<Value>)
    ensures |r| == |s| + 1
  {
    if s == [] || v <= s[0] then [v] + s
    else [s[0]] + InsertSorted(s[1..], v)
  }

  /** Putting a value in front of an ascending sequence of values no smaller
      than it gives an ascending sequence. */
  lemma SortedCons(a: Value, t: seq<Value>)
    requires SortedValues(t)
    requires forall i :: 0 <= i < |t| ==> a <= t[i]
    ensures SortedValues([a] + t)
  {
    var r := [a] + t;
    forall i, j | 0 <= i < j < |r|
      ensures r[i] <= r[j]
    {
      assert r[j] == t[j - 1];
      if i > 0 {
        assert r[i] == t[i - 1];
      }
    }
  }

  /** Inserting a value adds it to the multiset and keeps an ascending sequence ascending. */
  lemma {:induction false} InsertSortedCorrect(s: seq<Value>, v: Value)
    ensures multiset(InsertSorted(s, v)) == multiset(s) + multiset{v}
    ensures SortedValues(s) ==> SortedValues(InsertSorted(s, v))
  {
    if s == [] || v <= s[0] {
      if SortedValues(s) {
        forall i | 0 <= i < |s|
          ensures v <= s[i]
        {
          assert s[0] <= s[i];
        }
        SortedCons(v, s);
      }
    } else {
      InsertSortedCorrect(s[1..], v);
      assert s == [s[0]] + s[1..];
      if SortedValues(s) {
        HeadStaysLeast(s, v, InsertSorted(s[1..], v));
      }
    }
  }

  /** When `v` goes behind the head of an ascending `s`, the head stays in front
      of the ascending rest `t`, which holds the tail of `s` and `v`. */
  lemma HeadStaysLeast(s: seq<Value>, v: Value, t: seq<Value>)
    requires SortedValues(s) && s != [] && s[0] < v
    requires SortedValues(t)
    requires multiset(t) == multiset(s[1..]) + multiset{v}
    ensures SortedValues([s[0]] + t)
  {
    forall i | 0 <= i < |t|
      ensures s[0] <= t[i]
    {
      assert t[i] in multiset(s[1..]) + multiset{v};
      if t[i] != v {
        var j :| 0 <= j < |s[1..]| && s[1..][j] == t[i];
        assert s[j + 1] == t[i];
      }
    }
    SortedCons(s[0], t);
  }

  /** The ascending arrangement of `s`: the reference every window view must equal. */
  function Ascending(s: seq<Value>): (r: seq<Value>)
    ensures |r| == |s|
  {
    if s == [] then []
    else InsertSorted(Ascending(s[..|s| - 1]), s[|s| - 1])
  }

  /** `Ascending` sorts: its result is an ascending permutation of its argument. */
  lemma {:induction false} AscendingCorrect(s: seq<Value>)
    ensures SortedValues(Ascending(s))
    ensures multiset(Ascending(s)) == multiset(s)
  {
    if s != [] {
      AscendingCorrect(s[..|s| - 1]);
      InsertSortedCorrect(Ascending(s[..|s| - 1]), s[|s| - 1]);
      assert s == s[..|s| - 1] + [s[|s| - 1]];
    }
  }

  /** The head of an ascending sequence is its least element. */
  lemma SortedHeadLeast(a: seq<Value>, x: Value)
    requires SortedValues(a)
    requires x in multiset(a)
    ensures a != [] && a[0] <= x
  {
    var i :| 0 <= i < |a| && a[i] == x;
  }

  /** Two ascending sequences holding the same multiset of values are equal. */
  lemma {:induction false} SortedEqual(a: seq<Value>, b: seq<Value>)
    requires SortedValues(a) && SortedValues(b)
    requires multiset(a) == multiset(b)
    ensures a == b
    decreases |a|
  {
    if a == [] {
      assert |multiset(b)| == 0;
    } else {
      SortedSameHead(a, b);
      TailMultiset(a);
      TailMultiset(b);
      SortedEqual(a[1..], b[1..]);
      assert a == [a[0]] + a[1..] && b == [b[0]] + b[1..];
    }
  }

  /** Dropping the head of a sequence drops one occurrence of it. */
  lemma TailMultiset<T>(s: seq<T>)
    requires s != []
    ensures multiset(s[1..]) == multiset(s) - multiset{s[0]}
  {
    assert s == [s[0]] + s[1..];
  }

  /** Two non-empty ascending sequences holding the same values start alike. */
  lemma SortedSameHead(a: seq<Value>, b: seq<Value>)
    requires SortedValues(a) && SortedValues(b)
    requires multiset(a) == multiset(b) && a != []
    ensures b != [] && a[0] == b[0]
  {
    assert a[0] in multiset(a);
    SortedHeadLeast(b, a[0]);
    assert b[0] in multiset(b);
    SortedHeadLeast(a, b[0]);
  }

  /** Any ascending permutation of `s` is `Ascending(s)`: the sorted view is unique. */
  lemma SortedUnique(t: seq<Value>, s: seq<Value>)
    requires SortedValues(t)
    requires multiset(t) == multiset(s)
    ensures t == Ascending(s)
  {
    AscendingCorrect(s);
    SortedEqual(t, Ascending(s));
  }

  /** A sequence that is already ascending is its own ascending arrangement. */
  lemma AscendingOfSorted(s: seq<Value>)
    requires SortedValues(s)
    ensures Ascending(s) == s
  {
    SortedUnique(s, s);
  }

  // ---------------------------------------------------------------------------
  // Windows of entries

  /** The entries `(i, data[i])` for `i` in `[lo, hi)`, in index order. */
  function WindowEntries(data: seq<Value>, lo: nat, hi: nat): seq<Entry>
    requires lo <= hi <= |data|
  {
    seq(hi - lo, i requires 0 <= i < hi - lo => Entry(lo + i, data[lo + i]))
  }

  /** `s` is a sorted view of the window `[lo, lo + w)`: non-decreasing by value,
      and holding exactly the entries `(i, data[i])` of that window, each once. */
  ghost predicate IsSortedWindow(s: seq<Entry>, data: seq<Value>, lo: nat, w: nat)
    requires lo + w <= |data|
  {
    SortedByValue(s) && multiset(s) == multiset(WindowEntries(data, lo, lo + w))
  }

  // ---------------------------------------------------------------------------
  // The two scans and the list edits

  /** Position of the first entry with the given origin, `|s|` when there is none
      (the `find_if` by origin). */
  function FirstWithOrigin(s: seq<Entry>, o: int): (k: nat)
    ensures k <= |s|
    ensures k < |s| ==> s[k].origin == o
  {
    if s == [] then 0
    else if s[0].origin == o then 0
    else 1 + FirstWithOrigin(s[1..], o)
  }

  /** An entry with the origin at `j` means the first one is at `j` or before. */
  lemma {:induction false} FirstWithOriginAtMost(s: seq<Entry>, o: int, j: nat)
    requires j < |s| && s[j].origin == o
    ensures FirstWithOrigin(s, o) <= j
  {
    if s[0].origin != o {
      FirstWithOriginAtMost(s[1..], o, j - 1);
    }
  }

  /** The first entry with origin `o` is at `k` exactly when no entry before `k`
      has that origin and the entry at `k` (if any) has it. */
  lemma {:induction false} FirstWithOriginIs(s: seq<Entry>, o: int, k: nat)
    requires k <= |s|
    requires forall j :: 0 <= j < k ==> s[j].origin != o
    requires k < |s| ==> s[k].origin == o
    ensures FirstWithOrigin(s, o) == k
  {
    if k > 0 {
      assert s[0].origin != o;
      FirstWithOriginIs(s[1..], o, k - 1);
    }
  }

  /** Position of the first entry whose value is at least `v`, `|s|` when there is
      none (the `find_if` for the insertion point). */
  function FirstNotLess(s: seq<Entry>, v: Value): (k: nat)
    ensures k <= |s|
    ensures k < |s| ==> s[k].value >= v
  {
    if s == [] then 0
    else if s[0].value >= v then 0
    else 1 + FirstNotLess(s[1..], v)
  }

  /** Every entry in front of the insertion point is less than `v`. */
  lemma {:induction false} FirstNotLessSkips(s: seq<Entry>, v: Value, j: nat)
    requires j < FirstNotLess(s, v)
    ensures s[j].value < v
  {
    if j > 0 {
      FirstNotLessSkips(s[1..], v, j - 1);
    }
  }

  /** The insertion point is `k` exactly when every entry before `k` is less
      than `v` and the entry at `k` (if any) is not. */
  lemma {:induction false} FirstNotLessIs(s: seq<Entry>, v: Value, k: nat)
    requires k <= |s|
    requires forall j :: 0 <= j < k ==> s[j].value < v
    requires k < |s| ==> s[k].value >= v
    ensures FirstNotLess(s, v) == k
  {
    if k > 0 {
      assert s[0].value < v;
      FirstNotLessIs(s[1..], v, k - 1);
    }
  }

  /** `erase` at position `k`: the other entries keep their relative order. */
  function RemoveAt(s: seq<Entry>, k: nat): (r: seq<Entry>)
    requires k < |s|
    ensures |r| == |s| - 1
  {
    s[..k] + s[k + 1..]
  }

  /** Erasing removes exactly the erased entry. */
  lemma RemoveAtMultiset(s: seq<Entry>, k: nat)
    requires k < |s|
    ensures multiset(RemoveAt(s, k)) == multiset(s) - multiset{s[k]}
  {
    assert s == s[..k] + [s[k]] + s[k + 1..];
  }

  /** Erasing removes exactly the erased entry and keeps a sorted list sorted. */
  lemma RemoveAtCorrect(s: seq<Entry>, k: nat)
    requires k < |s|
    ensures multiset(RemoveAt(s, k)) == multiset(s) - multiset{s[k]}
    ensures SortedByValue(s) ==> SortedByValue(RemoveAt(s, k))
  {
    var r := RemoveAt(s, k);
    RemoveAtMultiset(s, k);
    if SortedByValue(s) {
      forall i, j | 0 <= i < j < |r|
        ensures ValueAt(r, i) <= ValueAt(r, j)
      {
        var i' := if i < k then i else i + 1;
        var j' := if j < k then j else j + 1;
        assert r[i] == s[i'] && r[j] == s[j'];
        assert ValueAt(s, i') <= ValueAt(s, j');
      }
    }
  }

  /** `erase` of the first entry with origin `o`; a list without one is left as it is. */
  function EraseOrigin(s: seq<Entry>, o: int): (r: seq<Entry>)
    ensures FirstWithOrigin(s, o) == |s| ==> r == s
    ensures FirstWithOrigin(s, o) < |s| ==> |r| == |s| - 1
  {
    if s == [] then []
    else if s[0].origin == o then s[1..]
    else [s[0]] + EraseOrigin(s[1..], o)
  }

  /** Erasing by origin is erasing at the position the scan finds. */
  lemma {:induction false} EraseOriginAt(s: seq<Entry>, o: int)
    requires FirstWithOrigin(s, o) < |s|
    ensures EraseOrigin(s, o) == RemoveAt(s, FirstWithOrigin(s, o))
  {
    if s[0].origin != o {
      var k := FirstWithOrigin(s, o);
      var t := s[1..];
      EraseOriginAt(t, o);
      calc {
        EraseOrigin(s, o);
        [s[0]] + EraseOrigin(t, o);
        [s[0]] + (t[..k - 1] + t[k..]);
        { assert [s[0]] + t[..k - 1] == s[..k]; assert t[k..] == s[k + 1..]; }
        s[..k] + s[k + 1..];
      }
    }
  }

  /** Erasing the first entry with origin `o` removes exactly that entry and
      keeps a sorted list sorted. */
  lemma EraseOriginCorrect(s: seq<Entry>, o: int)
    requires FirstWithOrigin(s, o) < |s|
    ensures multiset(EraseOrigin(s, o)) == multiset(s) - multiset{s[FirstWithOrigin(s, o)]}
    ensures SortedByValue(s) ==> SortedByValue(EraseOrigin(s, o))
  {
    EraseOriginAt(s, o);
    RemoveAtCorrect(s, FirstWithOrigin(s, o));
  }

  /** `emplace` of `e` in front of the first entry whose value is at least `e.value`. */
  function InsertOrdered(s: seq<Entry>, e: Entry): (r: seq<Entry>)
    ensures |r| == |s| + 1
  {
    if s == [] || s[0].value >= e.value then [e] + s
    else [s[0]] + InsertOrdered(s[1..], e)
  }

  /** Ordered insertion puts `e` at the position the insertion-point scan finds. */
  lemma {:induction false} InsertOrderedAt(s: seq<Entry>, e: Entry)
    ensures InsertOrdered(s, e) == s[..FirstNotLess(s, e.value)] + [e] + s[FirstNotLess(s, e.value)..]
  {
    if !(s == [] || s[0].value >= e.value) {
      var k := FirstNotLess(s, e.value);
      InsertOrderedAt(s[1..], e);
      assert s[..k] == [s[0]] + s[1..][..k - 1];
      assert s[k..] == s[1..][k - 1..];
    }
  }

  /** Placing `e` at the insertion point keeps a sorted list sorted. */
  lemma InsertAtPointSorted(s: seq<Entry>, e: Entry, k: nat)
    requires SortedByValue(s)
    requires k == FirstNotLess(s, e.value)
    ensures SortedByValue(s[..k] + [e] + s[k..])
  {
    var r := s[..k] + [e] + s[k..];
    assert forall i :: 0 <= i < k ==> r[i] == s[i];
    assert forall i :: k < i < |r| ==> r[i] == s[i - 1];
    forall i, j | 0 <= i < j < |r|
      ensures ValueAt(r, i) <= ValueAt(r, j)
    {
      if j == k {
        FirstNotLessSkips(s, e.value, i);
      } else if i == k {
        if k < j - 1 {
          assert ValueAt(s, k) <= ValueAt(s, j - 1);
        }
      } else {
        var i' := if i < k then i else i - 1;
        var j' := if j < k then j else j - 1;
        assert ValueAt(s, i') <= ValueAt(s, j');
      }
    }
  }

  /** Placing `e` at the insertion point adds exactly `e` and keeps a sorted
      list sorted. */
  lemma InsertAtPointCorrect(s: seq<Entry>, e: Entry, k: nat)
    requires k == FirstNotLess(s, e.value)
    ensures multiset(s[..k] + [e] + s[k..]) == multiset(s) + multiset{e}
    ensures SortedByValue(s) ==> SortedByValue(s[..k] + [e] + s[k..])
  {
    InsertAtMultiset(s, e, k);
    if SortedByValue(s) {
      InsertAtPointSorted(s, e, k);
    }
  }

  /** Placing `x` at position `k` adds exactly `x`. */
  lemma InsertAtMultiset<T>(s: seq<T>, x: T, k: nat)
    requires k <= |s|
    ensures multiset(s[..k] + [x] + s[k..]) == multiset(s) + multiset{x}
  {
    assert s == s[..k] + s[k..];
  }

  /** Ordered insertion adds exactly the new entry and keeps a sorted list sorted. */
  lemma InsertOrderedCorrect(s: seq<Entry>, e: Entry)
    ensures multiset(InsertOrdered(s, e)) == multiset(s) + multiset{e}
    ensures SortedByValue(s) ==> SortedByValue(InsertOrdered(s, e))
  {
    InsertOrderedAt(s, e);
    InsertAtPointCorrect(s, e, FirstNotLess(s, e.value));
  }

  /** The linear `find_if` scan for an origin. */
  method FindOrigin(s: seq<Entry>, o: int) returns (k: nat)
    ensures k == FirstWithOrigin(s, o)
  {
    k := 0;
    while k < |s| && s[k].origin != o
      invariant k <= |s|
      invariant forall j :: 0 <= j < k ==> s[j].origin != o
    {
      k := k + 1;
    }
    FirstWithOriginIs(s, o, k);
  }

  /** The linear `find_if` scan for the first entry not less than `v`. */
  method FindFirstNotLess(s: seq<Entry>, v: Value) returns (k: nat)
    ensures k == FirstNotLess(s, v)
  {
    k := 0;
    while k < |s| && s[k].value < v
      invariant k <= |s|
      invariant forall j :: 0 <= j < k ==> s[j].value < v
    {
      k := k + 1;
    }
    FirstNotLessIs(s, v, k);
  }

  /** The effect of `std::list::sort` by value: a non-decreasing permutation.
      The order among equal values is left open. */
  method SortByValue(s: seq<Entry>) returns (r: seq<Entry>)
    ensures SortedByValue(r)
    ensures multiset(r) == multiset(s)
  {
    r := [];
    for i := 0 to |s|
      invariant SortedByValue(r)
      invariant multiset(r) == multiset(s[..i])
    {
      assert s[..i + 1] == s[..i] + [s[i]];
      InsertOrderedCorrect(r, s[i]);
      r := InsertOrdered(r, s[i]);
    }
    assert s[..|s|] == s;
  }

  // ---------------------------------------------------------------------------
  // Lemmas about windows

  /** Erasing the entry at `j` erases exactly its value from the values. */
  lemma ValuesRemoveAt(b: seq<Entry>, j: nat)
    requires j < |b|
    ensures multiset(Values(b)) == multiset(Values(RemoveAt(b, j))) + multiset{b[j].value}
  {
    var vs := Values(b);
    assert vs == vs[..j] + [b[j].value] + vs[j + 1..];
    assert Values(RemoveAt(b, j)) == vs[..j] + vs[j + 1..];
  }

  /** A permutation of entries gives a permutation of their values. */
  lemma {:induction false} ValuesPermutation(a: seq<Entry>, b: seq<Entry>)
    requires multiset(a) == multiset(b)
    ensures multiset(Values(a)) == multiset(Values(b))
    decreases |a|
  {
    if a == [] {
      assert |b| == |multiset(b)| == 0;
    } else {
      assert a[0] in multiset(b);
      var j :| 0 <= j < |b| && b[j] == a[0];
      TailMultiset(a);
      RemoveAtMultiset(b, j);
      ValuesPermutation(a[1..], RemoveAt(b, j));
      assert Values(a) == [a[0].value] + Values(a[1..]);
      ValuesRemoveAt(b, j);
    }
  }

  /** The values of a sorted view of a window are that window's slice in ascending order. */
  lemma WindowValues(s: seq<Entry>, data: seq<Value>, lo: nat, w: nat)
    requires lo + w <= |data|
    requires IsSortedWindow(s, data, lo, w)
    ensures Values(s) == Ascending(data[lo..lo + w])
  {
    ValuesPermutation(s, WindowEntries(data, lo, lo + w));
    assert Values(WindowEntries(data, lo, lo + w)) == data[lo..lo + w];
    forall i, j | 0 <= i < j < |s|
      ensures Values(s)[i] <= Values(s)[j]
    {
      assert ValueAt(s, i) <= ValueAt(s, j);
    }
    SortedUnique(Values(s), data[lo..lo + w]);
  }

  /** Filling the list with `(i, data[i])` for `i < w` and sorting it gives a
      sorted view of the first window. */
  lemma FilledWindow(s: seq<Entry>, data: seq<Value>, w: nat)
    requires w <= |data|
    requires SortedByValue(s)
    requires multiset(s) == multiset(WindowEntries(data, 0, w))
    ensures IsSortedWindow(s, data, 0, w)
    ensures Values(s) == Ascending(data[..w])
  {
    WindowValues(s, data, 0, w);
    assert data[0..w] == data[..w];
  }

  /** Every entry of a sorted view of `[lo, lo + w)` comes from that window and
      carries its input value. */
  lemma WindowMembers(s: seq<Entry>, data: seq<Value>, lo: nat, w: nat, k: nat)
    requires lo + w <= |data|
    requires IsSortedWindow(s, data, lo, w)
    requires k < |s|
    ensures lo <= s[k].origin < lo + w
    ensures s[k].value == data[s[k].origin]
  {
    assert s[k] in multiset(WindowEntries(data, lo, lo + w));
  }

  /** The remove-then-insert step both incremental classes perform for the
      expiring origin `lo`: erase the first entry with origin `lo`, then insert
      `(lo + w, data[lo + w])` before the first entry not less than it. `None`
      when no entry has origin `lo`, in which case nothing is erased or read. */
  function Replaced(s: seq<Entry>, data: seq<Value>, lo: nat, w: nat): (r: Option<seq<Entry>>)
    requires FirstWithOrigin(s, lo) < |s| ==> lo + w < |data|
    ensures r.Some? <==> FirstWithOrigin(s, lo) < |s|
    ensures r.Some? ==> |r.value| == |s|
  {
    var k := FirstWithOrigin(s, lo);
    if k == |s| then None
    else Some(InsertOrdered(EraseOrigin(s, lo), Entry(lo + w, data[lo + w])))
  }

  /** The remove-then-insert step on the list: the `find_if` scan for origin
      `lo`, the `erase` of what it finds, the `find_if` scan for the first
      entry not less than the admitted value and the `emplace` in front of it.
      `None`, with nothing erased or read, when the first scan finds nothing. */
  method ReplaceExpired(s: seq<Entry>, data: seq<Value>, lo: nat, w: nat) returns (r: Option<seq<Entry>>)
    requires FirstWithOrigin(s, lo) < |s| ==> lo + w < |data|
    ensures r == Replaced(s, data, lo, w)
  {
    var toRemove := FindOrigin(s, lo);
    if toRemove == |s| {
      return None;
    }
    var erased := s[..toRemove] + s[toRemove + 1..];
    EraseOriginAt(s, lo);
    var toInsert := Entry(lo + w, data[lo + w]);
    var firstGreater := FindFirstNotLess(erased, toInsert.value);
    InsertOrderedAt(erased, toInsert);
    return Some(erased[..firstGreater] + [toInsert] + erased[firstGreater..]);
  }

  /** The window `[lo, lo + w)` is its first entry followed by `[lo + 1, lo + w)`,
      and the window `[lo + 1, lo + 1 + w)` is `[lo + 1, lo + w)` followed by its
      last entry. */
  lemma WindowSplit(data: seq<Value>, lo: nat, w: nat)
    requires 0 < w
    requires lo + w < |data|
    ensures WindowEntries(data, lo, lo + w) == [Entry(lo, data[lo])] + WindowEntries(data, lo + 1, lo + w)
    ensures WindowEntries(data, lo + 1, lo + 1 + w) == WindowEntries(data, lo + 1, lo + w) + [Entry(lo + w, data[lo + w])]
  {
  }

  /** In a sorted view of `[lo, lo + w)` the first entry with origin `lo` exists
      and is `(lo, data[lo])`. */
  lemma ExpiredFound(s: seq<Entry>, data: seq<Value>, lo: nat, w: nat)
    requires 0 < w
    requires lo + w <= |data|
    requires IsSortedWindow(s, data, lo, w)
    ensures FirstWithOrigin(s, lo) < |s|
    ensures s[FirstWithOrigin(s, lo)] == Entry(lo, data[lo])
  {
    var expired := Entry(lo, data[lo]);
    assert WindowEntries(data, lo, lo + w)[0] == expired;
    assert expired in multiset(WindowEntries(data, lo, lo + w));
    assert expired in multiset(s);
    var j :| 0 <= j < |s| && s[j] == expired;
    var k := FirstWithOrigin(s, lo);
    FirstWithOriginAtMost(s, lo, j);
    WindowMembers(s, data, lo, w, k);
  }

  /** The incremental step. From a sorted view of `[lo, lo + w)` the entry with
      origin `lo` is found, so the "not found" outcome cannot happen; the entry
      found is `(lo, data[lo])` itself; and the step yields a sorted view of
      `[lo + 1, lo + 1 + w)`. */
  lemma SlideKeepsWindow(s: seq<Entry>, data: seq<Value>, lo: nat, w: nat)
    requires 0 < w
    requires lo + w < |data|
    requires IsSortedWindow(s, data, lo, w)
    ensures FirstWithOrigin(s, lo) < |s|
    ensures s[FirstWithOrigin(s, lo)] == Entry(lo, data[lo])
    ensures Replaced(s, data, lo, w).Some?
    ensures IsSortedWindow(Replaced(s, data, lo, w).value, data, lo + 1, w)
  {
    EraseExpired(s, data, lo, w);
    InsertAdmitted(EraseOrigin(s, lo), data, lo, w);
  }

  /** `SlideKeepsWindow`, stated about the list `t` the replacement produced
      and the position `next` of the window it now holds. */
  lemma ReplacedIsNextWindow(s: seq<Entry>, t: seq<Entry>, data: seq<Value>, lo: nat, next: nat, w: nat)
    requires 0 < w
    requires lo + w < |data|
    requires next == lo + 1
    requires IsSortedWindow(s, data, lo, w)
    requires Replaced(s, data, lo, w) == Some(t)
    ensures IsSortedWindow(t, data, next, w)
  {
    SlideKeepsWindow(s, data, lo, w);
  }

  /** Erasing the entry of the expired position from a sorted view of the
      window at `lo` leaves a sorted view of `[lo + 1, lo + w)`. */
  lemma EraseExpired(s: seq<Entry>, data: seq<Value>, lo: nat, w: nat)
    requires 0 < w
    requires lo + w < |data|
    requires IsSortedWindow(s, data, lo, w)
    ensures FirstWithOrigin(s, lo) < |s|
    ensures s[FirstWithOrigin(s, lo)] == Entry(lo, data[lo])
    ensures SortedByValue(EraseOrigin(s, lo))
    ensures multiset(EraseOrigin(s, lo)) == multiset(WindowEntries(data, lo + 1, lo + w))
  {
    ExpiredFound(s, data, lo, w);
    WindowSplit(data, lo, w);
    EraseOriginCorrect(s, lo);
  }

  /** Inserting the admitted entry into a sorted view of `[lo + 1, lo + w)`
      gives a sorted view of the window at `lo + 1`. */
  lemma InsertAdmitted(r: seq<Entry>, data: seq<Value>, lo: nat, w: nat)
    requires 0 < w
    requires lo + w < |data|
    requires SortedByValue(r)
    requires multiset(r) == multiset(WindowEntries(data, lo + 1, lo + w))
    ensures IsSortedWindow(InsertOrdered(r, Entry(lo + w, data[lo + w])), data, lo + 1, w)
  {
    WindowSplit(data, lo, w);
    InsertOrderedCorrect(r, Entry(lo + w, data[lo + w]));
  }

  /** A sorted view of a window holds exactly `w` entries. */
  lemma WindowLength(s: seq<Entry>, data: seq<Value>, lo: nat, w: nat)
    requires lo + w <= |data|
    requires IsSortedWindow(s, data, lo, w)
    ensures |s| == w
  {
    assert |multiset(s)| == |multiset(WindowEntries(data, lo, lo + w))|;
  }

  /** A sorted view of an empty window is the empty list. */
  lemma EmptyWindow(s: seq<Entry>, data: seq<Value>, lo: nat)
    requires lo <= |data|
    requires IsSortedWindow(s, data, lo, 0)
    ensures s == []
  {
    assert WindowEntries(data, lo, lo) == [];
    assert |multiset(s)| == 0;
  }

  /** Once the window has moved past `lo - 1`, no entry with that origin is left,
      so a second step for `lo - 1` finds nothing and changes nothing. */
  lemma ExpiredAbsent(s: seq<Entry>, data: seq<Value>, lo: nat, w: nat)
    requires 0 < lo
    requires lo + w <= |data|
    requires IsSortedWindow(s, data, lo, w)
    ensures FirstWithOrigin(s, lo - 1) == |s|
    ensures Replaced(s, data, lo - 1, w) == None
  {
    var k := FirstWithOrigin(s, lo - 1);
    if k < |s| {
      WindowMembers(s, data, lo, w, k);
    }
  }
}
