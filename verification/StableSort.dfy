// The in-place sort behind listings: Go's stable sort, which sorts blocks by
// insertion and merges them in place (SymMerge). Its result is that of one
// insertion sort.
module StableSort {
  import opened Sequences
  import opened Sorting

  // ---- Insertion ----

  // insertionSort on s, which lies between p and q.
  method SortRange<T>(arr: array<T>, a: nat, b: nat, less: (T, T) -> bool,
                      ghost p: seq<T>, ghost s: seq<T>, ghost q: seq<T>)
    requires arr[..] == p + s + q && |p| == a && a + |s| == b
    modifies arr
    ensures arr[..] == p + InsertionSort(s, less) + q
  {
    assert arr[..] == p + [] + (s[0..] + q) && s[..0] == [];
    for i := a to b
      invariant arr[..] == p + InsertionSort(s[..i - a], less) + (s[i - a..] + q)
    {
      ghost var k := i - a;
      SortOneMore(s, k, less);
      SplitFirst(p + InsertionSort(s[..k], less), s[k..], q);
      Sink(arr, a, i, less, p, InsertionSort(s[..k], less), s[k], s[k + 1..] + q);
    }
    assert s[..b - a] == s && s[b - a..] + q == q;
  }

  lemma SplitFirst<T>(p: seq<T>, s: seq<T>, q: seq<T>)
    requires s != []
    ensures p + (s + q) == p + [s[0]] + (s[1..] + q)
  {
  }

  lemma SortOneMore<T>(s: seq<T>, k: nat, less: (T, T) -> bool)
    requires k < |s|
    ensures InsertionSort(s[..k + 1], less) == Insert(InsertionSort(s[..k], less), s[k], less)
  {
    assert s[..k + 1][..k] == s[..k];
  }

  // The inner loop: the element x, at n, sinks into the sorted part s.
  method Sink<T>(arr: array<T>, a: nat, n: nat, less: (T, T) -> bool,
                 ghost p: seq<T>, ghost s: seq<T>, ghost x: T, ghost q: seq<T>)
    requires arr[..] == p + s + [x] + q && |p| == a && a + |s| == n
    modifies arr
    ensures arr[..] == p + Insert(s, x, less) + q
  {
    ghost var was := arr[..];
    var j := n;
    while j > a && less(arr[j], arr[j - 1])
      invariant a <= j <= n && arr[j] == x
      invariant forall k :: j - a <= k < |s| ==> less(x, s[k])
      invariant forall i :: j < i <= n ==> arr[i] == was[i - 1]
      invariant forall i :: 0 <= i < j || n < i < arr.Length ==> arr[i] == was[i]
    {
      assert arr[j - 1] == was[j - 1] == s[j - 1 - a];
      arr[j], arr[j - 1] := arr[j - 1], arr[j];
      j := j - 1;
    }
    assert j > a ==> arr[j - 1] == was[j - 1] == s[j - 1 - a];
    Sunk(arr[..], p, s, x, q, j - a, less);
  }

  lemma Sunk<T>(now: seq<T>, p: seq<T>, s: seq<T>, x: T, q: seq<T>, k: nat, less: (T, T) -> bool)
    requires k <= |s| && (k > 0 ==> !less(x, s[k - 1])) && forall i :: k <= i < |s| ==> less(x, s[i])
    requires var was, a, n := p + s + [x] + q, |p|, |p| + |s|;
             && |now| == |was| && now[a + k] == x
             && (forall i :: a + k < i <= n ==> now[i] == was[i - 1])
             && (forall i :: 0 <= i < a + k || n < i < |now| ==> now[i] == was[i])
    ensures now == p + Insert(s, x, less) + q
  {
    InsertStops(s, x, k, less);
    var r := s[..k] + [x] + s[k..];
    assert |p + r + q| == |now|;
  }

  // ---- Merging ----

  // swapRange: x, at a, and z, at b, change places.
  method SwapRange<T>(arr: array<T>, a: nat, b: nat, n: nat,
                      ghost p: seq<T>, ghost x: seq<T>, ghost y: seq<T>, ghost z: seq<T>, ghost q: seq<T>)
    requires arr[..] == p + x + y + z + q && |p| == a && |x| == |z| == n && b == a + n + |y|
    modifies arr
    ensures arr[..] == p + z + y + x + q
  {
    ghost var was := arr[..];
    for i := 0 to n
      invariant forall k :: a <= k < a + i ==> arr[k] == was[k + (b - a)]
      invariant forall k :: b <= k < b + i ==> arr[k] == was[k - (b - a)]
      invariant forall k :: 0 <= k < a || a + i <= k < b || b + i <= k < arr.Length ==> arr[k] == was[k]
    {
      arr[a + i], arr[b + i] := arr[b + i], arr[a + i];
    }
    SwapsParts(arr[..], p, x, y, z, q);
  }

  lemma SwapsParts<T>(now: seq<T>, p: seq<T>, x: seq<T>, y: seq<T>, z: seq<T>, q: seq<T>)
    requires |x| == |z|
    requires var was, a, n := p + x + y + z + q, |p|, |x|;
             var b := a + n + |y|;
             && |now| == |was|
             && (forall k :: a <= k < a + n ==> now[k] == was[k + (b - a)])
             && (forall k :: b <= k < b + n ==> now[k] == was[k - (b - a)])
             && (forall k :: 0 <= k < a || a + n <= k < b || b + n <= k < |now| ==> now[k] == was[k])
    ensures now == p + z + y + x + q
  {
  }

  // An array being rotated: x and y, which meet at m, have still to change places.
  datatype Turning<T> = Turning(p: seq<T>, x: seq<T>, y: seq<T>, q: seq<T>) {
    function Now(): seq<T> {
      p + x + y + q
    }

    function Goal(): seq<T> {
      p + y + x + q
    }

    predicate Meets(m: nat, i: nat, j: nat) {
      |x| == i > 0 && |y| == j > 0 && |p| + i == m
    }
  }

  // rotate: arr[a..m] and arr[m..b] change places.
  method Rotate<T>(arr: array<T>, a: nat, m: nat, b: nat, ghost parts: Turning<T>)
    requires a < m < b && parts.Meets(m, m - a, b - m) && arr[..] == parts.Now()
    modifies arr
    ensures arr[..] == parts.Goal()
  {
    var i: nat, j: nat := m - a, b - m;
    ghost var t := parts;
    while i != j
      invariant t.Meets(m, i, j) && arr[..] == t.Now() && t.Goal() == parts.Goal()
      decreases i + j
    {
      if i > j {
        t := TurnLeft(arr, m, i, j, t);
        i := i - j;
      } else {
        t := TurnRight(arr, m, i, j, t);
        j := j - i;
      }
    }
    TurnOver(arr, m, i, t);
  }

  // The first branch of rotate's loop: all of y gets to its place.
  method TurnLeft<T>(arr: array<T>, m: nat, i: nat, j: nat, ghost t: Turning<T>) returns (ghost t': Turning<T>)
    requires t.Meets(m, i, j) && arr[..] == t.Now() && j < i
    modifies arr
    ensures t'.Meets(m, i - j, j) && arr[..] == t'.Now() && t'.Goal() == t.Goal()
  {
    ghost var x1, x2 := t.x[..j], t.x[j..];
    Rejoined(t.p, x1, x2, t.y, t.q);
    Rejoined(t.p + t.y, x1, x2, [], t.q);
    assert x1 + x2 == t.x && t.p + t.y + t.x + [] == t.p + t.y + t.x && t.p + t.y + x1 + x2 + [] == t.p + t.y + x1 + x2;
    SwapRange(arr, m - i, m, j, t.p, x1, x2, t.y, t.q);
    t' := Turning(t.p + t.y, x2, x1, t.q);
  }

  // The other branch: all of x gets to its place.
  method TurnRight<T>(arr: array<T>, m: nat, i: nat, j: nat, ghost t: Turning<T>) returns (ghost t': Turning<T>)
    requires t.Meets(m, i, j) && arr[..] == t.Now() && i < j
    modifies arr
    ensures t'.Meets(m, i, j - i) && arr[..] == t'.Now() && t'.Goal() == t.Goal()
  {
    ghost var y1, y2 := t.y[..j - i], t.y[j - i..];
    RejoinedLater(t.p, t.x, y1, y2, t.q);
    RejoinedEarlier(t.p, y1, y2, t.x, t.q);
    assert y1 + y2 == t.y;
    SwapRange(arr, m - i, m + j - i, i, t.p, t.x, y1, y2, t.q);
    t' := Turning(t.p, y2, y1, t.x + t.q);
    Associates(t.p + y2 + y1, t.x, t.q);
  }

  // The end of rotate: two sides of one length.
  method TurnOver<T>(arr: array<T>, m: nat, i: nat, ghost t: Turning<T>)
    requires t.Meets(m, i, i) && arr[..] == t.Now()
    modifies arr
    ensures arr[..] == t.Goal()
  {
    assert t.p + t.x + [] == t.p + t.x && t.p + t.y + [] == t.p + t.y;
    SwapRange(arr, m - i, m, i, t.p, t.x, [], t.y, t.q);
  }

  lemma Rejoined<T>(p: seq<T>, x1: seq<T>, x2: seq<T>, y: seq<T>, q: seq<T>)
    ensures p + x1 + x2 + y + q == p + (x1 + x2) + y + q
  {
  }

  lemma RejoinedLater<T>(p: seq<T>, x: seq<T>, y1: seq<T>, y2: seq<T>, q: seq<T>)
    ensures p + x + y1 + y2 + q == p + x + (y1 + y2) + q
  {
  }

  lemma RejoinedEarlier<T>(p: seq<T>, y1: seq<T>, y2: seq<T>, x: seq<T>, q: seq<T>)
    ensures p + y1 + y2 + (x + q) == p + (y1 + y2) + x + q
  {
  }

  // An array with two runs to merge, l from a on and r from m up to b.
  datatype Runs<T> = Runs(p: seq<T>, l: seq<T>, r: seq<T>, q: seq<T>) {
    function Now(): seq<T> {
      p + l + r + q
    }

    predicate At(a: nat, m: nat, b: nat) {
      |p| == a && |p| + |l| == m && |p| + |l| + |r| == b
    }

    function Done(less: (T, T) -> bool): seq<T> {
      p + Merge(l, r, less) + q
    }
  }

  // symMerge's binary search. Up to start the left run stays before what the right
  // run has from end on, and what the right run has up to end goes before the rest
  // of the left run.
  method SearchSplit<T>(arr: array<T>, a: nat, m: nat, b: nat, less: (T, T) -> bool) returns (start: nat)
    requires a < m < b <= arr.Length
    ensures var mid := (a + b) / 2;
            var end := mid + m - start;
            && a <= start <= m && start <= mid <= end && m <= end <= b
            && (start > a && end < b ==> !less(arr[end], arr[start - 1]))
            && (start < m && end > m ==> less(arr[end - 1], arr[start]))
  {
    var mid := (a + b) / 2;
    var n := mid + m;
    var r: nat;
    if m > mid {
      start, r := n - b, mid;
    } else {
      start, r := a, m;
    }
    ghost var from, to := start, r;
    var p := n - 1;
    while start < r
      invariant from <= start <= r <= to
      invariant start > from ==> !less(arr[p - (start - 1)], arr[start - 1])
      invariant r < to ==> less(arr[p - r], arr[r])
    {
      var c := (start + r) / 2;
      if !less(arr[p - c], arr[c]) {
        start := c + 1;
      } else {
        r := c;
      }
    }
  }

  // Where a single element from the left goes.
  lemma FirstGoesTo<T>(x: T, r1: seq<T>, r2: seq<T>, less: (T, T) -> bool)
    requires Cross([x], r1, less) && Stay([x], r2, less)
    ensures Merge([x], r1 + r2, less) == r1 + [x] + r2
  {
    MergeSplits([], [x], r1, r2, less);
    assert [] + [x] == [x];
    MergeStays([x], r2, less);
    Associates(r1, [x], r2);
  }

  // Where a single element from the right goes.
  lemma LastGoesTo<T>(l1: seq<T>, l2: seq<T>, x: T, less: (T, T) -> bool)
    requires Stay(l1, [x], less) && Cross(l2, [x], less)
    ensures Merge(l1 + l2, [x], less) == l1 + [x] + l2
  {
    MergeSplits(l1, l2, [x], [], less);
    assert [x] + [] == [x];
    MergeStays(l1, [x], less);
  }

  // Swaps carry the element at a forward to c, past s.
  method MoveRight<T>(arr: array<T>, a: nat, c: nat, ghost p: seq<T>, ghost x: T, ghost s: seq<T>, ghost q: seq<T>)
    requires |p| == a && a + |s| == c < arr.Length && arr[..] == p + [x] + s + q
    modifies arr
    ensures arr[..] == p + s + [x] + q
  {
    ghost var was := arr[..];
    for k := a to c
      invariant arr[k] == x
      invariant forall i :: a <= i < k ==> arr[i] == was[i + 1]
      invariant forall i :: 0 <= i < a || k < i < arr.Length ==> arr[i] == was[i]
    {
      arr[k], arr[k + 1] := arr[k + 1], arr[k];
    }
    MovedRight(arr[..], p, x, s, q);
  }

  lemma MovedRight<T>(now: seq<T>, p: seq<T>, x: T, s: seq<T>, q: seq<T>)
    requires var was, a, c := p + [x] + s + q, |p|, |p| + |s|;
             && |now| == |was| && now[c] == x
             && (forall i :: a <= i < c ==> now[i] == was[i + 1])
             && (forall i :: 0 <= i < a || c < i < |now| ==> now[i] == was[i])
    ensures now == p + s + [x] + q
  {
  }

  // Swaps carry the element at c back to a, past s.
  method MoveLeft<T>(arr: array<T>, a: nat, c: nat, ghost p: seq<T>, ghost s: seq<T>, ghost x: T, ghost q: seq<T>)
    requires |p| == a && a + |s| == c < arr.Length && arr[..] == p + s + [x] + q
    modifies arr
    ensures arr[..] == p + [x] + s + q
  {
    ghost var was := arr[..];
    var k := c;
    while k > a
      invariant a <= k <= c && arr[k] == x
      invariant forall i :: k < i <= c ==> arr[i] == was[i - 1]
      invariant forall i :: 0 <= i < k || c < i < arr.Length ==> arr[i] == was[i]
    {
      arr[k], arr[k - 1] := arr[k - 1], arr[k];
      k := k - 1;
    }
    MovedLeft(arr[..], p, s, x, q);
  }

  lemma MovedLeft<T>(now: seq<T>, p: seq<T>, s: seq<T>, x: T, q: seq<T>)
    requires var was, a, c := p + s + [x] + q, |p|, |p| + |s|;
             && |now| == |was| && now[a] == x
             && (forall i :: a < i <= c ==> now[i] == was[i - 1])
             && (forall i :: 0 <= i < a || c < i < |now| ==> now[i] == was[i])
    ensures now == p + [x] + s + q
  {
  }

  lemma PutBetween<T>(p: seq<T>, s: seq<T>, x: T, t: seq<T>, q: seq<T>)
    ensures p + s + [x] + (t + q) == p + (s + [x] + t) + q
    ensures p + [x] + s + (t + q) == p + [x] + (s + t) + q
    ensures (p + s) + t + [x] + q == p + (s + t) + [x] + q
    ensures (p + s) + [x] + t + q == p + (s + [x] + t) + q
  {
  }

  // The first element of arr[m..b] that does not come before arr[a].
  method SearchFirst<T>(arr: array<T>, a: nat, m: nat, b: nat, less: (T, T) -> bool) returns (i: nat)
    requires a < m <= b <= arr.Length
    ensures m <= i <= b && (i > m ==> less(arr[i - 1], arr[a])) && (i < b ==> !less(arr[i], arr[a]))
  {
    i := m;
    var j := b;
    while i < j
      invariant m <= i <= j <= b
      invariant (i > m ==> less(arr[i - 1], arr[a])) && (j < b ==> !less(arr[j], arr[a]))
    {
      var h := (i + j) / 2;
      if less(arr[h], arr[a]) {
        i := h + 1;
      } else {
        j := h;
      }
    }
  }

  // The first element of arr[a..m] that arr[m] comes before.
  method SearchLast<T>(arr: array<T>, a: nat, m: nat, less: (T, T) -> bool) returns (i: nat)
    requires a <= m < arr.Length
    ensures a <= i <= m && (i > a ==> !less(arr[m], arr[i - 1])) && (i < m ==> less(arr[m], arr[i]))
  {
    i := a;
    var j := m;
    while i < j
      invariant a <= i <= j <= m
      invariant (i > a ==> !less(arr[m], arr[i - 1])) && (j < m ==> less(arr[m], arr[j]))
    {
      var h := (i + j) / 2;
      if !less(arr[m], arr[h]) {
        i := h + 1;
      } else {
        j := h;
      }
    }
  }

  // symMerge with one element on the left: it moves right past the elements that
  // come before it.
  method MergeFirst<T(!new)>(arr: array<T>, a: nat, b: nat, less: (T, T) -> bool,
                             ghost le: (T, T) -> bool, ghost holds: bool, ghost runs: Runs<T>)
    requires Ranks(less, le) && OnTies(less, le, holds) && Sorted(runs.r, le)
    requires runs.At(a, a + 1, b) && arr[..] == runs.Now()
    modifies arr
    ensures arr[..] == runs.Done(less)
  {
    var i := SearchFirst(arr, a, a + 1, b, less);
    ghost var k := i - a - 1;
    FirstMerges(arr[..], runs, k, less, le, holds);
    MoveRight(arr, a, i - 1, runs.p, runs.l[0], runs.r[..k], runs.r[k..] + runs.q);
  }

  lemma FirstMerges<T(!new)>(now: seq<T>, runs: Runs<T>, k: nat, less: (T, T) -> bool, le: (T, T) -> bool, holds: bool)
    requires Ranks(less, le) && OnTies(less, le, holds) && Sorted(runs.r, le)
    requires now == runs.Now() && |runs.l| == 1 && k <= |runs.r|
    requires var a := |runs.p|;
             && (k > 0 ==> less(now[a + k], now[a])) && (k < |runs.r| ==> !less(now[a + 1 + k], now[a]))
    ensures var x, s, t := runs.l[0], runs.r[..k], runs.r[k..];
            && now == runs.p + [x] + s + (t + runs.q)
            && runs.Done(less) == runs.p + s + [x] + (t + runs.q)
  {
    var x, s, t := runs.l[0], runs.r[..k], runs.r[k..];
    assert runs.l == [x] && runs.r == s + t;
    FirstIsSafe(now, runs, k, less, le, holds);
    FirstGoesTo(x, s, t, less);
    PutBetween(runs.p, s, x, t, runs.q);
  }

  lemma FirstIsSafe<T(!new)>(now: seq<T>, runs: Runs<T>, k: nat, less: (T, T) -> bool, le: (T, T) -> bool, holds: bool)
    requires Ranks(less, le) && OnTies(less, le, holds) && Sorted(runs.r, le)
    requires now == runs.Now() && |runs.l| == 1 && k <= |runs.r|
    requires var a := |runs.p|;
             && (k > 0 ==> less(now[a + k], now[a])) && (k < |runs.r| ==> !less(now[a + 1 + k], now[a]))
    ensures Cross([runs.l[0]], runs.r[..k], less) && Stay([runs.l[0]], runs.r[k..], less)
  {
    var x, r1, r2 := runs.l[0], runs.r[..k], runs.r[k..];
    assert now[|runs.p|] == x;
    assert k > 0 ==> now[|runs.p| + k] == r1[k - 1];
    assert k < |runs.r| ==> now[|runs.p| + 1 + k] == r2[0];
    assert r1 + r2 == runs.r && [] + [x] == [x] && [x] + [] == [x] && [] + r2 == r2;
    SortedParts(r1, r2, le);
    SplitIsSafe([], [x], r1, r2, less, le, holds);
    SplitIsSafe([x], [], [], r2, less, le, holds);
  }

  // symMerge with one element on the right: it moves left past the elements that
  // it comes before.
  method MergeLast<T(!new)>(arr: array<T>, a: nat, m: nat, less: (T, T) -> bool,
                            ghost le: (T, T) -> bool, ghost holds: bool, ghost runs: Runs<T>)
    requires Ranks(less, le) && OnTies(less, le, holds) && Sorted(runs.l, le)
    requires runs.At(a, m, m + 1) && arr[..] == runs.Now()
    modifies arr
    ensures arr[..] == runs.Done(less)
  {
    var i := SearchLast(arr, a, m, less);
    ghost var k := i - a;
    LastMerges(arr[..], runs, k, less, le, holds);
    MoveLeft(arr, i, m, runs.p + runs.l[..k], runs.l[k..], runs.r[0], runs.q);
  }

  lemma LastMerges<T(!new)>(now: seq<T>, runs: Runs<T>, k: nat, less: (T, T) -> bool, le: (T, T) -> bool, holds: bool)
    requires Ranks(less, le) && OnTies(less, le, holds) && Sorted(runs.l, le)
    requires now == runs.Now() && |runs.r| == 1 && k <= |runs.l|
    requires var a, m := |runs.p|, |runs.p| + |runs.l|;
             && (k > 0 ==> !less(now[m], now[a + k - 1])) && (k < |runs.l| ==> less(now[m], now[a + k]))
    ensures var s, t, x := runs.l[..k], runs.l[k..], runs.r[0];
            && now == (runs.p + s) + t + [x] + runs.q
            && runs.Done(less) == (runs.p + s) + [x] + t + runs.q
  {
    var s, t, x := runs.l[..k], runs.l[k..], runs.r[0];
    assert runs.r == [x] && runs.l == s + t;
    LastIsSafe(now, runs, k, less, le, holds);
    LastGoesTo(s, t, x, less);
    PutBetween(runs.p, s, x, t, runs.q);
  }

  lemma LastIsSafe<T(!new)>(now: seq<T>, runs: Runs<T>, k: nat, less: (T, T) -> bool, le: (T, T) -> bool, holds: bool)
    requires Ranks(less, le) && OnTies(less, le, holds) && Sorted(runs.l, le)
    requires now == runs.Now() && |runs.r| == 1 && k <= |runs.l|
    requires var a, m := |runs.p|, |runs.p| + |runs.l|;
             && (k > 0 ==> !less(now[m], now[a + k - 1])) && (k < |runs.l| ==> less(now[m], now[a + k]))
    ensures Stay(runs.l[..k], [runs.r[0]], less) && Cross(runs.l[k..], [runs.r[0]], less)
  {
    var l1, l2, x := runs.l[..k], runs.l[k..], runs.r[0];
    assert now[|runs.p| + |runs.l|] == x;
    assert k > 0 ==> now[|runs.p| + k - 1] == l1[k - 1];
    assert k < |runs.l| ==> now[|runs.p| + k] == l2[0];
    assert l1 + l2 == runs.l && [] + [x] == [x] && [x] + [] == [x] && l1 + [] == l1;
    SortedParts(l1, l2, le);
    SplitIsSafe(l1, l2, [x], [], less, le, holds);
    SplitIsSafe(l1, [], [], [x], less, le, holds);
  }

  // symMerge: the runs are cut by the search, the inner parts change places, and
  // each half is merged.
  method SymMerge<T(!new)>(arr: array<T>, a: nat, m: nat, b: nat, less: (T, T) -> bool,
                           ghost le: (T, T) -> bool, ghost holds: bool, ghost runs: Runs<T>)
    requires Ranks(less, le) && OnTies(less, le, holds) && Sorted(runs.l, le) && Sorted(runs.r, le)
    requires a < m < b && runs.At(a, m, b) && arr[..] == runs.Now()
    modifies arr
    ensures arr[..] == runs.Done(less)
    decreases b - a, 1
  {
    if m - a == 1 {
      MergeFirst(arr, a, b, less, le, holds, runs);
      return;
    }
    if b - m == 1 {
      MergeLast(arr, a, m, less, le, holds, runs);
      return;
    }
    ghost var cut;
    var start;
    start, cut := SearchCut(arr, a, m, b, less, le, holds, runs);
    var mid := (a + b) / 2;
    MergeCut(arr, a, start, m, mid, mid + m - start, b, less, le, holds, cut);
  }

  // The search, in terms of the runs it cuts: cut there, they can be merged by
  // merging the first parts and the second parts.
  method SearchCut<T(!new)>(arr: array<T>, a: nat, m: nat, b: nat, less: (T, T) -> bool,
                            ghost le: (T, T) -> bool, ghost holds: bool, ghost runs: Runs<T>)
    returns (start: nat, ghost cut: Cuts<T>)
    requires Ranks(less, le) && OnTies(less, le, holds) && Sorted(runs.l, le) && Sorted(runs.r, le)
    requires a < m < b && runs.At(a, m, b) && arr[..] == runs.Now()
    ensures var mid := (a + b) / 2;
            a <= start <= m && start <= mid && mid + m - start <= b && cut.At(a, start, m, mid, mid + m - start, b)
    ensures cut.RunsSorted(le) && arr[..] == cut.Inner().Now() && runs.Done(less) == cut.Second(less).Done(less)
  {
    start := SearchSplit(arr, a, m, b, less);
    ghost var mid := (a + b) / 2;
    cut := FoundCut(arr[..], runs, a, start, m, mid, mid + m - start, b, less, le, holds);
  }

  // The rotation, and the two recursive calls.
  method MergeCut<T(!new)>(arr: array<T>, a: nat, start: nat, m: nat, mid: nat, end: nat, b: nat, less: (T, T) -> bool,
                           ghost le: (T, T) -> bool, ghost holds: bool, ghost cut: Cuts<T>)
    requires Ranks(less, le) && OnTies(less, le, holds) && cut.RunsSorted(le)
    requires cut.At(a, start, m, mid, end, b) && a < mid < b && arr[..] == cut.Inner().Now()
    modifies arr
    ensures arr[..] == cut.Second(less).Done(less)
    decreases b - a, 0
  {
    MeetInTheMiddle(arr, a, start, m, mid, end, b, cut);
    MergeHalf(arr, a, start, mid, less, le, holds, cut.First());
    cut.AfterFirst(less);
    MergeHalf(arr, mid, end, b, less, le, holds, cut.Second(less));
  }

  // One of the two recursive calls, which are made only if both runs have elements.
  method MergeHalf<T(!new)>(arr: array<T>, a: nat, m: nat, b: nat, less: (T, T) -> bool,
                            ghost le: (T, T) -> bool, ghost holds: bool, ghost runs: Runs<T>)
    requires Ranks(less, le) && OnTies(less, le, holds) && Sorted(runs.l, le) && Sorted(runs.r, le)
    requires runs.At(a, m, b) && arr[..] == runs.Now()
    modifies arr
    ensures arr[..] == runs.Done(less)
    decreases b - a, 2
  {
    if a < m && m < b {
      SymMerge(arr, a, m, b, less, le, holds, runs);
    } else {
      assert runs.p + [] == runs.p && runs.p + runs.l + [] == runs.p + runs.l;
    }
  }

  // Two runs cut in two.
  datatype Cuts<T> = Cuts(p: seq<T>, l1: seq<T>, l2: seq<T>, r1: seq<T>, r2: seq<T>, q: seq<T>) {
    ghost predicate RunsSorted(le: (T, T) -> bool) {
      Sorted(l1, le) && Sorted(l2, le) && Sorted(r1, le) && Sorted(r2, le)
    }

    // The places where the parts meet, before the rotation and after it.
    predicate At(a: nat, start: nat, m: nat, mid: nat, end: nat, b: nat) {
      && |p| == a && a + |l1| == start && start + |l2| == m && m + |r1| == end && end + |r2| == b
      && start + |r1| == mid
    }

    function Whole(): Runs<T> {
      Runs(p, l1 + l2, r1 + r2, q)
    }

    function Inner(): Turning<T> {
      Turning(p + l1, l2, r1, r2 + q)
    }

    function First(): Runs<T> {
      Runs(p, l1, r1, l2 + (r2 + q))
    }

    function Second(less: (T, T) -> bool): Runs<T> {
      Runs(p + Merge(l1, r1, less), l2, r2, q)
    }

    lemma AfterFirst(less: (T, T) -> bool)
      ensures First().Done(less) == Second(less).Now()
    {
      Associates(p + Merge(l1, r1, less), l2, r2 + q);
      Associates(p + Merge(l1, r1, less) + l2, r2, q);
    }

    lemma BeforeFirst()
      ensures Inner().Goal() == First().Now()
    {
      Associates(p + l1 + r1, l2, r2 + q);
    }
  }

  lemma CutNow<T>(p: seq<T>, l1: seq<T>, l2: seq<T>, r1: seq<T>, r2: seq<T>, q: seq<T>)
    ensures p + l1 + l2 + r1 + (r2 + q) == p + (l1 + l2) + (r1 + r2) + q
  {
  }

  lemma CutDone<T>(p: seq<T>, x: seq<T>, y: seq<T>, q: seq<T>)
    ensures p + (x + y) + q == p + x + y + q
  {
  }

  lemma FoundCut<T(!new)>(now: seq<T>, runs: Runs<T>, a: nat, start: nat, m: nat, mid: nat, end: nat, b: nat,
                          less: (T, T) -> bool, le: (T, T) -> bool, holds: bool)
    returns (cut: Cuts<T>)
    requires Ranks(less, le) && OnTies(less, le, holds) && Sorted(runs.l, le) && Sorted(runs.r, le)
    requires runs.At(a, m, b) && now == runs.Now() && a <= start <= m <= end <= b && end == mid + m - start
    requires start > a && end < b ==> !less(now[end], now[start - 1])
    requires start < m && end > m ==> less(now[end - 1], now[start])
    ensures cut.At(a, start, m, mid, end, b) && cut.RunsSorted(le)
    ensures now == cut.Inner().Now() && runs.Done(less) == cut.Second(less).Done(less)
  {
    cut := Cut(now, runs, start - a, end - m, less);
    CutMerges(cut, less, le, holds);
    CutNow(cut.p, cut.l1, cut.l2, cut.r1, cut.r2, cut.q);
    CutDone(cut.p, Merge(cut.l1, cut.r1, less), Merge(cut.l2, cut.r2, less), cut.q);
  }

  lemma Cut<T>(now: seq<T>, runs: Runs<T>, i: nat, j: nat, less: (T, T) -> bool) returns (cut: Cuts<T>)
    requires now == runs.Now() && i <= |runs.l| && j <= |runs.r|
    requires var a, m := |runs.p|, |runs.p| + |runs.l|;
             && (i > 0 && j < |runs.r| ==> !less(now[m + j], now[a + i - 1]))
             && (i < |runs.l| && j > 0 ==> less(now[m + j - 1], now[a + i]))
    ensures cut.Whole() == runs && |cut.l1| == i && |cut.r1| == j && Boundary(cut, less)
  {
    cut := Cuts(runs.p, runs.l[..i], runs.l[i..], runs.r[..j], runs.r[j..], runs.q);
    assert runs.l == cut.l1 + cut.l2 && runs.r == cut.r1 + cut.r2;
  }

  // The boundary of a cut: where the four parts meet.
  predicate Boundary<T>(cut: Cuts<T>, less: (T, T) -> bool) {
    && (cut.l1 != [] && cut.r2 != [] ==> !less(cut.r2[0], cut.l1[|cut.l1| - 1]))
    && (cut.l2 != [] && cut.r1 != [] ==> less(cut.r1[|cut.r1| - 1], cut.l2[0]))
  }

  lemma CutMerges<T(!new)>(cut: Cuts<T>, less: (T, T) -> bool, le: (T, T) -> bool, holds: bool)
    requires Ranks(less, le) && OnTies(less, le, holds) && Boundary(cut, less)
    requires Sorted(cut.Whole().l, le) && Sorted(cut.Whole().r, le)
    ensures cut.RunsSorted(le)
    ensures Merge(cut.l1 + cut.l2, cut.r1 + cut.r2, less) == Merge(cut.l1, cut.r1, less) + Merge(cut.l2, cut.r2, less)
  {
    SortedParts(cut.l1, cut.l2, le);
    SortedParts(cut.r1, cut.r2, le);
    SplitIsSafe(cut.l1, cut.l2, cut.r1, cut.r2, less, le, holds);
    MergeSplits(cut.l1, cut.l2, cut.r1, cut.r2, less);
  }

  // The rotation, done only if there is something on both sides.
  method MeetInTheMiddle<T>(arr: array<T>, a: nat, start: nat, m: nat, mid: nat, end: nat, b: nat, ghost cut: Cuts<T>)
    requires cut.At(a, start, m, mid, end, b) && arr[..] == cut.Inner().Now()
    modifies arr
    ensures arr[..] == cut.First().Now()
  {
    if start < m && m < end {
      Rotate(arr, start, m, end, cut.Inner());
    } else {
      var s := cut.p + cut.l1;
      assert s + [] == s && s + cut.l2 + [] == s + cut.l2 && s + cut.r1 + [] == s + cut.r1;
    }
    cut.BeforeFirst();
  }

  // ---- The stable sort ----

  // Every block of n sorted by itself.
  function SortBlocks<T>(s: seq<T>, n: nat, less: (T, T) -> bool): seq<T>
    requires n > 0
  {
    if |s| <= n then InsertionSort(s, less)
    else InsertionSort(s[..n], less) + SortBlocks(s[n..], n, less)
  }

  lemma FirstBlock<T>(s: seq<T>, n: nat, less: (T, T) -> bool)
    requires 0 < n <= |s|
    ensures SortBlocks(s, n, less) == InsertionSort(s[..n], less) + SortBlocks(s[n..], n, less)
  {
    if |s| == n {
      assert s[..n] == s && s[n..] == [];
      assert InsertionSort(s, less) + [] == InsertionSort(s, less);
    }
  }

  // symMerge on two sorted blocks.
  method MergeBlocks<T(!new)>(arr: array<T>, a: nat, m: nat, b: nat, less: (T, T) -> bool, ghost le: (T, T) -> bool,
                              ghost holds: bool, ghost p: seq<T>, ghost s: seq<T>, ghost t: seq<T>, ghost q: seq<T>)
    requires Ranks(less, le) && OnTies(less, le, holds)
    requires |p| == a < m < b && a + |s| == m && m + |t| == b
    requires arr[..] == p + InsertionSort(s, less) + InsertionSort(t, less) + q
    modifies arr
    ensures arr[..] == p + InsertionSort(s + t, less) + q
  {
    SortSorts(s, less, le);
    SortSorts(t, less, le);
    SortPermutes(s, less);
    SortPermutes(t, less);
    MergeOfSorts(s, t, less, le, holds);
    SymMerge(arr, a, m, b, less, le, holds, Runs(p, InsertionSort(s, less), InsertionSort(t, less), q));
  }

  const BLOCK_SIZE: nat := 20

  // The array while the blocks are sorted or merged: `done` is finished, and
  // `rest` is still to do.
  ghost predicate OnTheWay<T>(done: seq<T>, rest: seq<T>, all: seq<T>, n: nat, less: (T, T) -> bool)
    requires n > 0
  {
    done + SortBlocks(rest, n, less) == SortBlocks(all, n, less)
  }

  lemma BlockDone<T>(done: seq<T>, rest: seq<T>, all: seq<T>, n: nat, less: (T, T) -> bool)
    requires 0 < n <= |rest| && OnTheWay(done, rest, all, n, less)
    ensures OnTheWay(done + InsertionSort(rest[..n], less), rest[n..], all, n, less)
  {
    FirstBlock(rest, n, less);
    Associates(done, InsertionSort(rest[..n], less), SortBlocks(rest[n..], n, less));
  }

  // The first loop of stable: blocks of BLOCK_SIZE elements, the last one shorter.
  method SortAllBlocks<T(!new)>(arr: array<T>, less: (T, T) -> bool)
    modifies arr
    ensures arr[..] == SortBlocks(old(arr[..]), BLOCK_SIZE, less)
  {
    ghost var all := arr[..];
    ghost var done, rest := [], all;
    var a, b := 0, BLOCK_SIZE;
    while b <= arr.Length
      invariant |done| == a && b == a + BLOCK_SIZE && arr[..] == done + rest
      invariant OnTheWay(done, rest, all, BLOCK_SIZE, less)
      decreases arr.Length - a
    {
      BlockDone(done, rest, all, BLOCK_SIZE, less);
      done, rest := SortFirstBlock(arr, a, b, less, done, rest);
      a := b;
      b := b + BLOCK_SIZE;
    }
    assert done + rest + [] == done + rest;
    SortRange(arr, a, arr.Length, less, done, rest, []);
    assert done + InsertionSort(rest, less) + [] == done + InsertionSort(rest, less);
  }

  method SortFirstBlock<T>(arr: array<T>, a: nat, b: nat, less: (T, T) -> bool, ghost done: seq<T>, ghost rest: seq<T>)
    returns (ghost done': seq<T>, ghost rest': seq<T>)
    requires arr[..] == done + rest && |done| == a <= b && b - a <= |rest|
    modifies arr
    ensures done' == done + InsertionSort(rest[..b - a], less) && rest' == rest[b - a..]
    ensures arr[..] == done' + rest' && |done'| == b
  {
    ghost var s := rest[..b - a];
    rest' := rest[b - a..];
    assert s + rest' == rest;
    Associates(done, s, rest');
    SortRange(arr, a, b, less, done, s, rest');
    done' := done + InsertionSort(s, less);
    SortPermutes(s, less);
  }

  // One round of stable's second loop: neighbouring blocks of n are merged into
  // blocks of 2 n.
  method MergeAllBlocks<T(!new)>(arr: array<T>, n: nat, less: (T, T) -> bool,
                                 ghost le: (T, T) -> bool, ghost holds: bool, ghost all: seq<T>)
    requires Ranks(less, le) && OnTies(less, le, holds) && n > 0
    requires arr.Length == |all| && arr[..] == SortBlocks(all, n, less)
    modifies arr
    ensures arr[..] == SortBlocks(all, 2 * n, less)
  {
    ghost var done, rest := [], all;
    var a, b := 0, 2 * n;
    while b <= arr.Length
      invariant |done| == a && a + |rest| == arr.Length && b == a + 2 * n
      invariant arr[..] == done + SortBlocks(rest, n, less)
      invariant OnTheWay(done, rest, all, 2 * n, less)
      decreases arr.Length - a
    {
      BlockDone(done, rest, all, 2 * n, less);
      done, rest := MergeFirstBlocks(arr, a, n, less, le, holds, done, rest);
      a := b;
      b := b + 2 * n;
    }
    if a + n < arr.Length {
      MergeLastBlocks(arr, a, n, less, le, holds, done, rest);
    }
  }

  method MergeLastBlocks<T(!new)>(arr: array<T>, a: nat, n: nat, less: (T, T) -> bool, ghost le: (T, T) -> bool,
                                  ghost holds: bool, ghost done: seq<T>, ghost rest: seq<T>)
    requires Ranks(less, le) && OnTies(less, le, holds)
    requires |done| == a && a + |rest| == arr.Length && 0 < n < |rest| <= 2 * n
    requires arr[..] == done + SortBlocks(rest, n, less)
    modifies arr
    ensures arr[..] == done + InsertionSort(rest, less)
  {
    LastBlocks(done, rest, n, less);
    MergeBlocks(arr, a, a + n, arr.Length, less, le, holds, done, rest[..n], rest[n..], []);
    assert rest[..n] + rest[n..] == rest;
    assert done + InsertionSort(rest, less) + [] == done + InsertionSort(rest, less);
  }

  lemma LastBlocks<T>(done: seq<T>, rest: seq<T>, n: nat, less: (T, T) -> bool)
    requires 0 < n < |rest| <= 2 * n
    ensures done + SortBlocks(rest, n, less) ==
            done + InsertionSort(rest[..n], less) + InsertionSort(rest[n..], less) + []
  {
    JoinThree(done, InsertionSort(rest[..n], less), InsertionSort(rest[n..], less), []);
    assert InsertionSort(rest[n..], less) + [] == InsertionSort(rest[n..], less);
  }

  method MergeFirstBlocks<T(!new)>(arr: array<T>, a: nat, n: nat, less: (T, T) -> bool, ghost le: (T, T) -> bool,
                                   ghost holds: bool, ghost done: seq<T>, ghost rest: seq<T>)
    returns (ghost done': seq<T>, ghost rest': seq<T>)
    requires Ranks(less, le) && OnTies(less, le, holds) && n > 0
    requires |done| == a && 2 * n <= |rest| && arr[..] == done + SortBlocks(rest, n, less)
    modifies arr
    ensures done' == done + InsertionSort(rest[..2 * n], less) && rest' == rest[2 * n..]
    ensures arr[..] == done' + SortBlocks(rest', n, less) && |done'| == a + 2 * n
  {
    ghost var s, t := rest[..n], rest[n..2 * n];
    rest' := rest[2 * n..];
    assert s + t == rest[..2 * n];
    FirstTwoBlocks(done, rest, n, less);
    MergeBlocks(arr, a, a + n, a + 2 * n, less, le, holds, done, s, t, SortBlocks(rest', n, less));
    done' := done + InsertionSort(rest[..2 * n], less);
    SortPermutes(rest[..2 * n], less);
  }

  lemma FirstTwoBlocks<T>(done: seq<T>, rest: seq<T>, n: nat, less: (T, T) -> bool)
    requires 0 < n && 2 * n <= |rest|
    ensures done + SortBlocks(rest, n, less) ==
            done + InsertionSort(rest[..n], less) + InsertionSort(rest[n..2 * n], less)
              + SortBlocks(rest[2 * n..], n, less)
  {
    TwoBlocks(rest, n, less);
    JoinThree(done, InsertionSort(rest[..n], less), InsertionSort(rest[n..2 * n], less),
              SortBlocks(rest[2 * n..], n, less));
  }

  lemma TwoBlocks<T>(s: seq<T>, n: nat, less: (T, T) -> bool)
    requires 0 < n && 2 * n <= |s|
    ensures SortBlocks(s, n, less) ==
            InsertionSort(s[..n], less) + (InsertionSort(s[n..2 * n], less) + SortBlocks(s[2 * n..], n, less))
  {
    FirstBlock(s, n, less);
    FirstBlock(s[n..], n, less);
    CutTwice(s, n);
  }

  lemma CutTwice<T>(s: seq<T>, n: nat)
    requires 2 * n <= |s|
    ensures s[n..][..n] == s[n..2 * n] && s[n..][n..] == s[2 * n..]
  {
  }

  lemma JoinThree<T>(p: seq<T>, a: seq<T>, b: seq<T>, c: seq<T>)
    ensures p + (a + (b + c)) == p + a + b + c
  {
  }

  // stable: the result is that of one insertion sort of the whole array.
  method SortInPlace<T(!new)>(arr: array<T>, less: (T, T) -> bool, ghost le: (T, T) -> bool, ghost holds: bool)
    requires Ranks(less, le) && OnTies(less, le, holds)
    modifies arr
    ensures arr[..] == InsertionSort(old(arr[..]), less)
  {
    ghost var all := arr[..];
    SortAllBlocks(arr, less);
    var blockSize := BLOCK_SIZE;
    while blockSize < arr.Length
      invariant blockSize > 0 && arr[..] == SortBlocks(all, blockSize, less)
      decreases arr.Length - blockSize
    {
      MergeAllBlocks(arr, blockSize, less, le, holds, all);
      blockSize := blockSize * 2;
    }
  }
}
