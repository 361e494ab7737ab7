// Sorting by insertion, for any comparison function, and what merging has to do
// with it.
//
// The comparison may hold of entries that tie, as the one for descending
// listings does; what that does to ties is part of the results.
module Sorting {
  import opened Sequences

  // Insertion: x moves left past the elements it comes before.
  function Insert<T>(s: seq<T>, x: T, less: (T, T) -> bool): seq<T> {
    if s == [] || !less(x, s[|s| - 1]) then s + [x]
    else Insert(s[..|s| - 1], x, less) + [s[|s| - 1]]
  }

  function InsertionSort<T>(s: seq<T>, less: (T, T) -> bool): seq<T> {
    if s == [] then [] else Insert(InsertionSort(s[..|s| - 1], less), s[|s| - 1], less)
  }

  // Insert puts x right before the elements it comes before.
  lemma {:induction false} InsertStops<T>(s: seq<T>, x: T, j: nat, less: (T, T) -> bool)
    requires j <= |s| && (j > 0 ==> !less(x, s[j - 1]))
    requires forall k :: j <= k < |s| ==> less(x, s[k])
    ensures Insert(s, x, less) == s[..j] + [x] + s[j..]
  {
    if j < |s| {
      var front, last := s[..|s| - 1], s[|s| - 1];
      InsertStops(front, x, j, less);
      assert front[..j] == s[..j];
      Associates(s[..j] + [x], front[j..], [last]);
      assert front[j..] + [last] == s[j..];
    } else {
      assert s[..j] == s && s[j..] == [];
    }
  }

  // `le` ranks all elements, and `less` is its strict part or `le` itself.
  ghost predicate Ranks<T(!new)>(less: (T, T) -> bool, le: (T, T) -> bool) {
    forall x, y, z :: RankLaws(less, le, x, y, z)
  }

  predicate RankLaws<T>(less: (T, T) -> bool, le: (T, T) -> bool, x: T, y: T, z: T) {
    && (le(x, y) || le(y, x))
    && (le(x, y) && le(y, z) ==> le(x, z))
    && (less(x, y) ==> le(x, y))
    && (!less(x, y) ==> le(y, x))
  }

  ghost predicate Sorted<T>(s: seq<T>, le: (T, T) -> bool) {
    forall i, j :: InOrderAt(s, i, j, le)
  }

  predicate InOrderAt<T>(s: seq<T>, i: int, j: int, le: (T, T) -> bool) {
    0 <= i < j < |s| ==> le(s[i], s[j])
  }

  lemma {:induction false} InsertPermutes<T>(s: seq<T>, x: T, less: (T, T) -> bool)
    ensures multiset(Insert(s, x, less)) == multiset(s) + multiset{x}
  {
    if s != [] {
      InsertPermutes(s[..|s| - 1], x, less);
      assert s == s[..|s| - 1] + [s[|s| - 1]];
    }
  }

  lemma SortedAt<T>(s: seq<T>, i: nat, j: nat, le: (T, T) -> bool)
    requires Sorted(s, le) && i < j < |s|
    ensures le(s[i], s[j])
  {
    assert InOrderAt(s, i, j, le);
  }

  // A sequence with an element behind all others.
  lemma SortedAppend<T>(s: seq<T>, x: T, le: (T, T) -> bool)
    requires Sorted(s, le) && forall i :: 0 <= i < |s| ==> le(s[i], x)
    ensures Sorted(s + [x], le)
  {
    forall i, j
      ensures InOrderAt(s + [x], i, j, le)
    {
      if 0 <= i < j < |s| {
        SortedAt(s, i, j, le);
      }
    }
  }

  lemma SortedPrefix<T>(s: seq<T>, n: nat, le: (T, T) -> bool)
    requires Sorted(s, le) && n <= |s|
    ensures Sorted(s[..n], le)
  {
    forall i, j
      ensures InOrderAt(s[..n], i, j, le)
    {
      if 0 <= i < j < n {
        SortedAt(s, i, j, le);
      }
    }
  }

  lemma {:induction false} InsertSorts<T(!new)>(s: seq<T>, x: T, less: (T, T) -> bool, le: (T, T) -> bool)
    requires Ranks(less, le) && Sorted(s, le)
    ensures Sorted(Insert(s, x, less), le)
  {
    if s == [] || !less(x, s[|s| - 1]) {
      forall i | 0 <= i < |s|
        ensures le(s[i], x)
      {
        if i < |s| - 1 {
          SortedAt(s, i, |s| - 1, le);
        }
        assert RankLaws(less, le, s[i], s[|s| - 1], x) && RankLaws(less, le, x, s[|s| - 1], x);
      }
      SortedAppend(s, x, le);
    } else {
      var front, last := s[..|s| - 1], s[|s| - 1];
      SortedPrefix(s, |s| - 1, le);
      InsertSorts(front, x, less, le);
      InsertPermutes(front, x, less);
      var r := Insert(front, x, less);
      forall i | 0 <= i < |r|
        ensures le(r[i], last)
      {
        InsertedIsBelow(s, x, r, i, less, le);
      }
      SortedAppend(r, last, le);
    }
  }

  lemma InsertedIsBelow<T(!new)>(s: seq<T>, x: T, r: seq<T>, i: nat, less: (T, T) -> bool, le: (T, T) -> bool)
    requires Ranks(less, le) && Sorted(s, le) && s != [] && less(x, s[|s| - 1]) && i < |r|
    requires multiset(r) == multiset(s[..|s| - 1]) + multiset{x}
    ensures le(r[i], s[|s| - 1])
  {
    assert RankLaws(less, le, x, s[|s| - 1], x);
    assert r[i] in multiset(r);
    if r[i] != x {
      var k :| 0 <= k < |s| - 1 && s[..|s| - 1][k] == r[i];
      SortedAt(s, k, |s| - 1, le);
    }
  }

  lemma {:induction false} SortPermutes<T>(s: seq<T>, less: (T, T) -> bool)
    ensures multiset(InsertionSort(s, less)) == multiset(s) && |InsertionSort(s, less)| == |s|
  {
    if s != [] {
      var front := s[..|s| - 1];
      SortPermutes(front, less);
      InsertPermutes(InsertionSort(front, less), s[|s| - 1], less);
      assert s == front + [s[|s| - 1]];
    }
    assert |multiset(InsertionSort(s, less))| == |InsertionSort(s, less)|;
  }

  // The result is a sorted permutation.
  lemma {:induction false} SortSorts<T(!new)>(s: seq<T>, less: (T, T) -> bool, le: (T, T) -> bool)
    requires Ranks(less, le)
    ensures Sorted(InsertionSort(s, less), le)
    ensures multiset(InsertionSort(s, less)) == multiset(s)
  {
    SortPermutes(s, less);
    if s != [] {
      SortSorts(s[..|s| - 1], less, le);
      InsertSorts(InsertionSort(s[..|s| - 1], less), s[|s| - 1], less, le);
    }
  }

  // Whether `less` holds of all ties, or of none.
  ghost predicate OnTies<T(!new)>(less: (T, T) -> bool, le: (T, T) -> bool, holds: bool) {
    forall x, y :: TieLaw(less, le, x, y, holds)
  }

  predicate TieLaw<T>(less: (T, T) -> bool, le: (T, T) -> bool, x: T, y: T, holds: bool) {
    le(x, y) && le(y, x) ==> less(x, y) == holds
  }

  // ---- Merging ----

  // Two runs merged: of two last elements the left one goes last if the right one
  // comes before it.
  function Merge<T>(l: seq<T>, r: seq<T>, less: (T, T) -> bool): (m: seq<T>)
    ensures |m| == |l| + |r|
    decreases |l| + |r|
  {
    if l == [] then r
    else if r == [] then l
    else if less(r[|r| - 1], l[|l| - 1]) then Merge(l[..|l| - 1], r, less) + [l[|l| - 1]]
    else Merge(l, r[..|r| - 1], less) + [r[|r| - 1]]
  }

  // No element of r comes before one of l.
  predicate Stay<T>(l: seq<T>, r: seq<T>, less: (T, T) -> bool) {
    forall i, j :: 0 <= i < |l| && 0 <= j < |r| ==> !less(r[j], l[i])
  }

  // Every element of r comes before every one of l.
  predicate Cross<T>(l: seq<T>, r: seq<T>, less: (T, T) -> bool) {
    forall i, j :: 0 <= i < |l| && 0 <= j < |r| ==> less(r[j], l[i])
  }

  lemma LeftLast<T>(l: seq<T>, r: seq<T>, x: T, less: (T, T) -> bool)
    requires r != [] ==> less(r[|r| - 1], x)
    ensures Merge(l + [x], r, less) == Merge(l, r, less) + [x]
  {
    assert (l + [x])[..|l|] == l;
  }

  lemma RightLast<T>(l: seq<T>, r: seq<T>, y: T, less: (T, T) -> bool)
    requires l != [] ==> !less(y, l[|l| - 1])
    ensures Merge(l, r + [y], less) == Merge(l, r, less) + [y]
  {
    assert (r + [y])[..|r|] == r;
  }

  lemma SplitLeft<T>(l1: seq<T>, l2: seq<T>, x: T, r1: seq<T>, r2: seq<T>, less: (T, T) -> bool)
    requires Merge(l1 + l2, r1 + r2, less) == Merge(l1, r1, less) + Merge(l2, r2, less)
    requires r1 + r2 != [] ==> less((r1 + r2)[|r1 + r2| - 1], x)
    ensures Merge(l1 + (l2 + [x]), r1 + r2, less) == Merge(l1, r1, less) + Merge(l2 + [x], r2, less)
  {
    LeftLast(l1 + l2, r1 + r2, x, less);
    assert r2 != [] ==> (r1 + r2)[|r1 + r2| - 1] == r2[|r2| - 1];
    LeftLast(l2, r2, x, less);
    Associates(l1, l2, [x]);
    Associates(Merge(l1, r1, less), Merge(l2, r2, less), [x]);
  }

  lemma SplitRight<T>(l1: seq<T>, l2: seq<T>, r1: seq<T>, r2: seq<T>, y: T, less: (T, T) -> bool)
    requires Merge(l1 + l2, r1 + r2, less) == Merge(l1, r1, less) + Merge(l2, r2, less)
    requires l1 + l2 != [] ==> !less(y, (l1 + l2)[|l1 + l2| - 1])
    ensures Merge(l1 + l2, r1 + (r2 + [y]), less) == Merge(l1, r1, less) + Merge(l2, r2 + [y], less)
  {
    RightLast(l1 + l2, r1 + r2, y, less);
    assert l2 != [] ==> (l1 + l2)[|l1 + l2| - 1] == l2[|l2| - 1];
    RightLast(l2, r2, y, less);
    Associates(r1, r2, [y]);
    Associates(Merge(l1, r1, less), Merge(l2, r2, less), [y]);
  }

  lemma LastOfTwo<T>(a: seq<T>, b: seq<T>)
    requires a + b != []
    ensures (a + b)[|a + b| - 1] == if b == [] then a[|a| - 1] else b[|b| - 1]
  {
  }

  lemma StepLeft<T>(l1: seq<T>, l2: seq<T>, r1: seq<T>, r2: seq<T>, less: (T, T) -> bool)
    requires l2 != [] && Cross(l2, r1, less) && (r2 == [] || less(r2[|r2| - 1], l2[|l2| - 1]))
    requires var front := l2[..|l2| - 1];
             Merge(l1 + front, r1 + r2, less) == Merge(l1, r1, less) + Merge(front, r2, less)
    ensures Merge(l1 + l2, r1 + r2, less) == Merge(l1, r1, less) + Merge(l2, r2, less)
  {
    var front, x := l2[..|l2| - 1], l2[|l2| - 1];
    assert l2 == front + [x];
    if r1 + r2 != [] {
      LastOfTwo(r1, r2);
    }
    SplitLeft(l1, front, x, r1, r2, less);
  }

  lemma StepRight<T>(l1: seq<T>, l2: seq<T>, r1: seq<T>, r2: seq<T>, less: (T, T) -> bool)
    requires r2 != [] && Stay(l1, r2, less) && (l2 == [] || !less(r2[|r2| - 1], l2[|l2| - 1]))
    requires var front := r2[..|r2| - 1];
             Merge(l1 + l2, r1 + front, less) == Merge(l1, r1, less) + Merge(l2, front, less)
    ensures Merge(l1 + l2, r1 + r2, less) == Merge(l1, r1, less) + Merge(l2, r2, less)
  {
    var front, y := r2[..|r2| - 1], r2[|r2| - 1];
    assert r2 == front + [y];
    if l1 + l2 != [] {
      LastOfTwo(l1, l2);
    }
    SplitRight(l1, l2, r1, front, y, less);
  }

  // A merge falls apart where the left's first part stays before the right's
  // second part and the right's first part goes before the left's second.
  lemma {:induction false} MergeSplits<T>(l1: seq<T>, l2: seq<T>, r1: seq<T>, r2: seq<T>, less: (T, T) -> bool)
    requires Stay(l1, r2, less) && Cross(l2, r1, less)
    ensures Merge(l1 + l2, r1 + r2, less) == Merge(l1, r1, less) + Merge(l2, r2, less)
    decreases |l2| + |r2|
  {
    if l2 == [] && r2 == [] {
      assert l1 + l2 == l1 && r1 + r2 == r1;
      assert Merge(l1, r1, less) + [] == Merge(l1, r1, less);
    } else if r2 == [] || (l2 != [] && less(r2[|r2| - 1], l2[|l2| - 1])) {
      MergeSplits(l1, l2[..|l2| - 1], r1, r2, less);
      StepLeft(l1, l2, r1, r2, less);
    } else {
      MergeSplits(l1, l2, r1, r2[..|r2| - 1], less);
      StepRight(l1, l2, r1, r2, less);
    }
  }

  // What comes before an element also comes before what ranks after it.
  lemma LessSpreads<T(!new)>(y': T, y: T, x: T, x': T, less: (T, T) -> bool, le: (T, T) -> bool, holds: bool)
    requires Ranks(less, le) && OnTies(less, le, holds)
    requires le(y', y) && less(y, x) && le(x, x')
    ensures less(y', x')
  {
    assert RankLaws(less, le, y, x, x') && RankLaws(less, le, y', y, x') && RankLaws(less, le, y', x', y);
    assert RankLaws(less, le, x, x', y') && RankLaws(less, le, x, y', y);
    assert TieLaw(less, le, y', x', holds) && TieLaw(less, le, y, x, holds);
  }

  // Where the last of two elements may stay, whatever comes in after it.
  lemma LessAgrees<T(!new)>(x: T, r: T, l: T, less: (T, T) -> bool, le: (T, T) -> bool, holds: bool)
    requires Ranks(less, le) && OnTies(less, le, holds)
    ensures less(r, l) && !less(x, l) ==> !less(x, r)
    ensures !less(r, l) && !less(x, r) ==> !less(x, l)
    ensures less(r, l) && less(x, r) ==> less(x, l)
  {
    Reflexive(less, le, x, l);
    assert RankLaws(less, le, r, l, l);
    if less(r, l) && less(x, r) {
      assert RankLaws(less, le, x, r, l);
      LessSpreads(x, r, l, l, less, le, holds);
    }
    if !less(r, l) && less(x, l) {
      LessSpreads(x, x, l, r, less, le, holds);
    }
  }

  lemma InsertLast<T>(s: seq<T>, z: T, x: T, less: (T, T) -> bool)
    ensures Insert(s + [z], x, less) == if less(x, z) then Insert(s, x, less) + [z] else s + [z] + [x]
  {
    assert (s + [z])[..|s|] == s;
  }

  // Inserting into a merge is inserting into its right run.
  lemma {:induction false} InsertMerge<T(!new)>(l: seq<T>, r: seq<T>, x: T, less: (T, T) -> bool, le: (T, T) -> bool,
                                                holds: bool)
    requires Ranks(less, le) && OnTies(less, le, holds)
    ensures Insert(Merge(l, r, less), x, less) == Merge(l, Insert(r, x, less), less)
    decreases |l| + |r|
  {
    if l == [] {
    } else if r == [] || less(r[|r| - 1], l[|l| - 1]) {
      var front, z := l[..|l| - 1], l[|l| - 1];
      assert l == front + [z];
      InsertMerge(front, r, x, less, le, holds);
      if r != [] {
        LessAgrees(x, r[|r| - 1], z, less, le, holds);
      }
      InsertPastLeft(front, z, r, x, less);
    } else {
      var front, z := r[..|r| - 1], r[|r| - 1];
      assert r == front + [z];
      InsertMerge(l, front, x, less, le, holds);
      LessAgrees(x, z, l[|l| - 1], less, le, holds);
      InsertPastRight(l, front, z, x, less);
    }
  }

  lemma InsertPastLeft<T>(l: seq<T>, z: T, r: seq<T>, x: T, less: (T, T) -> bool)
    requires r != [] ==> less(r[|r| - 1], z) && (!less(x, z) ==> !less(x, r[|r| - 1]))
    requires Insert(Merge(l, r, less), x, less) == Merge(l, Insert(r, x, less), less)
    ensures Insert(Merge(l + [z], r, less), x, less) == Merge(l + [z], Insert(r, x, less), less)
  {
    LeftLast(l, r, z, less);
    InsertLast(Merge(l, r, less), z, x, less);
    if less(x, z) {
      LastOfInsert(r, x, less);
      LeftLast(l, Insert(r, x, less), z, less);
    } else {
      RightLast(l + [z], r, x, less);
    }
  }

  lemma InsertPastRight<T>(l: seq<T>, r: seq<T>, z: T, x: T, less: (T, T) -> bool)
    requires l != [] && !less(z, l[|l| - 1]) && (!less(x, z) ==> !less(x, l[|l| - 1]))
    requires Insert(Merge(l, r, less), x, less) == Merge(l, Insert(r, x, less), less)
    ensures Insert(Merge(l, r + [z], less), x, less) == Merge(l, Insert(r + [z], x, less), less)
  {
    RightLast(l, r, z, less);
    InsertLast(Merge(l, r, less), z, x, less);
    InsertLast(r, z, x, less);
    if less(x, z) {
      RightLast(l, Insert(r, x, less), z, less);
    } else {
      RightLast(l, r + [z], x, less);
    }
  }

  lemma LastOfInsert<T>(s: seq<T>, x: T, less: (T, T) -> bool)
    ensures var r := Insert(s, x, less);
            r != [] && (r[|r| - 1] == x || (s != [] && r[|r| - 1] == s[|s| - 1]))
  {
  }

  // Sorting two runs apart and merging them is sorting them together.
  lemma {:induction false} MergeOfSorts<T(!new)>(s: seq<T>, t: seq<T>, less: (T, T) -> bool, le: (T, T) -> bool,
                                                 holds: bool)
    requires Ranks(less, le) && OnTies(less, le, holds)
    ensures Merge(InsertionSort(s, less), InsertionSort(t, less), less) == InsertionSort(s + t, less)
    decreases |t|
  {
    if t == [] {
      assert s + t == s;
    } else {
      var front, x := t[..|t| - 1], t[|t| - 1];
      MergeOfSorts(s, front, less, le, holds);
      InsertMerge(InsertionSort(s, less), InsertionSort(front, less), x, less, le, holds);
      assert (s + t)[..|s + t| - 1] == s + front;
    }
  }

  // If the cut is right at its boundary, it is right for the whole runs, as they are
  // sorted.
  lemma SplitIsSafe<T(!new)>(l1: seq<T>, l2: seq<T>, r1: seq<T>, r2: seq<T>, less: (T, T) -> bool, le: (T, T) -> bool,
                             holds: bool)
    requires Ranks(less, le) && OnTies(less, le, holds) && Sorted(l1 + l2, le) && Sorted(r1 + r2, le)
    requires l1 != [] && r2 != [] ==> !less(r2[0], l1[|l1| - 1])
    requires l2 != [] && r1 != [] ==> less(r1[|r1| - 1], l2[0])
    ensures Stay(l1, r2, less) && Cross(l2, r1, less)
  {
    SortedParts(l1, l2, le);
    SortedParts(r1, r2, le);
    forall i, j | 0 <= i < |l1| && 0 <= j < |r2|
      ensures !less(r2[j], l1[i])
    {
      Reflexive(less, le, r2[j], l1[i]);
      if j > 0 {
        SortedAt(r2, 0, j, le);
      }
      if i < |l1| - 1 {
        SortedAt(l1, i, |l1| - 1, le);
      }
      if less(r2[j], l1[i]) {
        LessSpreads(r2[0], r2[j], l1[i], l1[|l1| - 1], less, le, holds);
      }
    }
    forall i, j | 0 <= i < |l2| && 0 <= j < |r1|
      ensures less(r1[j], l2[i])
    {
      Reflexive(less, le, r1[j], l2[i]);
      if i > 0 {
        SortedAt(l2, 0, i, le);
      }
      if j < |r1| - 1 {
        SortedAt(r1, j, |r1| - 1, le);
      }
      LessSpreads(r1[j], r1[|r1| - 1], l2[0], l2[i], less, le, holds);
    }
  }

  lemma Reflexive<T(!new)>(less: (T, T) -> bool, le: (T, T) -> bool, x: T, y: T)
    requires Ranks(less, le)
    ensures le(x, x) && le(y, y)
  {
    assert RankLaws(less, le, x, x, x) && RankLaws(less, le, y, y, y);
  }

  lemma SortedParts<T>(s: seq<T>, t: seq<T>, le: (T, T) -> bool)
    requires Sorted(s + t, le)
    ensures Sorted(s, le) && Sorted(t, le)
  {
    forall i, j
      ensures InOrderAt(s, i, j, le) && InOrderAt(t, i, j, le)
    {
      assert InOrderAt(s + t, i, j, le) && InOrderAt(s + t, |s| + i, |s| + j, le);
    }
  }

  lemma {:induction false} MergeStays<T>(l: seq<T>, r: seq<T>, less: (T, T) -> bool)
    requires Stay(l, r, less)
    ensures Merge(l, r, less) == l + r
  {
    if r == [] {
      assert l + r == l;
    } else {
      var front, y := r[..|r| - 1], r[|r| - 1];
      MergeStays(l, front, less);
      assert r == front + [y];
      RightLast(l, front, y, less);
    }
  }

  // ---- Ties ----

  predicate Tied<T>(x: T, y: T, le: (T, T) -> bool) {
    le(x, y) && le(y, x)
  }

  // The elements that tie with e, in order.
  function Ties<T>(s: seq<T>, e: T, le: (T, T) -> bool): seq<T> {
    if s == [] then []
    else Ties(s[..|s| - 1], e, le) + if Tied(s[|s| - 1], e, le) then [s[|s| - 1]] else []
  }

  function Reverse<T>(s: seq<T>): seq<T> {
    if s == [] then [] else [s[|s| - 1]] + Reverse(s[..|s| - 1])
  }

  lemma ReverseAppend<T>(s: seq<T>, x: T)
    ensures Reverse(s + [x]) == [x] + Reverse(s)
  {
    assert (s + [x])[..|s|] == s;
  }

  lemma TiesAppend<T>(s: seq<T>, x: T, e: T, le: (T, T) -> bool)
    ensures Ties(s + [x], e, le) == Ties(s, e, le) + if Tied(x, e, le) then [x] else []
  {
    assert (s + [x])[..|s|] == s;
  }

  // Where x goes among the elements it ties with.
  function TiesWith<T>(ties: seq<T>, x: T, e: T, le: (T, T) -> bool, holds: bool): seq<T> {
    if !Tied(x, e, le) then ties else if holds then [x] + ties else ties + [x]
  }

  // x stays at the end.
  lemma TiesWhenLast<T>(s: seq<T>, x: T, e: T, le: (T, T) -> bool, holds: bool)
    requires Tied(x, e, le) && holds ==> Ties(s, e, le) == []
    ensures Ties(s + [x], e, le) == TiesWith(Ties(s, e, le), x, e, le, holds)
  {
    TiesAppend(s, x, e, le);
  }

  // x moves past the last element, which it ties with only if ties come first.
  lemma TiesWhenPassed<T>(s: seq<T>, last: T, x: T, e: T, less: (T, T) -> bool, le: (T, T) -> bool, holds: bool)
    requires less(x, last) && (Tied(x, e, le) && Tied(last, e, le) ==> holds)
    requires Ties(Insert(s, x, less), e, le) == TiesWith(Ties(s, e, le), x, e, le, holds)
    ensures Ties(Insert(s + [last], x, less), e, le) == TiesWith(Ties(s + [last], e, le), x, e, le, holds)
  {
    assert (s + [last])[..|s|] == s;
    TiesAppend(Insert(s, x, less), last, e, le);
    TiesAppend(s, last, e, le);
    var ties := Ties(s, e, le);
    if Tied(last, e, le) {
      Associates([x], ties, [last]);
    } else {
      assert ties + [] == ties && TiesWith(ties, x, e, le, holds) + [] == TiesWith(ties, x, e, le, holds);
    }
  }

  // x moves past every element from the first it ties with on, if ties come
  // first, and past none it ties with, if they do not.
  ghost predicate Sinks<T>(s: seq<T>, x: T, e: T, less: (T, T) -> bool, le: (T, T) -> bool, holds: bool) {
    && (holds ==> forall i, j :: 0 <= i <= j < |s| && Tied(s[i], e, le) ==> less(x, s[j]))
    && (!holds ==> forall i :: 0 <= i < |s| && Tied(s[i], e, le) ==> !less(x, s[i]))
  }

  lemma SortedSinks<T(!new)>(s: seq<T>, x: T, e: T, less: (T, T) -> bool, le: (T, T) -> bool, holds: bool)
    requires Ranks(less, le) && OnTies(less, le, holds) && Sorted(s, le) && Tied(x, e, le)
    ensures Sinks(s, x, e, less, le, holds)
  {
    forall i, j | 0 <= i <= j < |s| && Tied(s[i], e, le)
      ensures holds ==> less(x, s[j])
      ensures !holds ==> !less(x, s[i])
    {
      assert RankLaws(less, le, x, e, s[i]) && RankLaws(less, le, s[i], e, x);
      assert InOrderAt(s, i, j, le);
      assert RankLaws(less, le, x, s[i], s[j]) && RankLaws(less, le, s[j], x, x);
      assert RankLaws(less, le, x, s[j], s[j]);
      assert TieLaw(less, le, x, s[i], holds) && TieLaw(less, le, x, s[j], holds);
    }
  }

  lemma {:induction false} TiesAfterInsert<T>(s: seq<T>, x: T, e: T, less: (T, T) -> bool, le: (T, T) -> bool,
                                              holds: bool)
    requires Tied(x, e, le) ==> Sinks(s, x, e, less, le, holds)
    ensures Ties(Insert(s, x, less), e, le) == TiesWith(Ties(s, e, le), x, e, le, holds)
  {
    if s == [] || !less(x, s[|s| - 1]) {
      if holds && Tied(x, e, le) {
        NoTies(s, e, le);
      }
      TiesWhenLast(s, x, e, le, holds);
    } else {
      var front, last := s[..|s| - 1], s[|s| - 1];
      TiesAfterInsert(front, x, e, less, le, holds);
      TiesWhenPassed(front, last, x, e, less, le, holds);
      assert front + [last] == s;
    }
  }

  lemma {:induction false} NoTies<T>(s: seq<T>, e: T, le: (T, T) -> bool)
    requires forall i :: 0 <= i < |s| ==> !Tied(s[i], e, le)
    ensures Ties(s, e, le) == []
  {
    if s != [] {
      NoTies(s[..|s| - 1], e, le);
    }
  }

  // Elements that tie keep their order if `less` fails on ties, and are reversed
  // if it holds on them.
  lemma {:induction false} SortTreatsTies<T(!new)>(s: seq<T>, e: T, less: (T, T) -> bool, le: (T, T) -> bool, holds: bool)
    requires Ranks(less, le) && OnTies(less, le, holds)
    ensures Ties(InsertionSort(s, less), e, le) == if holds then Reverse(Ties(s, e, le)) else Ties(s, e, le)
  {
    if s != [] {
      var front, x := s[..|s| - 1], s[|s| - 1];
      SortTreatsTies(front, e, less, le, holds);
      SortSorts(front, less, le);
      if Tied(x, e, le) {
        SortedSinks(InsertionSort(front, less), x, e, less, le, holds);
      }
      TiesAfterInsert(InsertionSort(front, less), x, e, less, le, holds);
      ReverseAppend(Ties(front, e, le), x);
      assert Ties(s, e, le) == if Tied(x, e, le) then Ties(front, e, le) + [x] else Ties(front, e, le);
    }
  }

  ghost predicate SameTies<T(!new)>(a: seq<T>, b: seq<T>, le: (T, T) -> bool) {
    forall e :: Ties(a, e, le) == Ties(b, e, le)
  }

  // Sorted sequences whose ties are in the same order are equal, so that any
  // stable sort gives the same result.
  lemma {:induction false} StableSortIsUnique<T(!new)>(a: seq<T>, b: seq<T>, le: (T, T) -> bool)
    requires (forall x :: le(x, x)) && Sorted(a, le) && Sorted(b, le) && SameTies(a, b, le)
    ensures a == b
    decreases |a| + |b|
  {
    EmptyTogether(a, b, le);
    EmptyTogether(b, a, le);
    if a != [] {
      var a', b', x := a[..|a| - 1], b[..|b| - 1], a[|a| - 1];
      SameLast(a, b, le);
      assert a == a' + [x] && b == b' + [x];
      SameTiesWithoutLast(a', b', x, le);
      SortedPrefix(a, |a| - 1, le);
      SortedPrefix(b, |b| - 1, le);
      StableSortIsUnique(a', b', le);
    }
  }

  lemma EmptyTogether<T(!new)>(a: seq<T>, b: seq<T>, le: (T, T) -> bool)
    requires (forall x :: le(x, x)) && SameTies(a, b, le)
    ensures b == [] ==> a == []
  {
    if a != [] {
      TiesEndWith(a, le);
      assert Ties(b, a[|a| - 1], le) != [];
    }
  }

  lemma SameTiesWithoutLast<T(!new)>(a: seq<T>, b: seq<T>, x: T, le: (T, T) -> bool)
    requires SameTies(a + [x], b + [x], le)
    ensures SameTies(a, b, le)
  {
    forall e
      ensures Ties(a, e, le) == Ties(b, e, le)
    {
      TiesAppend(a, x, e, le);
      TiesAppend(b, x, e, le);
      assert Ties(a + [x], e, le) == Ties(b + [x], e, le);
      var one := if Tied(x, e, le) then [x] else [];
      assert (Ties(a, e, le) + one)[..|Ties(a, e, le)|] == Ties(a, e, le);
      assert (Ties(b, e, le) + one)[..|Ties(b, e, le)|] == Ties(b, e, le);
    }
  }

  lemma TiesEndWith<T>(s: seq<T>, le: (T, T) -> bool)
    requires s != [] && le(s[|s| - 1], s[|s| - 1])
    ensures var ties := Ties(s, s[|s| - 1], le);
            ties != [] && ties[|ties| - 1] == s[|s| - 1]
  {
  }

  lemma {:induction false} TiesAreElements<T>(s: seq<T>, e: T, x: T, le: (T, T) -> bool)
    requires x in Ties(s, e, le)
    ensures x in s
  {
    if s != [] && x in Ties(s[..|s| - 1], e, le) {
      TiesAreElements(s[..|s| - 1], e, x, le);
    }
  }

  // The last element of one is in the other, and so not after its last.
  lemma LastIsBelow<T(!new)>(a: seq<T>, b: seq<T>, le: (T, T) -> bool)
    requires (forall x :: le(x, x)) && Sorted(b, le) && SameTies(a, b, le) && a != [] && b != []
    ensures le(a[|a| - 1], b[|b| - 1])
  {
    var x := a[|a| - 1];
    TiesEndWith(a, le);
    assert x in Ties(b, x, le);
    TiesAreElements(b, x, x, le);
    var k :| 0 <= k < |b| && b[k] == x;
    assert InOrderAt(b, k, |b| - 1, le);
  }

  lemma SameLast<T(!new)>(a: seq<T>, b: seq<T>, le: (T, T) -> bool)
    requires (forall x :: le(x, x)) && Sorted(a, le) && Sorted(b, le) && SameTies(a, b, le)
    requires a != [] && b != []
    ensures a[|a| - 1] == b[|b| - 1]
  {
    var x, y := a[|a| - 1], b[|b| - 1];
    LastIsBelow(a, b, le);
    LastIsBelow(b, a, le);
    TiesEndWith(a, le);
    assert Ties(b, x, le) == Ties(b[..|b| - 1], x, le) + [y];
  }
}
